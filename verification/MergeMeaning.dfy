/** What merging returns, said of rows alone: of the rows that share workspace and id the
    first counts, with its score divided by the best of its batch; the best of them come
    first, earlier ones before later ones of equal score; and the list ends at `top_k`. */
module MergeMeaning {
  import opened Common
  import opened Positions
  import opened StableSort
  import opened EvidenceMerge
  import opened MergeLaws

  // ----- normalising -----

  /** Every batch with its scores normalised. */
  function Normalised(batches: seq<Batch>): (r: seq<Batch>)
    ensures |r| == |batches| && forall i :: 0 <= i < |r| ==> r[i] == Shares(batches[i], Top(batches[i]))
  {
    seq(|batches|, i requires 0 <= i < |batches| => Shares(batches[i], Top(batches[i])))
  }

  ghost predicate IsBest(b: Batch, best: real) {
    (exists e :: e in b && e.score == best) && forall e :: e in b ==> e.score <= best
  }

  /** Scores are divided by the best score of their batch, unless that is zero; nothing
      else of a row changes. */
  lemma NormalisedMeans(batches: seq<Batch>, i: nat, k: nat, best: real)
    requires i < |batches| && k < |batches[i]| && IsBest(batches[i], best)
    ensures |Normalised(batches)[i]| == |batches[i]|
    ensures var e := batches[i][k];
            Normalised(batches)[i][k] == e.(score := if best == 0.0 then e.score else e.score / best)
  {
    var b := batches[i];
    MaxScoreIsMax(b);
    assert MaxScore(b) == best;
    assert Shares(b, Top(b))[k] == Share(b[k], Top(b));
    if best == 0.0 {
      assert b[k].score / 1.0 == b[k].score;
    }
  }

  lemma NormalisedTail(batches: seq<Batch>)
    requires batches != []
    ensures Normalised(batches)[1..] == Normalised(batches[1..])
    ensures Flatten(Normalised(batches)) == Shares(batches[0], Top(batches[0])) + Flatten(Normalised(batches[1..]))
  {
    assert Normalised(batches)[1..] == Normalised(batches[1..]);
  }

  lemma {:induction false} FirstWinsOfShares(b: Batch, top: real, seen: set<string>)
    requires top != 0.0
    ensures FirstWins(Shares(b, top), seen) == Shares(FirstWins(b, seen), top)
  {
    if b != [] {
      assert Shares(b, top)[1..] == Shares(b[1..], top) && Key(Shares(b, top)[0]) == Key(b[0]);
      FirstWinsOfShares(b[1..], top, seen);
      FirstWinsOfShares(b[1..], top, seen + {Key(b[0])});
    }
  }

  lemma KeysOfShares(b: Batch, top: real)
    requires top != 0.0
    ensures KeySet(Shares(b, top)) == KeySet(b)
  {
    var r := Shares(b, top);
    forall k ensures k in KeySet(r) <==> k in KeySet(b) {
      if k in KeySet(b) {
        var i :| 0 <= i < |b| && Key(b[i]) == k;
        assert Key(r[i]) == k && r[i] in r;
      }
      if k in KeySet(r) {
        var i :| 0 <= i < |r| && Key(r[i]) == k;
        assert Key(b[i]) == k && b[i] in b;
      }
    }
  }

  lemma {:induction false} UnionOfNormalised(batches: seq<Batch>, seen: set<string>)
    ensures Union(batches, seen) == FirstWins(Flatten(Normalised(batches)), seen)
  {
    if batches != [] {
      var b, rest := batches[0], batches[1..];
      UnionOfNormalised(rest, seen + KeySet(b));
      NormalisedTail(batches);
      FirstWinsAppend(Shares(b, Top(b)), Flatten(Normalised(rest)), seen);
      FirstWinsOfShares(b, Top(b), seen);
      KeysOfShares(b, Top(b));
    }
  }

  // ----- which rows count -----

  predicate SameRow(e: Evidence, e': Evidence) {
    e.workspace == e'.workspace && e.id == e'.id
  }

  /** The row at `p` is the first of its workspace and id. */
  ghost predicate FirstRow(rows: Batch, p: nat) {
    p < |rows| && forall j :: 0 <= j < p ==> !SameRow(rows[j], rows[p])
  }

  ghost predicate NewAt(rows: Batch, seen: set<string>, p: nat) {
    p < |rows| && Key(rows[p]) !in seen && forall j :: 0 <= j < p ==> Key(rows[j]) != Key(rows[p])
  }

  /** `first` are, in order, the positions at which the rows of `kept` stand in `rows`. */
  ghost predicate StandAt(kept: Batch, rows: Batch, first: seq<nat>) {
    |first| == |kept| && Increasing(first) && forall k :: 0 <= k < |kept| ==> first[k] < |rows| && kept[k] == rows[first[k]]
  }

  lemma NewLater(rows: Batch, seen: set<string>, p: nat)
    requires 0 < p < |rows|
    ensures NewAt(rows, seen, p) <==> NewAt(rows[1..], seen + {Key(rows[0])}, p - 1)
  {
    var rest := rows[1..];
    assert rest[p - 1] == rows[p];
    if NewAt(rows, seen, p) {
      forall j | 0 <= j < p - 1 ensures Key(rest[j]) != Key(rest[p - 1]) {
        assert rest[j] == rows[j + 1];
      }
    }
    if NewAt(rest, seen + {Key(rows[0])}, p - 1) {
      forall j | 0 <= j < p ensures Key(rows[j]) != Key(rows[p]) {
        if j > 0 {
          assert rest[j - 1] == rows[j];
        }
      }
    }
  }

  lemma {:induction false} FirstWinsStandAt(rows: Batch, seen: set<string>) returns (first: seq<nat>)
    ensures StandAt(FirstWins(rows, seen), rows, first)
    ensures forall p: nat :: p in first <==> NewAt(rows, seen, p)
  {
    first := [];
    if rows != [] {
      var k := Key(rows[0]);
      assert k in seen ==> seen + {k} == seen;
      var later := FirstWinsStandAt(rows[1..], seen + {k});
      StandLater(FirstWins(rows[1..], seen + {k}), rows, later);
      first := if k in seen then Up(later) else [0] + Up(later);
      forall p: nat ensures p in first <==> NewAt(rows, seen, p) {
        UpMember(later, p);
        if 0 < p {
          assert p in first <==> p in Up(later);
          if p < |rows| {
            NewLater(rows, seen, p);
          }
        }
      }
    }
  }

  lemma StandLater(kept: Batch, rows: Batch, later: seq<nat>)
    requires rows != [] && StandAt(kept, rows[1..], later)
    ensures StandAt(kept, rows, Up(later))
    ensures StandAt([rows[0]] + kept, rows, [0] + Up(later))
  {
    var more, at := [rows[0]] + kept, [0] + Up(later);
    forall k | 0 <= k < |more| ensures at[k] < |rows| && more[k] == rows[at[k]] {
      if k > 0 {
        assert more[k] == kept[k - 1] == rows[1..][later[k - 1]];
      }
    }
    forall k | 0 <= k < |kept| ensures Up(later)[k] < |rows| && kept[k] == rows[Up(later)[k]] {
      assert kept[k] == rows[1..][later[k]];
    }
  }

  lemma NewIsFirstRow(rows: Batch, p: nat)
    requires forall e :: e in rows ==> NoColon(e.workspace)
    ensures NewAt(rows, {}, p) <==> FirstRow(rows, p)
  {
    if p < |rows| {
      forall j | 0 <= j < p ensures Key(rows[j]) == Key(rows[p]) <==> SameRow(rows[j], rows[p]) {
        KeyIdentifies(rows[j], rows[p]);
      }
    }
  }

  // ----- ranking and cutting -----

  /** The row at `p` ranks before that at `q`: by score, then by position. */
  predicate Precedes(rows: Batch, p: nat, q: nat)
    requires p < |rows| && q < |rows|
  {
    rows[p].score > rows[q].score || (rows[p].score == rows[q].score && p < q)
  }

  /** `r` are the rows at the positions `at`: first of their workspace and id, in order of
      rank, and such that every other row that is first of its kind ranks after them and
      was left out because `topK` rows are there. */
  ghost predicate IsTop(rows: Batch, r: Batch, at: seq<nat>, topK: nat) {
    && |at| == |r| <= topK
    && (forall k :: 0 <= k < |at| ==> FirstRow(rows, at[k]) && r[k] == rows[at[k]])
    && (forall i, j :: 0 <= i < j < |at| ==> Precedes(rows, at[i], at[j]))
    && (forall p: nat :: FirstRow(rows, p) && p !in at ==>
          |at| == topK && forall k :: 0 <= k < |at| ==> Precedes(rows, at[k], p))
  }

  /** The positions in `rows` of a sorted selection `kept`. */
  function Through(first: seq<nat>, perm: seq<nat>): (at: seq<nat>)
    requires forall k :: 0 <= k < |perm| ==> perm[k] < |first|
    ensures |at| == |perm| && forall k :: 0 <= k < |at| ==> at[k] == first[perm[k]]
  {
    seq(|perm|, k requires 0 <= k < |perm| => first[perm[k]])
  }

  lemma RankedThrough(kept: Batch, rows: Batch, first: seq<nat>, perm: seq<nat>)
    requires StandAt(kept, rows, first) && SortedAt(kept, Descending, perm)
    ensures var at := Through(first, perm);
            && (forall k :: 0 <= k < |at| ==> at[k] < |rows| && kept[perm[k]] == rows[at[k]])
            && (forall i, j :: 0 <= i < j < |at| ==> Precedes(rows, at[i], at[j]))
            && (forall p: nat :: p in at <==> p in first)
  {
    var at := Through(first, perm);
    forall i, j | 0 <= i < j < |at| ensures Precedes(rows, at[i], at[j]) {
      assert Before(kept, Descending, perm[i], perm[j]);
    }
    forall p: nat ensures p in at <==> p in first {
      if p in first {
        var m: nat :| m < |first| && first[m] == p;
        assert m in perm;
        var k :| 0 <= k < |perm| && perm[k] == m;
        assert at[k] == p;
      }
    }
  }

  lemma TopOfRanking(rows: Batch, full: Batch, at: seq<nat>, topK: nat)
    requires |at| == |full| && forall k :: 0 <= k < |at| ==> at[k] < |rows| && full[k] == rows[at[k]]
    requires forall i, j :: 0 <= i < j < |at| ==> Precedes(rows, at[i], at[j])
    requires forall p: nat :: p in at <==> FirstRow(rows, p)
    ensures IsTop(rows, full[..Min(topK, |full|)], at[..Min(topK, |full|)], topK)
  {
    var n := Min(topK, |full|);
    forall k | 0 <= k < n ensures FirstRow(rows, at[k]) {
      assert at[k] in at;
    }
    forall p: nat | FirstRow(rows, p) && p !in at[..n]
      ensures n == topK && forall k :: 0 <= k < n ==> Precedes(rows, at[k], p)
    {
      var m :| 0 <= m < |at| && at[m] == p;
    }
  }

  /** The meaning of merging, for workspaces without a colon in their names. */
  lemma MergedMeans(batches: seq<Batch>, topK: nat) returns (at: seq<nat>)
    requires forall b, e :: b in batches && e in b ==> NoColon(e.workspace)
    ensures IsTop(Flatten(Normalised(batches)), Merged(batches, topK), at, topK)
  {
    var rows, u := Flatten(Normalised(batches)), Union(batches, {});
    var first := FirstRowsStandAt(batches);
    var perm := SortPositions(u, Descending);
    RankedThrough(u, rows, first, perm);
    at := Through(first, perm);
    SortIsStable(u, Descending);
    TopOfRanking(rows, Ranked(batches), at, topK);
    at := at[..Min(topK, |u|)];
  }

  /** A negative bound leaves out as many of the last rows. */
  lemma NegativeCut(batches: seq<Batch>, topK: int)
    requires topK < 0
    ensures var n := |Union(batches, {})| + topK;
            Merged(batches, topK) == Merged(batches, if n >= 0 then n else 0)
  {
    SortIsStable(Union(batches, {}), Descending);
  }

  /** Normalising changes scores only, row by row. */
  lemma {:induction false} NormalisedRows(batches: seq<Batch>)
    ensures Unscored(Flatten(Normalised(batches))) == Unscored(Flatten(batches))
  {
    if batches != [] {
      var b, rest := batches[0], batches[1..];
      NormalisedRows(rest);
      NormalisedTail(batches);
      UnscoredJoin(Shares(b, Top(b)), Flatten(Normalised(rest)));
      UnscoredJoin(b, Flatten(rest));
      UnscoredShares(b, Top(b));
    }
  }

  lemma {:induction false} NormalisedLabels(batches: seq<Batch>)
    requires forall b, e :: b in batches && e in b ==> NoColon(e.workspace)
    ensures forall e :: e in Flatten(Normalised(batches)) ==> NoColon(e.workspace)
  {
    if batches != [] {
      var own := Shares(batches[0], Top(batches[0]));
      assert forall b :: b in batches[1..] ==> b in batches;
      NormalisedLabels(batches[1..]);
      NormalisedTail(batches);
      forall e | e in own ensures NoColon(e.workspace) {
        var i :| 0 <= i < |own| && own[i] == e;
        assert batches[0] in batches && batches[0][i] in batches[0];
      }
    }
  }

  /** Exactly one row of `u` has the workspace and id of `e`. */
  ghost predicate OnceIn(u: Batch, e: Evidence) {
    exists k :: 0 <= k < |u| && SameRow(u[k], e) && forall j :: 0 <= j < |u| && SameRow(u[j], e) ==> j == k
  }

  lemma FirstRowsOnce(u: Batch, rows: Batch, first: seq<nat>, q: nat)
    requires StandAt(u, rows, first) && (forall p: nat :: p in first <==> FirstRow(rows, p)) && q < |rows|
    ensures OnceIn(u, rows[q])
  {
    var p := FirstLike(rows, q);
    var k :| 0 <= k < |first| && first[k] == p;
    forall j | 0 <= j < |u| && SameRow(u[j], rows[q]) ensures j == k {
      assert first[j] in first;
    }
  }

  lemma FirstRowsStandAt(batches: seq<Batch>) returns (first: seq<nat>)
    requires forall b, x :: b in batches && x in b ==> NoColon(x.workspace)
    ensures StandAt(Union(batches, {}), Flatten(Normalised(batches)), first)
    ensures forall p: nat :: p in first <==> FirstRow(Flatten(Normalised(batches)), p)
  {
    var rows := Flatten(Normalised(batches));
    UnionOfNormalised(batches, {});
    NormalisedLabels(batches);
    first := FirstWinsStandAt(rows, {});
    forall p: nat ensures NewAt(rows, {}, p) <==> FirstRow(rows, p) {
      NewIsFirstRow(rows, p);
    }
  }

  /** Every row that some workspace answered with is there exactly once before the cut. */
  lemma EachRowOnce(batches: seq<Batch>, e: Evidence)
    requires forall b, x :: b in batches && x in b ==> NoColon(x.workspace)
    requires e in Flatten(batches)
    ensures OnceIn(Union(batches, {}), e)
  {
    var rows, flat := Flatten(Normalised(batches)), Flatten(batches);
    NormalisedRows(batches);
    var q :| 0 <= q < |flat| && flat[q] == e;
    assert |Unscored(rows)| == |Unscored(flat)| && Unscored(rows)[q] == Unscored(flat)[q];
    var first := FirstRowsStandAt(batches);
    FirstRowsOnce(Union(batches, {}), rows, first, q);
  }

  /** The first row with the workspace and id of the row at `q`. */
  lemma {:induction false} FirstLike(rows: Batch, q: nat) returns (p: nat)
    requires q < |rows|
    ensures p <= q && FirstRow(rows, p) && SameRow(rows[p], rows[q])
  {
    if j: nat :| j < q && SameRow(rows[j], rows[q]) {
      p := FirstLike(rows, j);
    } else {
      p := q;
    }
  }
}
