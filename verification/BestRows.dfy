/** Which rows the cut leaves: every workspace's best rows come first, and exactly when a
    workspace appears at all. */
module BestRows {
  import opened Common
  import opened StableSort
  import opened EvidenceMerge
  import opened MergeLaws
  import opened MergeOrder

  // ----- best rows come first -----

  function Best(): Evidence -> bool {
    (e: Evidence) => e.score == 1.0
  }

  ghost predicate NonNegative(batches: seq<Batch>) {
    forall b, e :: b in batches && e in b ==> e.score >= 0.0
  }

  lemma ShareAtMostOne(b: Batch, e: Evidence)
    requires e in b && forall x :: x in b ==> x.score >= 0.0
    ensures e.score / Top(b) <= 1.0
    ensures MaxScore(b) > 0.0 ==> (e.score / Top(b) == 1.0 <==> e.score == MaxScore(b))
  {
    MaxScoreIsMax(b);
    var best :| best in b && best.score == MaxScore(b);
    QuotientAtMostOne(e.score, Top(b));
  }

  lemma QuotientAtMostOne(a: real, t: real)
    requires t > 0.0 && 0.0 <= a <= t
    ensures a / t <= 1.0 && (a / t == 1.0 <==> a == t)
  {
    if a == t {
      SelfQuotient(t);
    } else {
      ProperQuotient(a, t);
    }
  }

  lemma SelfQuotient(t: real)
    requires t > 0.0
    ensures t / t == 1.0
  {
  }

  lemma ProperQuotient(a: real, t: real)
    requires t > 0.0 && a < t
    ensures a / t < 1.0
  {
    var x := a / t;
    assert x * t == a;
    assert x >= 1.0 ==> (x - 1.0) * t >= 0.0;
  }

  lemma {:induction false} UnionAtMostOne(batches: seq<Batch>, seen: set<string>)
    requires NonNegative(batches)
    ensures forall e :: e in Union(batches, seen) ==> e.score <= 1.0
  {
    if batches != [] {
      var b := batches[0];
      var kept := FirstWins(b, seen);
      UnionAtMostOne(batches[1..], seen + KeySet(b));
      FirstWinsSubset(b, seen);
      forall e | e in Shares(kept, Top(b)) ensures e.score <= 1.0 {
        var i :| 0 <= i < |kept| && Shares(kept, Top(b))[i] == e;
        assert kept[i] in b;
        ShareAtMostOne(b, kept[i]);
      }
    }
  }

  lemma {:induction false} BestArePrefix(s: Batch)
    requires Ascending(s, Descending) && forall e :: e in s ==> e.score <= 1.0
    ensures Filter(s, Best()) <= s
  {
    if s != [] {
      if s[0].score == 1.0 {
        BestArePrefix(s[1..]);
        assert s == [s[0]] + s[1..];
      } else {
        forall e | e in s ensures !Best()(e) {
          var i :| 0 <= i < |s| && s[i] == e;
          assert Descending(s[0]) <= Descending(s[i]);
        }
        FilterNone(s, Best());
      }
    }
  }

  /** The rows that are best in their workspace open the ranking, in union order. */
  lemma BestRowsComeFirst(batches: seq<Batch>)
    requires NonNegative(batches)
    ensures Filter(Union(batches, {}), Best()) <= Ranked(batches)
  {
    var u := Union(batches, {});
    UnionAtMostOne(batches, {});
    SortIsStable(u, Descending);
    forall e | e in Ranked(batches) ensures e.score <= 1.0 {
      assert e in multiset(u);
    }
    BestArePrefix(Ranked(batches));
    BestIsKey(u);
    BestIsKey(Ranked(batches));
    assert Filter(Ranked(batches), HasKey(Descending, -1.0)) == Filter(u, HasKey(Descending, -1.0));
  }

  lemma {:induction false} BestIsKey(s: Batch)
    ensures Filter(s, HasKey(Descending, -1.0)) == Filter(s, Best())
  {
    if s != [] {
      assert HasKey(Descending, -1.0)(s[0]) == (Descending(s[0]) == -1.0);
      BestIsKey(s[1..]);
    }
  }

  lemma KeysDistinctInUnion(batches: seq<Batch>)
    ensures NoDup(Union(batches, {}))
  {
    var u, f := Union(batches, {}), FirstWins(Flatten(batches), {});
    UnionIsFirstWins(batches, {});
    FirstWinsExact(Flatten(batches), {});
    forall i, j | 0 <= i < j < |u| ensures u[i] != u[j] {
      assert Unscored(u)[i] == Unscored(f)[i] && Unscored(u)[j] == Unscored(f)[j];
      assert Key(u[i]) == Key(f[i]) && Key(u[j]) == Key(f[j]);
    }
  }

  /** Every workspace's best rows survive the cut if and only if there are at most as many
      of them as rows returned. */
  lemma BestRowsSurvive(batches: seq<Batch>, topK: int)
    requires NonNegative(batches)
    ensures var best := Filter(Union(batches, {}), Best());
            (forall e :: e in best ==> e in Merged(batches, topK)) <==> |best| <= |Merged(batches, topK)|
    ensures topK >= 0 ==>
              (|Filter(Union(batches, {}), Best())| <= |Merged(batches, topK)| <==> |Filter(Union(batches, {}), Best())| <= topK)
  {
    SortIsStable(Union(batches, {}), Descending);
    var best, ranked, merged := Filter(Union(batches, {}), Best()), Ranked(batches), Merged(batches, topK);
    BestRowsComeFirst(batches);
    KeysDistinctInUnion(batches);
    FilterNoDup(Union(batches, {}), Best());
    assert merged == ranked[..|merged|];
    if |best| <= |merged| {
      assert best <= merged;
    } else {
      assert merged == best[..|merged|];
      assert best[|merged|] in best && best[|merged|] !in merged;
    }
  }

  /** One row, and only one, attains the best score, and that score is positive. */
  predicate HasUniqueBest(b: Batch) {
    b != [] && MaxScore(b) > 0.0 && |Filter(b, HasKey(Descending, -MaxScore(b)))| == 1
  }

  ghost predicate KeysDistinct(b: Batch) {
    forall i, j :: 0 <= i < j < |b| ==> Key(b[i]) != Key(b[j])
  }

  lemma {:induction false} DistinctAllFirst(b: Batch, seen: set<string>)
    requires KeysDistinct(b) && KeySet(b) !! seen
    ensures FirstWins(b, seen) == b
  {
    if b != [] {
      assert Key(b[0]) in KeySet(b);
      forall e | e in b[1..] ensures Key(e) != Key(b[0]) && Key(e) in KeySet(b) {
        var i :| 0 <= i < |b| - 1 && b[1..][i] == e;
        assert Key(b[0]) != Key(b[i + 1]) && b[i + 1] in b;
      }
      DistinctAllFirst(b[1..], seen + {Key(b[0])});
    }
  }

  lemma {:induction false} BestOfShares(b: Batch, s: Batch)
    requires b != [] && MaxScore(b) > 0.0 && (forall x :: x in b ==> x.score >= 0.0) && forall e :: e in s ==> e in b
    ensures |Filter(Shares(s, Top(b)), Best())| == |Filter(s, HasKey(Descending, -MaxScore(b)))|
  {
    if s != [] {
      BestOfShares(b, s[1..]);
      assert s[0] in b;
      ShareAtMostOne(b, s[0]);
      assert HasKey(Descending, -MaxScore(b))(s[0]) == (Descending(s[0]) == -MaxScore(b));
      assert Shares(s, Top(b))[1..] == Shares(s[1..], Top(b));
    }
  }

  function NonEmpty(batches: seq<Batch>): nat {
    if batches == [] then 0 else (if batches[0] == [] then 0 else 1) + NonEmpty(batches[1..])
  }

  lemma OneBest(b: Batch)
    requires HasUniqueBest(b) && KeysDistinct(b) && forall e :: e in b ==> e.score >= 0.0
    ensures |Filter(OwnShares(b), Best())| == 1
  {
    DistinctAllFirst(b, {});
    BestOfShares(b, b);
  }

  lemma {:induction false} OneBestEach(batches: seq<Batch>)
    requires NonNegative(batches)
    requires forall b :: b in batches && b != [] ==> HasUniqueBest(b) && KeysDistinct(b)
    ensures |Filter(Pooled(batches), Best())| == NonEmpty(batches)
  {
    if batches != [] {
      OneBestEach(batches[1..]);
      FilterAppend(OwnShares(batches[0]), Pooled(batches[1..]), Best());
      if batches[0] != [] {
        OneBest(batches[0]);
      }
    }
  }

  /** When every answering workspace has one best row, `topK` rows are enough for all of
      them exactly when `topK` is at least the number of answering workspaces. */
  lemma EveryWorkspaceSurvives(batches: seq<Batch>, topK: nat)
    requires NonNegative(batches) && Apart(batches)
    requires forall b :: b in batches && b != [] ==> HasUniqueBest(b) && KeysDistinct(b)
    ensures (forall e :: e in Union(batches, {}) && e.score == 1.0 ==> e in Merged(batches, topK))
            <==> NonEmpty(batches) <= topK
  {
    var u := Union(batches, {});
    UnionIsPooled(batches, {});
    OneBestEach(batches);
    BestRowsSurvive(batches, topK);
    FilterMembers(u, Best());
    SortIsStable(u, Descending);
    assert |Filter(u, Best())| <= |u|;
  }

  // ----- which workspaces appear -----

  function Above(v: real): Evidence -> bool {
    (e: Evidence) => e.score > v
  }

  function Level(v: real): Evidence -> bool {
    HasKey(Descending, -v)
  }

  lemma {:induction false} PooledAppend(a: seq<Batch>, b: seq<Batch>)
    ensures Pooled(a + b) == Pooled(a) + Pooled(b)
  {
    if a == [] {
      assert a + b == b;
    } else {
      assert (a + b)[1..] == a[1..] + b;
      PooledAppend(a[1..], b);
    }
  }

  lemma PooledHead(batches: seq<Batch>)
    requires batches != []
    ensures Pooled(batches) == OwnShares(batches[0]) + Pooled(batches[1..])
  {
  }

  lemma SplitAt(batches: seq<Batch>, i: nat)
    requires i < |batches|
    ensures batches == batches[..i] + batches[i..]
    ensures batches[i..] != [] && batches[i..][0] == batches[i] && batches[i..][1..] == batches[i + 1..]
  {
  }

  lemma PooledAround(batches: seq<Batch>, i: nat)
    requires i < |batches|
    ensures Pooled(batches) == Pooled(batches[..i]) + OwnShares(batches[i]) + Pooled(batches[i + 1..])
  {
    SplitAt(batches, i);
    PooledAppend(batches[..i], batches[i..]);
    PooledHead(batches[i..]);
    Associate(Pooled(batches[..i]), OwnShares(batches[i]), Pooled(batches[i + 1..]));
  }

  /** The rows around those of workspace `i` carry other labels. */
  lemma LabelsAround(batches: seq<Batch>, names: seq<string>, i: nat)
    requires Labelled(batches, names) && i < |batches|
    ensures forall e :: e in OwnShares(batches[i]) ==> e.workspace == names[i]
    ensures forall e :: e in Pooled(batches[..i]) || e in Pooled(batches[i + 1..]) ==> e.workspace != names[i]
  {
    OwnLabels(batches[i], names[i]);
    PooledOfOne(batches[..i], names[..i], names[i]);
    FilterMembers(Pooled(batches[..i]), From(names[i]));
    var rest := batches[i + 1..];
    forall j: nat, e: Evidence | j < |rest| && e in rest[j] ensures e.workspace == names[i + 1..][j] {
      assert e in batches[i + 1 + j];
    }
    PooledOfOne(rest, names[i + 1..], names[i]);
    FilterMembers(Pooled(rest), From(names[i]));
  }

  /** A ranking opens with what lies above any score, followed by what lies level with it. */
  lemma {:induction false} RankingOpens(s: Batch, v: real)
    requires Ascending(s, Descending)
    ensures Filter(s, Above(v)) + Filter(s, Level(v)) <= s
  {
    if s != [] {
      assert Level(v)(s[0]) == (Descending(s[0]) == -v);
      RankingOpens(s[1..], v);
      assert s == [s[0]] + s[1..];
      if s[0].score <= v {
        forall e | e in s ensures !Above(v)(e) && (s[0].score < v ==> !Level(v)(e)) {
          var k :| 0 <= k < |s| && s[k] == e;
          assert Descending(s[0]) <= Descending(s[k]);
        }
        FilterNone(s, Above(v));
        FilterNone(s[1..], Above(v));
        if s[0].score < v {
          FilterNone(s, Level(v));
        }
      }
    }
  }

  lemma SomethingKept(b: Batch)
    requires b != []
    ensures OwnShares(b) != []
  {
  }

  /** How many rows of `u` are ranked before the first of `own`: those that beat its best,
      and those of `front` that equal it. */
  function Ahead(u: Batch, front: Batch, own: Batch): nat
    requires own != []
  {
    |Filter(u, Above(MaxScore(own)))| + |Filter(front, Level(MaxScore(own)))|
  }

  /** How many rows are ranked before the first row of workspace `i`: those that beat its
      best share, and those of earlier workspaces that equal it. */
  function RowsBefore(batches: seq<Batch>, i: nat): nat
    requires i < |batches| && batches[i] != []
  {
    SomethingKept(batches[i]);
    Ahead(Union(batches, {}), Pooled(batches[..i]), OwnShares(batches[i]))
  }

  /** The first row with label `name` stands at `k`. */
  ghost predicate FirstOf(ranked: Batch, k: nat, name: string) {
    k < |ranked| && ranked[k].workspace == name && forall j :: 0 <= j < k ==> ranked[j].workspace != name
  }

  /** The top of the ranking of `front + own + back`, seen from a score `v`. */
  lemma RankedAround(front: Batch, own: Batch, back: Batch, v: real)
    ensures var u, ranked := front + own + back, Sort(front + own + back, Descending);
            && |Filter(ranked, Above(v))| == |Filter(u, Above(v))| && multiset(ranked) == multiset(u)
            && (Filter(ranked, Above(v)) + Filter(front, Level(v))) + Filter(own, Level(v)) <= ranked
  {
    var u, ranked := front + own + back, Sort(front + own + back, Descending);
    SortIsStable(u, Descending);
    FilterPermutation(ranked, u, Above(v));
    assert |multiset(Filter(ranked, Above(v)))| == |multiset(Filter(u, Above(v)))|;
    RankingOpens(ranked, v);
    FilterAppend(front + own, back, Level(v));
    FilterAppend(front, own, Level(v));
    assert Filter(ranked, Level(v)) == Filter(u, Level(v));
    OpensWith(ranked, Filter(ranked, Above(v)), Filter(front, Level(v)), Filter(own, Level(v)), Filter(back, Level(v)));
  }

  lemma OpensWith(s: Batch, a: Batch, b: Batch, c: Batch, d: Batch)
    requires a + (b + c + d) <= s
    ensures (a + b) + c <= s
  {
    assert a + (b + c + d) == ((a + b) + c) + d;
  }

  lemma BestIsLevel(own: Batch)
    requires own != []
    ensures Filter(own, Level(MaxScore(own))) != []
  {
    MaxScoreIsMax(own);
    FilterMembers(own, Level(MaxScore(own)));
    var best :| best in own && best.score == MaxScore(own);
    assert Level(MaxScore(own))(best) == (Descending(best) == -MaxScore(own));
    assert best in Filter(own, Level(MaxScore(own)));
  }

  lemma FirstLabelled(s: Batch, before: Batch, level: Batch, name: string)
    requires before + level <= s && level != []
    requires (forall e :: e in before ==> e.workspace != name) && forall e :: e in level ==> e.workspace == name
    ensures FirstOf(s, |before|, name)
  {
    var opening := before + level;
    assert opening[|before|] == level[0] && level[0] in level;
    forall j | 0 <= j < |before| ensures s[j].workspace != name {
      assert s[j] == opening[j] == before[j];
    }
  }

  /** Rows above the best of `own` are not among `own`. */
  lemma BetterAreOthers(front: Batch, own: Batch, back: Batch, ranked: Batch, name: string)
    requires own != [] && multiset(ranked) == multiset(front + own + back)
    requires forall e :: e in front || e in back ==> e.workspace != name
    ensures forall e :: e in Filter(ranked, Above(MaxScore(own))) ==> e.workspace != name
  {
    MaxScoreIsMax(own);
    FilterMembers(ranked, Above(MaxScore(own)));
    forall e | e in Filter(ranked, Above(MaxScore(own))) ensures e.workspace != name {
      assert e in multiset(ranked);
      assert e in front + own + back;
    }
  }

  /** Where the first row labelled `name` stands, when `own` are the rows with that label. */
  lemma FirstRowOf(u: Batch, front: Batch, own: Batch, back: Batch, name: string)
    requires u == front + own + back && own != [] && (forall e :: e in own ==> e.workspace == name)
    requires forall e :: e in front || e in back ==> e.workspace != name
    ensures FirstOf(Sort(u, Descending), Ahead(u, front, own), name)
  {
    var v, ranked := MaxScore(own), Sort(u, Descending);
    RankedAround(front, own, back, v);
    BetterAreOthers(front, own, back, ranked, name);
    BestIsLevel(own);
    FilterMembers(own, Level(v));
    FilterMembers(front, Level(v));
    FirstLabelled(ranked, Filter(ranked, Above(v)) + Filter(front, Level(v)), Filter(own, Level(v)), name);
  }

  lemma UnionAround(batches: seq<Batch>, i: nat)
    requires Apart(batches) && i < |batches|
    ensures Union(batches, {}) == Pooled(batches[..i]) + OwnShares(batches[i]) + Pooled(batches[i + 1..])
    ensures |Ranked(batches)| == |Union(batches, {})|
  {
    UnionIsPooled(batches, {});
    PooledAround(batches, i);
    SortIsStable(Union(batches, {}), Descending);
  }

  lemma FirstOwnRow(batches: seq<Batch>, names: seq<string>, i: nat)
    requires Labelled(batches, names) && Apart(batches) && i < |batches| && batches[i] != []
    ensures FirstOf(Ranked(batches), RowsBefore(batches, i), names[i]) && |Ranked(batches)| == |Union(batches, {})|
  {
    SomethingKept(batches[i]);
    LabelsAround(batches, names, i);
    UnionAround(batches, i);
    FirstRowOf(Union(batches, {}), Pooled(batches[..i]), OwnShares(batches[i]), Pooled(batches[i + 1..]), names[i]);
  }

  ghost predicate Appears(r: Batch, name: string) {
    exists e :: e in r && e.workspace == name
  }

  /** A workspace appears in the merged list if and only if the cut is longer than the rows
      that come before its best one. Scores may be of any sign and keys may repeat. */
  lemma WorkspaceAppearsIff(batches: seq<Batch>, names: seq<string>, i: nat, topK: int)
    requires Labelled(batches, names) && Apart(batches) && i < |batches| && batches[i] != []
    ensures Appears(Merged(batches, topK), names[i]) <==> RowsBefore(batches, i) < |Merged(batches, topK)|
    ensures topK >= 0 ==> (RowsBefore(batches, i) < |Merged(batches, topK)| <==> RowsBefore(batches, i) < topK)
  {
    FirstOwnRow(batches, names, i);
    var n, k := |Merged(batches, topK)|, RowsBefore(batches, i);
    assert Merged(batches, topK) == Ranked(batches)[..n];
    if k < n {
      assert Merged(batches, topK)[k] in Merged(batches, topK);
    }
  }

  /** A batch whose own normalised best is one: a positive best score, keys not repeated. */
  ghost predicate Comparable(b: Batch) {
    b != [] && MaxScore(b) > 0.0 && KeysDistinct(b)
  }

  lemma SharesReachOne(b: Batch, s: Batch)
    requires b != [] && MaxScore(b) > 0.0 && (forall e :: e in b ==> e.score >= 0.0) && s == Shares(b, Top(b))
    ensures (forall e :: e in s ==> e.score <= 1.0) && exists e :: e in s && e.score == 1.0
  {
    forall e | e in s ensures e.score <= 1.0 {
      var k :| 0 <= k < |s| && s[k] == e;
      assert b[k] in b;
      ShareAtMostOne(b, b[k]);
    }
    MaxScoreIsMax(b);
    var best :| best in b && best.score == MaxScore(b);
    var k :| 0 <= k < |b| && b[k] == best;
    ShareAtMostOne(b, best);
    assert s[k].score == 1.0 && s[k] in s;
  }

  lemma OwnBestIsOne(b: Batch)
    requires Comparable(b) && forall e :: e in b ==> e.score >= 0.0
    ensures OwnShares(b) != [] && MaxScore(OwnShares(b)) == 1.0
  {
    DistinctAllFirst(b, {});
    SharesReachOne(b, OwnShares(b));
    MaxScoreIsMax(OwnShares(b));
  }

  lemma BestShareIsOne(batches: seq<Batch>, i: nat)
    requires NonNegative(batches) && i < |batches| && Comparable(batches[i])
    ensures RowsBefore(batches, i) == |Filter(Pooled(batches[..i]), Best())|
  {
    UnionAtMostOne(batches, {});
    assert batches[i] in batches;
    OwnBestIsOne(batches[i]);
    FilterNone(Union(batches, {}), Above(1.0));
    BestIsKey(Pooled(batches[..i]));
  }

  /** For scores that are not negative the condition is one a caller can check on the
      batches: the best rows of the workspaces before it leave room. */
  lemma BestRowsBeforeLeaveRoom(batches: seq<Batch>, names: seq<string>, i: nat, topK: nat)
    requires Labelled(batches, names) && Apart(batches) && NonNegative(batches)
    requires i < |batches| && Comparable(batches[i])
    ensures Appears(Merged(batches, topK), names[i]) <==> |Filter(Pooled(batches[..i]), Best())| < topK
  {
    WorkspaceAppearsIff(batches, names, i, topK);
    FirstOwnRow(batches, names, i);
    BestShareIsOne(batches, i);
  }

  /** Every answering workspace appears if and only if the best rows of all but the last of
      them are fewer than `topK`. */
  lemma EveryWorkspaceAppearsIff(batches: seq<Batch>, names: seq<string>, last: nat, topK: nat)
    requires Labelled(batches, names) && Apart(batches) && NonNegative(batches)
    requires forall b :: b in batches && b != [] ==> Comparable(b)
    requires last < |batches| && batches[last] != [] && forall j :: last < j < |batches| ==> batches[j] == []
    ensures (forall i :: 0 <= i < |batches| && batches[i] != [] ==> Appears(Merged(batches, topK), names[i]))
            <==> |Filter(Pooled(batches[..last]), Best())| < topK
  {
    BestRowsBeforeLeaveRoom(batches, names, last, topK);
    forall i | 0 <= i < last && batches[i] != [] && |Filter(Pooled(batches[..last]), Best())| < topK
      ensures Appears(Merged(batches, topK), names[i])
    {
      assert batches[..last] == batches[..i] + batches[i..last];
      PooledAppend(batches[..i], batches[i..last]);
      FilterAppend(Pooled(batches[..i]), Pooled(batches[i..last]), Best());
      BestRowsBeforeLeaveRoom(batches, names, i, topK);
    }
  }

  /** Ties matter: two rows tied for best in one workspace push the only row
      of another workspace out of a cut of two, whatever that row's score. */
  lemma TiesDrownAWorkspace(a1: Evidence, a2: Evidence, b1: Evidence)
    requires Key(a1) != Key(a2) && Key(b1) != Key(a1) && Key(b1) != Key(a2)
    requires a1.score == a2.score > 0.0 && b1.score > 0.0
    ensures Merged([[a1, a2], [b1]], 2) == [a1.(score := 1.0), a2.(score := 1.0)]
  {
    var a, b := [a1, a2], [b1];
    var x, y, z := a1.(score := 1.0), a2.(score := 1.0), b1.(score := 1.0);
    TiedShares(a1, a2, b1);
    TwoBatches(a, b);
    assert Union([a, b], {}) == [x, y, z];
    SortedStays([x, y, z], Descending);
  }

  lemma TiedShares(a1: Evidence, a2: Evidence, b1: Evidence)
    requires Key(a1) != Key(a2) && Key(b1) != Key(a1) && Key(b1) != Key(a2)
    requires a1.score == a2.score > 0.0 && b1.score > 0.0
    ensures Shares(FirstWins([a1, a2], {}), Top([a1, a2])) == [a1.(score := 1.0), a2.(score := 1.0)]
    ensures Shares(FirstWins([b1], KeySet([a1, a2])), Top([b1])) == [b1.(score := 1.0)]
  {
    DistinctAllFirst([a1, a2], {});
    DistinctAllFirst([b1], KeySet([a1, a2]));
    assert [a1, a2][1..] == [a2] && MaxScore([a2]) == a2.score;
    assert MaxScore([a1, a2]) == a1.score && MaxScore([b1]) == b1.score;
    QuotientAtMostOne(a1.score, a1.score);
    QuotientAtMostOne(b1.score, b1.score);
  }

  lemma TwoBatches(a: Batch, b: Batch)
    ensures Union([a, b], {}) == Shares(FirstWins(a, {}), Top(a)) + Shares(FirstWins(b, KeySet(a)), Top(b))
  {
    assert [a, b][1..] == [b] && {} + KeySet(a) == KeySet(a);
    assert Union([b], KeySet(a)) == Shares(FirstWins(b, KeySet(a)), Top(b)) + [];
  }
}
