/** Merging does not depend on the order in which workspaces answer, and ranks each
    workspace's rows as that workspace would. */
module MergeOrder {
  import opened Common
  import opened StableSort
  import opened EvidenceMerge
  import opened MergeLaws

  // ----- permuting the batches -----

  /** No key occurs in two batches. */
  ghost predicate Apart(batches: seq<Batch>) {
    var m := multiset(batches);
    forall b, b' :: b in m && b' in m && (b != b' || m[b] >= 2) ==> KeySet(b) !! KeySet(b')
  }

  /** The rows one batch contributes when no other batch shares its keys. */
  function OwnShares(b: Batch): Batch {
    Shares(FirstWins(b, {}), Top(b))
  }

  function Pooled(batches: seq<Batch>): Batch {
    if batches == [] then [] else OwnShares(batches[0]) + Pooled(batches[1..])
  }

  lemma {:induction false} FirstWinsUnaffected(batch: Batch, seen: set<string>, others: set<string>)
    requires KeySet(batch) !! others
    ensures FirstWins(batch, seen + others) == FirstWins(batch, seen)
  {
    if batch != [] {
      var k := Key(batch[0]);
      assert batch[0] in batch && k in KeySet(batch);
      assert KeySet(batch[1..]) <= KeySet(batch);
      assert (seen + others) + {k} == (seen + {k}) + others;
      FirstWinsUnaffected(batch[1..], seen, others);
      FirstWinsUnaffected(batch[1..], seen + {k}, others);
    }
  }

  lemma ApartTail(batches: seq<Batch>)
    requires batches != [] && Apart(batches)
    ensures Apart(batches[1..])
    ensures forall b :: b in batches[1..] ==> KeySet(b) !! KeySet(batches[0])
  {
    var m, rest := multiset(batches), multiset(batches[1..]);
    assert batches == [batches[0]] + batches[1..];
    assert m == rest + multiset{batches[0]};
    forall b | b in batches[1..] ensures KeySet(b) !! KeySet(batches[0]) {
      assert b in rest && b in m && batches[0] in m;
    }
  }

  lemma {:induction false} UnionIsPooled(batches: seq<Batch>, seen: set<string>)
    requires Apart(batches) && forall b :: b in batches ==> KeySet(b) !! seen
    ensures Union(batches, seen) == Pooled(batches)
  {
    if batches != [] {
      ApartTail(batches);
      assert {} + seen == seen;
      FirstWinsUnaffected(batches[0], {}, seen);
      UnionIsPooled(batches[1..], seen + KeySet(batches[0]));
    }
  }

  lemma {:induction false} PooledWithout(batches: seq<Batch>, b: Batch)
    requires b in batches
    ensures multiset(Pooled(batches)) == multiset(Pooled(RemoveFirst(batches, b))) + multiset(OwnShares(b))
  {
    if batches[0] != b {
      PooledWithout(batches[1..], b);
      assert RemoveFirst(batches, b)[1..] == RemoveFirst(batches[1..], b);
    }
  }

  lemma {:induction false} PooledPermutation(a: seq<Batch>, b: seq<Batch>)
    requires multiset(a) == multiset(b)
    ensures multiset(Pooled(a)) == multiset(Pooled(b))
  {
    if a == [] {
      PermutationEmpty(b);
    } else {
      PermutationStep(a, b);
      PooledPermutation(a[1..], RemoveFirst(b, a[0]));
      PooledWithout(b, a[0]);
    }
  }

  function AtLeast(v: real): Evidence -> bool {
    (e: Evidence) => e.score >= v
  }

  lemma {:induction false} FilterPermutation(a: Batch, b: Batch, p: Evidence -> bool)
    requires multiset(a) == multiset(b)
    ensures multiset(Filter(a, p)) == multiset(Filter(b, p))
  {
    if a == [] {
      PermutationEmpty(b);
    } else {
      PermutationStep(a, b);
      FilterPermutation(a[1..], RemoveFirst(b, a[0]), p);
      FilterWithout(b, a[0], p);
    }
  }

  lemma {:induction false} FilterWithout(b: Batch, e: Evidence, p: Evidence -> bool)
    requires e in b
    ensures multiset(Filter(b, p))
            == multiset(Filter(RemoveFirst(b, e), p)) + (if p(e) then multiset{e} else multiset{})
  {
    if b[0] != e {
      FilterWithout(b[1..], e, p);
      assert RemoveFirst(b, e)[1..] == RemoveFirst(b[1..], e);
    }
  }

  ghost predicate NoTieAt(s: Batch, n: nat) {
    0 < n < |s| ==> s[n - 1].score != s[n].score
  }

  lemma CutSeparates(s: Batch, n: nat)
    requires Ascending(s, Descending) && 0 < n <= |s| && NoTieAt(s, n)
    ensures forall e :: e in s[..n] ==> e.score >= s[n - 1].score
    ensures forall e :: e in s[n..] ==> e.score < s[n - 1].score
  {
    forall e | e in s[..n] ensures e.score >= s[n - 1].score {
      var i :| 0 <= i < n && s[i] == e;
      assert Descending(s[i]) <= Descending(s[n - 1]);
    }
    forall e | e in s[n..] ensures e.score < s[n - 1].score {
      var i :| n <= i < |s| && s[i] == e;
      assert Descending(s[n - 1]) <= Descending(s[n]) <= Descending(s[i]);
    }
  }

  lemma PrefixIsFilter(s: Batch, n: nat)
    requires Ascending(s, Descending) && 0 < n <= |s| && NoTieAt(s, n)
    ensures s[..n] == Filter(s, AtLeast(s[n - 1].score))
  {
    CutSeparates(s, n);
    SplitFilter(s[..n], s[n..], AtLeast(s[n - 1].score));
    assert s == s[..n] + s[n..];
  }

  lemma SplitFilter(a: Batch, b: Batch, p: Evidence -> bool)
    requires (forall e :: e in a ==> p(e)) && forall e :: e in b ==> !p(e)
    ensures Filter(a + b, p) == a
  {
    FilterKeepsAll(a, p);
    FilterNone(b, p);
    FilterAppend(a, b, p);
  }

  lemma UnionsAgree(a: seq<Batch>, b: seq<Batch>)
    requires Apart(a) && multiset(a) == multiset(b)
    ensures multiset(Union(a, {})) == multiset(Union(b, {}))
  {
    UnionIsPooled(a, {});
    UnionIsPooled(b, {});
    PooledPermutation(a, b);
  }

  lemma RankingsAgree(a: seq<Batch>, b: seq<Batch>)
    requires Apart(a) && multiset(a) == multiset(b)
    ensures |Ranked(a)| == |Ranked(b)| && multiset(Ranked(a)) == multiset(Ranked(b))
    ensures forall i :: 0 <= i < |Ranked(a)| ==> Ranked(a)[i].score == Ranked(b)[i].score
    ensures Ascending(Ranked(a), Descending) && Ascending(Ranked(b), Descending)
  {
    UnionsAgree(a, b);
    SortedKeysIgnoreOrder(Union(a, {}), Union(b, {}), Descending);
    SortIsStable(Union(a, {}), Descending);
    SortIsStable(Union(b, {}), Descending);
    forall i | 0 <= i < |Ranked(a)| ensures Ranked(a)[i].score == Ranked(b)[i].score {
      assert Descending(Ranked(a)[i]) == Descending(Ranked(b)[i]);
    }
  }

  lemma SameCut(ra: Batch, rb: Batch, n: nat)
    requires |ra| == |rb| && multiset(ra) == multiset(rb) && n <= |ra|
    requires forall i :: 0 <= i < |ra| ==> ra[i].score == rb[i].score
    requires Ascending(ra, Descending) && Ascending(rb, Descending) && NoTieAt(ra, n)
    ensures multiset(ra[..n]) == multiset(rb[..n])
  {
    if n > 0 {
      PrefixIsFilter(ra, n);
      PrefixIsFilter(rb, n);
      FilterPermutation(ra, rb, AtLeast(ra[n - 1].score));
    }
  }

  /** Permuting the batches never changes the normalised scores that are returned, and
      without a tie at the cut it returns the same rows. */
  lemma OrderIndependence(a: seq<Batch>, b: seq<Batch>, topK: int)
    requires Apart(a) && multiset(a) == multiset(b)
    ensures |Merged(a, topK)| == |Merged(b, topK)|
    ensures forall i :: 0 <= i < |Merged(a, topK)| ==> Merged(a, topK)[i].score == Merged(b, topK)[i].score
    ensures NoTieAt(Ranked(a), |Merged(a, topK)|) ==> multiset(Merged(a, topK)) == multiset(Merged(b, topK))
  {
    RankingsAgree(a, b);
    var n := |Merged(a, topK)|;
    assert Merged(a, topK) == Ranked(a)[..n] && Merged(b, topK) == Ranked(b)[..n];
    if NoTieAt(Ranked(a), n) {
      SameCut(Ranked(a), Ranked(b), n);
    }
  }

  // ----- the rows of one workspace -----

  function From(workspace: string): Evidence -> bool {
    (e: Evidence) => e.workspace == workspace
  }

  /** Batch `i` holds rows of workspace `names[i]` only, and the names are distinct. */
  ghost predicate Labelled(batches: seq<Batch>, names: seq<string>) {
    && |names| == |batches| && NoDup(names)
    && forall i, e :: 0 <= i < |batches| && e in batches[i] ==> e.workspace == names[i]
  }

  lemma OwnLabels(b: Batch, name: string)
    requires forall e :: e in b ==> e.workspace == name
    ensures forall e :: e in OwnShares(b) ==> e.workspace == name
  {
    FirstWinsSubset(b, {});
    var kept := FirstWins(b, {});
    forall e | e in OwnShares(b) ensures e.workspace == name {
      var i :| 0 <= i < |OwnShares(b)| && OwnShares(b)[i] == e;
      assert kept[i] in b;
    }
  }

  lemma {:induction false} PooledOfOne(batches: seq<Batch>, names: seq<string>, name: string)
    requires Labelled(batches, names)
    ensures Filter(Pooled(batches), From(name))
            == if name in names then OwnShares(batches[IndexIn(names, name)]) else []
  {
    if batches != [] {
      var rest, others := batches[1..], names[1..];
      forall i: nat, e: Evidence | i < |rest| && e in rest[i] ensures e.workspace == others[i] {
        assert e in batches[i + 1];
      }
      PooledOfOne(rest, others, name);
      OwnLabels(batches[0], names[0]);
      FilterAppend(OwnShares(batches[0]), Pooled(rest), From(name));
      if names[0] == name {
        FilterKeepsAll(OwnShares(batches[0]), From(name));
      } else {
        FilterNone(OwnShares(batches[0]), From(name));
      }
    }
  }

  function IndexIn(names: seq<string>, name: string): (i: nat)
    requires name in names
    ensures i < |names| && names[i] == name
  {
    if names[0] == name then 0 else 1 + IndexIn(names[1..], name)
  }

  /** The rows kept from a workspace are the first of that workspace's own ranking. */
  lemma KeptRowsAreOwnBest(batches: seq<Batch>, names: seq<string>, i: nat, topK: int)
    requires Labelled(batches, names) && Apart(batches) && i < |batches|
    ensures Filter(Merged(batches, topK), From(names[i])) <= Sort(OwnShares(batches[i]), Descending)
  {
    OwnPart(batches, names, i);
    var n := |Merged(batches, topK)|;
    assert Merged(batches, topK) == Ranked(batches)[..n];
    FilterPrefix(Ranked(batches), n, From(names[i]));
  }

  lemma OwnPart(batches: seq<Batch>, names: seq<string>, i: nat)
    requires Labelled(batches, names) && Apart(batches) && i < |batches|
    ensures Filter(Ranked(batches), From(names[i])) == Sort(OwnShares(batches[i]), Descending)
  {
    UnionIsPooled(batches, {});
    PooledOfOne(batches, names, names[i]);
    assert IndexIn(names, names[i]) == i;
    SortOfFilter(Union(batches, {}), From(names[i]), Descending);
  }

  /** Normalising by a positive best score does not change a workspace's ranking. */
  lemma OwnRankingIsRaw(b: Batch)
    requires Top(b) > 0.0
    ensures Sort(OwnShares(b), Descending) == Shares(Sort(FirstWins(b, {}), Descending), Top(b))
  {
    SortOfShares(FirstWins(b, {}), Top(b));
  }

  lemma {:induction false} SortOfShares(s: Batch, top: real)
    requires top > 0.0
    ensures Sort(Shares(s, top), Descending) == Shares(Sort(s, Descending), top)
  {
    if s != [] {
      SortOfShares(s[1..], top);
      assert Shares(s, top)[1..] == Shares(s[1..], top);
      InsertShare(s[0], Sort(s[1..], Descending), top);
    }
  }

  lemma {:induction false} InsertShare(e: Evidence, s: Batch, top: real)
    requires top > 0.0
    ensures Insert(Share(e, top), Shares(s, top), Descending) == Shares(Insert(e, s, Descending), top)
  {
    if s != [] {
      DivideOrder(e.score, s[0].score, top);
      assert Shares(s, top)[1..] == Shares(s[1..], top);
      InsertShare(e, s[1..], top);
    }
  }

  lemma DivideOrder(a: real, b: real, t: real)
    requires t > 0.0
    ensures a >= b <==> a / t >= b / t
  {
    var x, y := a / t, b / t;
    assert x * t == a && y * t == b;
    if x >= y {
      assert (x - y) * t >= 0.0;
    } else {
      assert (y - x) * t > 0.0;
    }
  }
}
