/** Removing every access entry of one security identifier from an access list: indices
    are collected in ascending order and deleted from the list in descending order. */
module AccessList {
  import opened Common

  datatype Entry = Entry(sid: string, rights: string)

  class Dacl {
    var entries: seq<Entry>

    constructor (entries: seq<Entry>)
      ensures this.entries == entries
    {
      this.entries := entries;
    }

    /** `DeleteAce`: later entries move up by one. */
    method DeleteAce(i: nat)
      requires i < |entries|
      modifies this
      ensures entries == old(entries)[..i] + old(entries)[i + 1..]
    {
      entries := entries[..i] + entries[i + 1..];
    }

    /** Removes the entries of `target`. `GetAce` yields nothing for the indices in
        `unreadable`, and those are passed over. */
    method RemoveSid(target: string, unreadable: set<nat>) returns (deleted: nat)
      modifies this
      ensures entries == Kept(old(entries), target, unreadable)
      ensures deleted == |old(entries)| - |entries|
    {
      var indices: seq<nat> := [];
      for i := 0 to |entries|
        invariant entries == old(entries)
        invariant indices == Matching(entries, target, unreadable, i)
      {
        if i in unreadable {
          continue;
        }
        if entries[i].sid == target {
          indices := indices + [i];
        }
      }
      ghost var original := entries;
      MatchingSorted(original, target, unreadable, |original|);
      deleted := |indices|;
      var n := |indices|;
      while n > 0
        invariant 0 <= n <= |indices|
        invariant entries == Without(original, indices[n..])
        invariant forall k :: 0 <= k < n ==> indices[k] < |entries|
      {
        n := n - 1;
        WithoutStep(original, indices, n);
        DeleteAce(indices[n]);
      }
      assert indices[0..] == indices;
      WithoutMatching(original, target, unreadable, |original|);
      WithoutLength(original, indices);
      assert original[..|original|] == original && original[|original|..] == [];
    }
  }

  predicate Goes(e: Entry, i: nat, target: string, unreadable: set<nat>) {
    i !in unreadable && e.sid == target
  }

  /** The order-preserving selection of the entries that stay. */
  function Kept(entries: seq<Entry>, target: string, unreadable: set<nat>): seq<Entry> {
    if entries == [] then []
    else
      var n := |entries| - 1;
      Kept(entries[..n], target, unreadable) + if Goes(entries[n], n, target, unreadable) then [] else [entries[n]]
  }

  /** The matching indices below `n`, ascending. */
  function Matching(entries: seq<Entry>, target: string, unreadable: set<nat>, n: nat): seq<nat>
    requires n <= |entries|
  {
    if n == 0 then []
    else Matching(entries, target, unreadable, n - 1)
         + if Goes(entries[n - 1], n - 1, target, unreadable) then [n - 1] else []
  }

  ghost predicate Indices(indices: seq<nat>, n: nat) {
    && (forall k :: 0 <= k < |indices| ==> indices[k] < n)
    && (forall i, j :: 0 <= i < j < |indices| ==> indices[i] < indices[j])
  }

  /** The list after deleting at each of `indices`, the last one first. */
  function Without(entries: seq<Entry>, indices: seq<nat>): seq<Entry> {
    if indices == [] then entries
    else
      var rest := Without(entries, indices[1..]);
      if indices[0] < |rest| then rest[..indices[0]] + rest[indices[0] + 1..] else rest
  }

  lemma {:induction false} MatchingSorted(entries: seq<Entry>, target: string, unreadable: set<nat>, n: nat)
    requires n <= |entries|
    ensures Indices(Matching(entries, target, unreadable, n), n)
  {
    if n > 0 {
      MatchingSorted(entries, target, unreadable, n - 1);
    }
  }

  /** Deleting at larger indices leaves the smaller positions as they were. */
  lemma {:induction false} WithoutPrefix(entries: seq<Entry>, indices: seq<nat>, n: nat)
    requires Indices(indices, |entries|) && n <= |entries| && forall k :: 0 <= k < |indices| ==> n <= indices[k]
    ensures |Without(entries, indices)| == |entries| - |indices| >= n
    ensures Without(entries, indices)[..n] == entries[..n]
  {
    if indices != [] {
      WithoutPrefix(entries, indices[1..], indices[0] + 1);
      var rest := Without(entries, indices[1..]);
      assert rest[..n] == rest[..indices[0] + 1][..n] == entries[..n];
    }
  }

  lemma WithoutLength(entries: seq<Entry>, indices: seq<nat>)
    requires Indices(indices, |entries|)
    ensures |Without(entries, indices)| == |entries| - |indices|
  {
    WithoutPrefix(entries, indices, 0);
  }

  lemma WithoutStep(entries: seq<Entry>, indices: seq<nat>, n: nat)
    requires Indices(indices, |entries|) && n < |indices|
    ensures var rest := Without(entries, indices[n + 1..]);
            && indices[n] < |rest|
            && Without(entries, indices[n..]) == rest[..indices[n]] + rest[indices[n] + 1..]
            && forall k :: 0 <= k < n ==> indices[k] < |rest| - 1
  {
    assert indices[n..][1..] == indices[n + 1..];
    WithoutPrefix(entries, indices[n + 1..], indices[n] + 1);
  }

  /** Deleting the matching indices below `n` selects among the first `n` entries only. */
  lemma {:induction false} WithoutMatching(entries: seq<Entry>, target: string, unreadable: set<nat>, n: nat)
    requires n <= |entries|
    ensures Without(entries, Matching(entries, target, unreadable, n))
            == Kept(entries[..n], target, unreadable) + entries[n..]
  {
    if n > 0 {
      var m := Matching(entries, target, unreadable, n - 1);
      var x := n - 1;
      assert entries[..n][..x] == entries[..x] && entries[x..] == [entries[x]] + entries[n..];
      MatchingSorted(entries, target, unreadable, x);
      if Goes(entries[x], x, target, unreadable) {
        var less := entries[..x] + entries[n..];
        WithoutLast(entries, m, x);
        MatchingOfPrefix(entries, less, target, unreadable, x);
        WithoutMatching(less, target, unreadable, x);
        assert less[..x] == entries[..x] && less[x..] == entries[n..];
      } else {
        assert m + [] == m;
        WithoutMatching(entries, target, unreadable, x);
        assert Kept(entries[..x], target, unreadable) + ([entries[x]] + entries[n..])
               == Kept(entries[..x], target, unreadable) + [entries[x]] + entries[n..];
      }
    } else {
      assert entries[..0] == [] && entries[0..] == entries;
    }
  }

  lemma {:induction false} MatchingOfPrefix(a: seq<Entry>, b: seq<Entry>, target: string, unreadable: set<nat>, n: nat)
    requires n <= |a| && n <= |b| && a[..n] == b[..n]
    ensures Matching(a, target, unreadable, n) == Matching(b, target, unreadable, n)
  {
    if n > 0 {
      assert a[n - 1] == a[..n][n - 1] == b[..n][n - 1] == b[n - 1];
      assert a[..n - 1] == a[..n][..n - 1] && b[..n - 1] == b[..n][..n - 1];
      MatchingOfPrefix(a, b, target, unreadable, n - 1);
    }
  }

  /** The largest index is deleted first. */
  lemma {:induction false} WithoutLast(entries: seq<Entry>, indices: seq<nat>, x: nat)
    requires x < |entries| && Indices(indices, x)
    ensures Without(entries, indices + [x]) == Without(entries[..x] + entries[x + 1..], indices)
  {
    if indices == [] {
      assert [] + [x] == [x] && [x][1..] == [];
    } else {
      assert (indices + [x])[1..] == indices[1..] + [x];
      WithoutLast(entries, indices[1..], x);
    }
  }

  function OthersThan(target: string): Entry -> bool {
    (e: Entry) => e.sid != target
  }

  ghost predicate HiddenEntry(entries: seq<Entry>, target: string, unreadable: set<nat>, i: nat) {
    i < |entries| && i in unreadable && entries[i].sid == target
  }

  lemma {:induction false} KeptOthers(entries: seq<Entry>, target: string, unreadable: set<nat>)
    ensures Filter(Kept(entries, target, unreadable), OthersThan(target)) == Filter(entries, OthersThan(target))
  {
    if entries != [] {
      var n := |entries| - 1;
      var end := if Goes(entries[n], n, target, unreadable) then [] else [entries[n]];
      KeptOthers(entries[..n], target, unreadable);
      FilterAppend(Kept(entries[..n], target, unreadable), end, OthersThan(target));
      FilterAppend(entries[..n], [entries[n]], OthersThan(target));
      assert entries == entries[..n] + [entries[n]];
      assert Filter(end, OthersThan(target)) == Filter([entries[n]], OthersThan(target));
    }
  }

  lemma {:induction false} KeptTargets(entries: seq<Entry>, target: string, unreadable: set<nat>)
    ensures (exists e :: e in Kept(entries, target, unreadable) && e.sid == target)
            <==> exists i: nat :: HiddenEntry(entries, target, unreadable, i)
  {
    if entries != [] {
      KeptTargets(entries[..|entries| - 1], target, unreadable);
      HiddenStep(entries, target, unreadable);
    }
  }

  /** Every entry of another identifier stays, in order; entries of the target stay only
      where they could not be read, so that when all can be read none is left. */
  lemma KeptExact(entries: seq<Entry>, target: string, unreadable: set<nat>)
    ensures var kept := Kept(entries, target, unreadable);
            && Filter(kept, OthersThan(target)) == Filter(entries, OthersThan(target))
            && ((exists e :: e in kept && e.sid == target) <==> exists i: nat :: HiddenEntry(entries, target, unreadable, i))
    ensures unreadable == {} ==> Kept(entries, target, unreadable) == Filter(entries, OthersThan(target))
  {
    KeptOthers(entries, target, unreadable);
    KeptTargets(entries, target, unreadable);
    if unreadable == {} {
      FilterKeepsAll(Kept(entries, target, unreadable), OthersThan(target));
    }
  }

  lemma HiddenStep(entries: seq<Entry>, target: string, unreadable: set<nat>)
    requires entries != []
    ensures var n := |entries| - 1;
            (exists i: nat :: HiddenEntry(entries, target, unreadable, i))
            <==> (exists i: nat :: HiddenEntry(entries[..n], target, unreadable, i)) || HiddenEntry(entries, target, unreadable, n)
  {
    var n := |entries| - 1;
    if i: nat :| HiddenEntry(entries, target, unreadable, i) && i < n {
      assert HiddenEntry(entries[..n], target, unreadable, i);
    }
    if i: nat :| HiddenEntry(entries[..n], target, unreadable, i) {
      assert HiddenEntry(entries, target, unreadable, i);
    }
  }

  /** A second pass that can read everything finds nothing to delete if and only if the
      first pass could read every entry of the target. */
  lemma SecondPassFindsNothing(entries: seq<Entry>, target: string, unreadable: set<nat>)
    ensures var once := Kept(entries, target, unreadable);
            Matching(once, target, {}, |once|) == [] <==> !exists i: nat :: HiddenEntry(entries, target, unreadable, i)
  {
    var once := Kept(entries, target, unreadable);
    KeptExact(entries, target, unreadable);
    NoneMatch(once, target, |once|);
    assert once[..|once|] == once;
  }

  lemma {:induction false} NoneMatch(entries: seq<Entry>, target: string, n: nat)
    requires n <= |entries|
    ensures Matching(entries, target, {}, n) == [] <==> forall e :: e in entries[..n] ==> e.sid != target
  {
    if n > 0 {
      NoneMatch(entries, target, n - 1);
      assert entries[..n] == entries[..n - 1] + [entries[n - 1]];
    }
  }

  // ----- why the indices are deleted in reverse -----

  /** Deleting at each of `indices`, the first one first; a stale index past the end
      deletes nothing. */
  function WithoutAscending(entries: seq<Entry>, indices: seq<nat>): seq<Entry>
    decreases |indices|
  {
    if indices == [] then entries
    else if indices[0] < |entries| then WithoutAscending(entries[..indices[0]] + entries[indices[0] + 1..], indices[1..])
    else WithoutAscending(entries, indices[1..])
  }

  lemma {:induction false} AscendingSpares(entries: seq<Entry>, indices: seq<nat>, p: nat)
    requires p < |entries| && forall k :: 0 <= k < |indices| ==> p < indices[k]
    ensures p < |WithoutAscending(entries, indices)| && WithoutAscending(entries, indices)[p] == entries[p]
    decreases |indices|
  {
    if indices != [] {
      var i := indices[0];
      AscendingSpares(if i < |entries| then entries[..i] + entries[i + 1..] else entries, indices[1..], p);
    }
  }

  /** The matching indices are positions of the target. */
  lemma {:induction false} MatchingHits(entries: seq<Entry>, target: string, n: nat)
    requires n <= |entries|
    ensures forall k :: k in Matching(entries, target, {}, n) ==> k < n && entries[k].sid == target
  {
    if n > 0 {
      MatchingHits(entries, target, n - 1);
    }
  }

  /** Of two matches the second survives an ascending deletion: its index has gone stale. */
  lemma SecondSurvives(entries: seq<Entry>, indices: seq<nat>)
    requires |indices| >= 2 && Indices(indices, |entries|)
    ensures entries[indices[1]] in WithoutAscending(entries, indices)
  {
    var i, j := indices[0], indices[1];
    var less := entries[..i] + entries[i + 1..];
    assert less[j - 1] == entries[j];
    AscendingSpares(less, indices[1..], j - 1);
  }

  /** Ascending deletion would do the same exactly when at most one entry matches. */
  lemma AscendingOrderIff(entries: seq<Entry>, target: string)
    ensures var indices := Matching(entries, target, {}, |entries|);
            WithoutAscending(entries, indices) == Kept(entries, target, {}) <==> |indices| <= 1
  {
    var indices := Matching(entries, target, {}, |entries|);
    MatchingSorted(entries, target, {}, |entries|);
    if |indices| <= 1 {
      WithoutMatching(entries, target, {}, |entries|);
      assert entries[..|entries|] == entries && entries[|entries|..] == [];
      assert WithoutAscending(entries, indices) == Without(entries, indices);
    } else {
      MatchingHits(entries, target, |entries|);
      assert indices[1] in indices;
      SecondSurvives(entries, indices);
      KeptExact(entries, target, {});
    }
  }
}
