/** Selections from a list, told by the positions of what was selected. */
module Positions {
  import opened Common

  ghost predicate Increasing(at: seq<nat>) {
    forall i, j :: 0 <= i < j < |at| ==> at[i] < at[j]
  }

  /** The positions `at` after one more element has been put in front. */
  function Up(at: seq<nat>): (r: seq<nat>)
    ensures |r| == |at| && forall k :: 0 <= k < |at| ==> r[k] == at[k] + 1
  {
    seq(|at|, k requires 0 <= k < |at| => at[k] + 1)
  }

  lemma UpMember(at: seq<nat>, p: nat)
    ensures p in Up(at) <==> p > 0 && p - 1 in at
  {
    if p > 0 && p - 1 in at {
      var k :| 0 <= k < |at| && at[k] == p - 1;
      assert Up(at)[k] == p;
    }
  }

  /** `at` with position 0 put in at index `p`. */
  function WithZero(at: seq<nat>, p: nat): (r: seq<nat>)
    requires p <= |at|
    ensures |r| == |at| + 1 && r[p] == 0
    ensures (forall k :: 0 <= k < p ==> r[k] == at[k]) && (forall k :: p < k < |r| ==> r[k] == at[k - 1])
  {
    at[..p] + [0] + at[p..]
  }

  lemma WithZeroMembers(at: seq<nat>, p: nat)
    requires p <= |at|
    ensures forall q :: q in WithZero(at, p) <==> q == 0 || q in at
  {
    assert at == at[..p] + at[p..];
  }

  /** `at` are, in order, the positions of the elements that are to be taken. */
  ghost predicate TakenAt<A(!new)>(from: seq<A>, take: A -> bool, at: seq<nat>) {
    Increasing(at) && forall p: nat :: p in at <==> p < |from| && take(from[p])
  }

  lemma TakenAtStep<A(!new)>(head: A, rest: seq<A>, take: A -> bool, at: seq<nat>)
    requires TakenAt(rest, take, at)
    ensures TakenAt([head] + rest, take, if take(head) then [0] + Up(at) else Up(at))
  {
    var from, r := [head] + rest, if take(head) then [0] + Up(at) else Up(at);
    forall p: nat ensures p in r <==> p < |from| && take(from[p]) {
      UpMember(at, p);
      if p > 0 {
        assert p in r <==> p in Up(at);
        assert p < |from| ==> from[p] == rest[p - 1];
      }
    }
  }

  /** Row `k` is what `tells` about the element at position `at[k]`; element 0 has number
      `first`. */
  ghost predicate ToldAt<A(!new), B(!new)>(
    rows: seq<B>, from: seq<A>, first: nat, at: seq<nat>, tells: (B, A, nat) -> bool)
  {
    |at| == |rows| && forall k :: 0 <= k < |rows| ==> at[k] < |from| && tells(rows[k], from[at[k]], first + at[k])
  }

  lemma ToldAtStep<A(!new), B(!new)>(
    rows: seq<B>, head: A, rest: seq<A>, first: nat, at: seq<nat>, tells: (B, A, nat) -> bool)
    requires ToldAt(rows, rest, first + 1, at, tells)
    ensures ToldAt(rows, [head] + rest, first, Up(at), tells)
  {
    var from := [head] + rest;
    forall k | 0 <= k < |rows| ensures Up(at)[k] < |from| && tells(rows[k], from[Up(at)[k]], first + Up(at)[k]) {
      assert from[at[k] + 1] == rest[at[k]] && first + (at[k] + 1) == (first + 1) + at[k];
    }
  }

  lemma ToldAtCons<A(!new), B(!new)>(
    row: B, rows: seq<B>, from: seq<A>, first: nat, at: seq<nat>, tells: (B, A, nat) -> bool)
    requires ToldAt(rows, from, first, at, tells) && from != [] && tells(row, from[0], first)
    ensures ToldAt([row] + rows, from, first, [0] + at, tells)
  {
    var all, r := [row] + rows, [0] + at;
    forall k | 0 <= k < |all| ensures r[k] < |from| && tells(all[k], from[r[k]], first + r[k]) {
      if k > 0 {
        assert all[k] == rows[k - 1] && r[k] == at[k - 1];
      }
    }
  }
}
