/** Python's `sort` with a key: ascending and stable. `reverse=True` on a key is the same
    as sorting by the negated key, since it also keeps equal elements in order. */
module StableSort {
  import opened Common
  import opened Positions

  function Insert<T>(x: T, s: seq<T>, key: T -> real): seq<T> {
    if s == [] || key(x) <= key(s[0]) then [x] + s else [s[0]] + Insert(x, s[1..], key)
  }

  function Sort<T>(s: seq<T>, key: T -> real): seq<T> {
    if s == [] then [] else Insert(s[0], Sort(s[1..], key), key)
  }

  ghost predicate Ascending<T>(s: seq<T>, key: T -> real) {
    forall i, j :: 0 <= i < j < |s| ==> key(s[i]) <= key(s[j])
  }

  function HasKey<T>(key: T -> real, v: real): T -> bool {
    x => key(x) == v
  }

  /** `a` holds the elements of `b`, and equal keys keep their order. */
  ghost predicate SameByKey<T(!new)>(a: seq<T>, b: seq<T>, key: T -> real) {
    forall v :: Filter(a, HasKey(key, v)) == Filter(b, HasKey(key, v))
  }

  lemma {:induction false} InsertElements<T(!new)>(x: T, s: seq<T>, key: T -> real)
    ensures multiset(Insert(x, s, key)) == multiset([x] + s)
  {
    if s != [] && key(x) > key(s[0]) {
      InsertElements(x, s[1..], key);
      assert s == [s[0]] + s[1..];
    }
  }

  lemma {:induction false} InsertAscending<T(!new)>(x: T, s: seq<T>, key: T -> real)
    requires Ascending(s, key)
    ensures Ascending(Insert(x, s, key), key)
  {
    if s != [] && key(x) > key(s[0]) {
      InsertAscending(x, s[1..], key);
      InsertElements(x, s[1..], key);
      var t := Insert(x, s[1..], key);
      forall y | y in t ensures key(s[0]) <= key(y) {
        assert y in multiset(t);
      }
      AscendingHead(s[0], t, key);
    }
  }

  lemma AscendingHead<T(!new)>(x: T, s: seq<T>, key: T -> real)
    requires Ascending(s, key) && forall y :: y in s ==> key(x) <= key(y)
    ensures Ascending([x] + s, key)
  {
  }

  lemma {:induction false} InsertStable<T(!new)>(x: T, s: seq<T>, key: T -> real, v: real)
    ensures Filter(Insert(x, s, key), HasKey(key, v)) == Filter([x] + s, HasKey(key, v))
  {
    if s != [] && key(x) > key(s[0]) {
      InsertStable(x, s[1..], key, v);
      var t, has := Insert(x, s[1..], key), HasKey(key, v);
      FilterAppend([s[0]], t, has);
      FilterAppend([x], s[1..], has);
      FilterAppend([x], s, has);
      assert s == [s[0]] + s[1..];
      FilterAppend([s[0]], s[1..], has);
      assert !has(x) || !has(s[0]);
    }
  }

  /** The sort is ascending, keeps the elements, and is stable. */
  lemma {:induction false} SortIsStable<T(!new)>(s: seq<T>, key: T -> real)
    ensures Ascending(Sort(s, key), key)
    ensures multiset(Sort(s, key)) == multiset(s) && |Sort(s, key)| == |s|
    ensures SameByKey(Sort(s, key), s, key)
  {
    if s != [] {
      SortIsStable(s[1..], key);
      var t := Sort(s[1..], key);
      InsertAscending(s[0], t, key);
      InsertElements(s[0], t, key);
      assert s == [s[0]] + s[1..];
      forall v ensures Filter(Sort(s, key), HasKey(key, v)) == Filter(s, HasKey(key, v)) {
        InsertStable(s[0], t, key, v);
        FilterAppend([s[0]], t, HasKey(key, v));
        FilterAppend([s[0]], s[1..], HasKey(key, v));
        assert Filter(t, HasKey(key, v)) == Filter(s[1..], HasKey(key, v));
      }
      assert |multiset(Sort(s, key))| == |multiset(s)|;
    }
  }

  /** The element at `p` comes before that at `q`: by key, and by position for equal keys. */
  predicate Before<T>(s: seq<T>, key: T -> real, p: nat, q: nat)
    requires p < |s| && q < |s|
  {
    key(s[p]) < key(s[q]) || (key(s[p]) == key(s[q]) && p < q)
  }

  /** `at` are the positions of the elements of `s`, all of them, in sorted order. */
  ghost predicate SortedAt<T(!new)>(s: seq<T>, key: T -> real, at: seq<nat>) {
    && |at| == |s| && (forall p: nat :: p in at <==> p < |s|)
    && (forall k :: 0 <= k < |at| ==> at[k] < |s|)
    && (forall i, j :: 0 <= i < j < |at| ==> Before(s, key, at[i], at[j]))
  }

  lemma {:induction false} InsertAt<T(!new)>(x: T, s: seq<T>, key: T -> real) returns (p: nat)
    requires Ascending(s, key)
    ensures p <= |s| && Insert(x, s, key) == s[..p] + [x] + s[p..]
    ensures (forall k :: 0 <= k < p ==> key(s[k]) < key(x)) && (forall k :: p <= k < |s| ==> key(x) <= key(s[k]))
  {
    p := 0;
    if s != [] && key(x) > key(s[0]) {
      p := InsertAt(x, s[1..], key);
      assert s[..p + 1] == [s[0]] + s[1..][..p] && s[p + 1..] == s[1..][p..];
      p := p + 1;
    }
  }

  lemma UpSorted<T(!new)>(x: T, rest: seq<T>, key: T -> real, at: seq<nat>)
    requires SortedAt(rest, key, at)
    ensures var s, up := [x] + rest, Up(at);
            && |up| == |rest| && (forall p: nat :: p in up <==> 0 < p < |s|)
            && (forall k :: 0 <= k < |up| ==> 0 < up[k] < |s| && s[up[k]] == rest[at[k]])
            && (forall i, j :: 0 <= i < j < |up| ==> Before(s, key, up[i], up[j]))
  {
    var s, up := [x] + rest, Up(at);
    forall p: nat ensures p in up <==> 0 < p < |s| {
      UpMember(at, p);
    }
    forall i, j | 0 <= i < j < |up| ensures Before(s, key, up[i], up[j]) {
      assert Before(rest, key, at[i], at[j]);
    }
  }

  /** One more element in front goes between those that are smaller and the others. */
  lemma SortedAtStep<T(!new)>(x: T, rest: seq<T>, key: T -> real, at: seq<nat>, p: nat)
    requires SortedAt(rest, key, at) && p <= |at|
    requires forall k :: 0 <= k < p ==> key(rest[at[k]]) < key(x)
    requires forall k :: p <= k < |at| ==> key(x) <= key(rest[at[k]])
    ensures SortedAt([x] + rest, key, WithZero(Up(at), p))
  {
    var s, up, r := [x] + rest, Up(at), WithZero(Up(at), p);
    UpSorted(x, rest, key, at);
    WithZeroMembers(up, p);
    forall k | 0 <= k < |r| ensures r[k] < |s| {
      assert r[k] in r;
    }
    forall i, j | 0 <= i < j < |r| ensures Before(s, key, r[i], r[j]) {
      if i < p && j > p {
        assert Before(s, key, up[i], up[j - 1]);
      } else if i > p {
        assert Before(s, key, up[i - 1], up[j - 1]);
      } else if j < p {
        assert Before(s, key, up[i], up[j]);
      }
    }
  }

  lemma SortedElements<T(!new)>(x: T, rest: seq<T>, t: seq<T>, at: seq<nat>, p: nat)
    requires |at| == |rest| == |t| && p <= |t|
    requires forall k :: 0 <= k < |at| ==> at[k] < |rest| && t[k] == rest[at[k]]
    ensures var s, r, all := [x] + rest, WithZero(Up(at), p), t[..p] + [x] + t[p..];
            |r| == |all| && forall k :: 0 <= k < |r| ==> r[k] < |s| && all[k] == s[r[k]]
  {
    var s, r, all := [x] + rest, WithZero(Up(at), p), t[..p] + [x] + t[p..];
    forall k | 0 <= k < |r| ensures r[k] < |s| && all[k] == s[r[k]] {
      if k < p {
        assert r[k] == at[k] + 1 && all[k] == t[k];
      } else if k > p {
        assert r[k] == at[k - 1] + 1 && all[k] == t[k - 1];
      }
    }
  }

  /** Where each element of a sorted list comes from. */
  lemma {:induction false} SortPositions<T(!new)>(s: seq<T>, key: T -> real) returns (at: seq<nat>)
    ensures SortedAt(s, key, at) && |Sort(s, key)| == |s|
    ensures forall k :: 0 <= k < |at| ==> Sort(s, key)[k] == s[at[k]]
  {
    at := [];
    if s != [] {
      var x, rest, t := s[0], s[1..], Sort(s[1..], key);
      var later := SortPositions(rest, key);
      SortIsStable(rest, key);
      var p := InsertAt(x, t, key);
      HeadAndTail(s);
      SortedAtStep(x, rest, key, later, p);
      SortedElements(x, rest, t, later, p);
      at := WithZero(Up(later), p);
    }
  }

  lemma FirstWithKey<T(!new)>(s: seq<T>, key: T -> real)
    requires s != [] && Ascending(s, key)
    ensures forall v :: v < key(s[0]) ==> Filter(s, HasKey(key, v)) == []
    ensures forall v :: Filter(s, HasKey(key, v))
                        == (if v == key(s[0]) then [s[0]] else []) + Filter(s[1..], HasKey(key, v))
  {
    forall v | v < key(s[0]) ensures Filter(s, HasKey(key, v)) == [] {
      FilterMembers(s, HasKey(key, v));
    }
  }

  /** Stability and order determine the result: there is one stable sort. */
  lemma {:induction false} StableSortIsUnique<T(!new)>(a: seq<T>, b: seq<T>, key: T -> real)
    requires Ascending(a, key) && Ascending(b, key) && SameByKey(a, b, key)
    ensures a == b
  {
    if a != [] {
      FirstWithKey(a, key);
      assert Filter(b, HasKey(key, key(a[0]))) == Filter(a, HasKey(key, key(a[0])));
    }
    if b != [] {
      FirstWithKey(b, key);
      assert Filter(a, HasKey(key, key(b[0]))) == Filter(b, HasKey(key, key(b[0])));
    }
    if a != [] && b != [] {
      assert key(a[0]) == key(b[0]);
      assert a[0] == Filter(a, HasKey(key, key(a[0])))[0] == b[0];
      forall v ensures Filter(a[1..], HasKey(key, v)) == Filter(b[1..], HasKey(key, v)) {
        var head := if v == key(a[0]) then [a[0]] else [];
        var fa, fb := Filter(a, HasKey(key, v)), Filter(b, HasKey(key, v));
        assert fa == fb;
        assert fa[|head|..] == Filter(a[1..], HasKey(key, v));
        assert fb[|head|..] == Filter(b[1..], HasKey(key, v));
      }
      StableSortIsUnique(a[1..], b[1..], key);
    }
  }

  lemma SortedStays<T(!new)>(s: seq<T>, key: T -> real)
    requires Ascending(s, key)
    ensures Sort(s, key) == s
  {
    SortIsStable(s, key);
    StableSortIsUnique(Sort(s, key), s, key);
  }

  lemma {:induction false} FiltersCommute<T(!new)>(s: seq<T>, p: T -> bool, q: T -> bool)
    ensures Filter(Filter(s, p), q) == Filter(Filter(s, q), p)
  {
    if s != [] {
      FiltersCommute(s[1..], p, q);
      var hp, hq := if p(s[0]) then [s[0]] else [], if q(s[0]) then [s[0]] else [];
      FilterAppend(hp, Filter(s[1..], p), q);
      FilterAppend(hq, Filter(s[1..], q), p);
    }
  }

  lemma {:induction false} FilterAscending<T(!new)>(s: seq<T>, p: T -> bool, key: T -> real)
    requires Ascending(s, key)
    ensures Ascending(Filter(s, p), key)
  {
    if s != [] {
      FilterAscending(s[1..], p, key);
      FilterMembers(s[1..], p);
      forall x | x in Filter(s[1..], p) ensures key(s[0]) <= key(x) {
        assert x in s[1..];
      }
    }
  }

  /** Sorting and selecting commute. */
  lemma SortOfFilter<T(!new)>(s: seq<T>, p: T -> bool, key: T -> real)
    ensures Filter(Sort(s, key), p) == Sort(Filter(s, p), key)
  {
    SortIsStable(s, key);
    SortIsStable(Filter(s, p), key);
    FilterAscending(Sort(s, key), p, key);
    forall v ensures Filter(Filter(Sort(s, key), p), HasKey(key, v)) == Filter(Sort(Filter(s, p), key), HasKey(key, v)) {
      FiltersCommute(Sort(s, key), p, HasKey(key, v));
      FiltersCommute(s, p, HasKey(key, v));
      assert Filter(Sort(s, key), HasKey(key, v)) == Filter(s, HasKey(key, v));
      assert Filter(Sort(Filter(s, p), key), HasKey(key, v)) == Filter(Filter(s, p), HasKey(key, v));
    }
    StableSortIsUnique(Filter(Sort(s, key), p), Sort(Filter(s, p), key), key);
  }

  function Keys<T>(s: seq<T>, key: T -> real): (r: seq<real>)
    ensures |r| == |s| && forall i :: 0 <= i < |s| ==> r[i] == key(s[i])
  {
    seq(|s|, i requires 0 <= i < |s| => key(s[i]))
  }

  ghost predicate Rising(r: seq<real>) {
    forall i, j :: 0 <= i < j < |r| ==> r[i] <= r[j]
  }

  lemma FirstIsLeast(a: seq<real>, b: seq<real>)
    requires Rising(a) && a != [] && b != [] && b[0] in multiset(a)
    ensures a[0] <= b[0]
  {
    var i :| 0 <= i < |a| && a[i] == b[0];
  }

  lemma {:induction false} SortedUnique(a: seq<real>, b: seq<real>)
    requires Rising(a) && Rising(b) && multiset(a) == multiset(b)
    ensures a == b
  {
    assert |multiset(a)| == |a| && |multiset(b)| == |b|;
    if a != [] {
      assert a[0] in multiset(a) && b[0] in multiset(b);
      FirstIsLeast(a, b);
      FirstIsLeast(b, a);
      PermutationStep(a, b);
      SortedUnique(a[1..], b[1..]);
    }
  }

  /** The sequence without the first occurrence of `x`. */
  function RemoveFirst<T(==)>(s: seq<T>, x: T): seq<T> {
    if s == [] then [] else if s[0] == x then s[1..] else [s[0]] + RemoveFirst(s[1..], x)
  }

  lemma {:induction false} RemoveFirstElements<T>(s: seq<T>, x: T)
    requires x in s
    ensures multiset(s) == multiset(RemoveFirst(s, x)) + multiset{x}
    ensures |RemoveFirst(s, x)| == |s| - 1
  {
    assert s == [s[0]] + s[1..];
    if s[0] != x {
      RemoveFirstElements(s[1..], x);
    }
  }

  /** The step of an induction over two permutations of each other. */
  lemma PermutationStep<T>(a: seq<T>, b: seq<T>)
    requires a != [] && multiset(a) == multiset(b)
    ensures a[0] in b && multiset(a[1..]) == multiset(RemoveFirst(b, a[0]))
  {
    assert a[0] in multiset(b);
    RemoveFirstElements(b, a[0]);
    assert a == [a[0]] + a[1..];
    assert multiset(a[1..]) == multiset(a) - multiset{a[0]};
    assert multiset(RemoveFirst(b, a[0])) == multiset(b) - multiset{a[0]};
  }

  lemma PermutationEmpty<T>(b: seq<T>)
    requires multiset(b) == multiset{}
    ensures b == []
  {
    assert |b| == |multiset(b)|;
  }

  lemma KeysCons<T(!new)>(x: T, rest: seq<T>, key: T -> real)
    ensures multiset(Keys([x] + rest, key)) == multiset{key(x)} + multiset(Keys(rest, key))
  {
    assert Keys([x] + rest, key) == [key(x)] + Keys(rest, key);
  }

  lemma {:induction false} KeysWithout<T(!new)>(s: seq<T>, x: T, key: T -> real)
    requires x in s
    ensures multiset(Keys(s, key)) == multiset(Keys(RemoveFirst(s, x), key)) + multiset{key(x)}
  {
    HeadAndTail(s);
    KeysCons(s[0], s[1..], key);
    if s[0] != x {
      KeysWithout(s[1..], x, key);
      KeysCons(s[0], RemoveFirst(s[1..], x), key);
    }
  }

  lemma {:induction false} KeysOfPermutation<T(!new)>(a: seq<T>, b: seq<T>, key: T -> real)
    requires multiset(a) == multiset(b)
    ensures multiset(Keys(a, key)) == multiset(Keys(b, key))
  {
    if a == [] {
      PermutationEmpty(b);
    } else {
      PermutationStep(a, b);
      KeysOfPermutation(a[1..], RemoveFirst(b, a[0]), key);
      KeysWithout(a, a[0], key);
      KeysWithout(b, a[0], key);
    }
  }

  /** Whatever the order of the input, the sorted keys are the same. */
  lemma SortedKeysIgnoreOrder<T(!new)>(a: seq<T>, b: seq<T>, key: T -> real)
    requires multiset(a) == multiset(b)
    ensures |Sort(a, key)| == |Sort(b, key)| && multiset(Sort(a, key)) == multiset(Sort(b, key))
    ensures forall i :: 0 <= i < |Sort(a, key)| ==> key(Sort(a, key)[i]) == key(Sort(b, key)[i])
  {
    SortIsStable(a, key);
    SortIsStable(b, key);
    var ka, kb := Keys(Sort(a, key), key), Keys(Sort(b, key), key);
    KeysOfPermutation(Sort(a, key), Sort(b, key), key);
    SortedUnique(ka, kb);
    forall i | 0 <= i < |Sort(a, key)| ensures key(Sort(a, key)[i]) == key(Sort(b, key)[i]) {
      assert ka[i] == kb[i];
    }
  }
}
