/** The instance cache of `GraphPool`, one caller at a time: an ordered dictionary
    from workspace to instance whose oldest entry is evicted beyond a ceiling. */
module LruPool {
  import opened Common

  type Workspace = string
  datatype Entry = Entry(workspace: Workspace, instance: nat)

  /** `graph_max_workspaces or 32`. */
  function EffectiveLimit(configured: nat): (limit: nat)
    ensures limit >= 1
  {
    if configured == 0 then 32 else configured
  }

  function Lookup(pool: seq<Entry>, ws: Workspace): (r: Option<nat>)
    ensures r.Some? ==> Entry(ws, r.value) in pool
    ensures r.None? <==> forall e :: e in pool ==> e.workspace != ws
  {
    if pool == [] then None
    else if pool[0].workspace == ws then Some(pool[0].instance)
    else Lookup(pool[1..], ws)
  }

  function NotOf(ws: Workspace): Entry -> bool {
    (e: Entry) => e.workspace != ws
  }

  /** Assigning a key and then moving it to the end of the ordered dictionary. */
  function PutLast(pool: seq<Entry>, ws: Workspace, instance: nat): (r: seq<Entry>)
    ensures |r| >= 1 && r[|r| - 1] == Entry(ws, instance)
  {
    Filter(pool, NotOf(ws)) + [Entry(ws, instance)]
  }

  function Names(pool: seq<Entry>): (r: seq<Workspace>)
    ensures |r| == |pool|
    ensures forall i :: 0 <= i < |r| ==> r[i] == pool[i].workspace
  {
    seq(|pool|, i requires 0 <= i < |pool| => pool[i].workspace)
  }

  function Instances(pool: seq<Entry>): (r: seq<nat>)
    ensures |r| == |pool|
    ensures forall i :: 0 <= i < |r| ==> r[i] == pool[i].instance
  {
    seq(|pool|, i requires 0 <= i < |pool| => pool[i].instance)
  }

  function Excess(n: nat, limit: nat): nat {
    if n > limit then n - limit else 0
  }

  datatype Outcome = Outcome(pool: seq<Entry>, returned: Option<nat>, finalized: seq<nat>)

  /** One `get` that runs alone: what the pool becomes, what the caller receives and
      which instances are finalized. `build` is the outcome of `_build` if it is called. */
  function AfterGet(limit: nat, pool: seq<Entry>, ws: Workspace, build: Option<nat>): Outcome {
    match Lookup(pool, ws)
    case Some(i) => Outcome(PutLast(pool, ws, i), Some(i), [])
    case None =>
      match build
      case None => Outcome(pool, None, [])
      case Some(n) =>
        var grown := PutLast(pool, ws, n);
        var k := Excess(|grown|, limit);
        Outcome(grown[k..], Some(n), Instances(grown[..k]))
  }

  class GraphPool {
    const enabled: bool
    const limit: nat
    var instances: seq<Entry>
    var finalized: seq<nat>  // every call of finalize_storages, in order

    ghost predicate Valid()
      reads this
    {
      limit >= 1 && |instances| <= limit && NoDup(Names(instances))
    }

    constructor (enabled: bool, configured: nat)
      ensures Valid() && instances == [] && finalized == []
      ensures this.enabled == enabled && limit == if configured == 0 then 32 else configured
    {
      this.enabled := enabled;
      limit := EffectiveLimit(configured);
      instances, finalized := [], [];
    }

    method Get(ws: Workspace, build: Option<nat>) returns (r: Option<nat>)
      requires Valid()
      modifies this
      ensures Valid()
      ensures var o := if enabled then AfterGet(limit, old(instances), ws, build)
                       else Outcome(old(instances), None, []);
              r == o.returned && instances == o.pool && finalized == old(finalized) + o.finalized
      ensures r.Some? ==> |instances| >= 1 && instances[|instances| - 1] == Entry(ws, r.value)
      ensures |finalized| <= |old(finalized)| + 1
    {
      if !enabled {
        return None;
      }
      var cached: Option<nat> := Lookup(instances, ws);
      PutLastNames(instances, ws, if cached.Some? then cached.value else if build.Some? then build.value else 0);
      if cached.Some? {
        instances := PutLast(instances, ws, cached.value);
        return cached;
      }
      cached := Lookup(instances, ws);
      if cached.Some? {
        return cached;
      }
      if build.None? {
        return None;
      }
      instances := PutLast(instances, ws, build.value);
      EvictIfNeeded();
      return build;
    }

    method EvictIfNeeded()
      requires limit >= 1
      modifies this`instances, this`finalized
      ensures var k := Excess(|old(instances)|, limit);
              instances == old(instances)[k..] && finalized == old(finalized) + Instances(old(instances)[..k])
    {
      ghost var k := 0;
      while |instances| > limit
        invariant 0 <= k <= Excess(|old(instances)|, limit)
        invariant instances == old(instances)[k..]
        invariant finalized == old(finalized) + Instances(old(instances)[..k])
      {
        var oldest := instances[0];
        assert Instances(old(instances)[..k + 1]) == Instances(old(instances)[..k]) + [oldest.instance];
        instances := instances[1..];
        finalized := finalized + [oldest.instance];
        k := k + 1;
      }
    }

    method Close()
      requires Valid()
      modifies this
      ensures Valid() && instances == []
      ensures finalized == old(finalized) + Instances(old(instances))
    {
      var pending := instances;
      instances := [];
      for i := 0 to |pending|
        invariant finalized == old(finalized) + Instances(pending[..i])
        invariant instances == [] && pending == old(instances)
      {
        assert Instances(pending[..i + 1]) == Instances(pending[..i]) + [pending[i].instance];
        finalized := finalized + [pending[i].instance];
      }
      assert pending[..|pending|] == pending;
    }
  }

  /** What a get does, said of the pool's entries: a resident instance is returned as it is,
      otherwise what was built; it becomes the newest entry, and the oldest beyond the
      ceiling are finalized, in order. */
  ghost predicate GetMeans(limit: nat, pool: seq<Entry>, ws: Workspace, build: Option<nat>, o: Outcome) {
    && (forall i :: Entry(ws, i) in pool ==> o.returned.Some? && Entry(ws, o.returned.value) in pool)
    && ((forall i :: Entry(ws, i) !in pool) ==> o.returned == build)
    && (if o.returned.None? then o.pool == pool && o.finalized == []
        else
          var grown := Filter(pool, NotOf(ws)) + [Entry(ws, o.returned.value)];
          var k := if |grown| > limit then |grown| - limit else 0;
          o.pool == grown[k..] && o.finalized == Instances(grown[..k]))
  }

  lemma AfterGetMeans(limit: nat, pool: seq<Entry>, ws: Workspace, build: Option<nat>)
    requires NoDup(Names(pool)) && |pool| <= limit
    ensures GetMeans(limit, pool, ws, build, AfterGet(limit, pool, ws, build))
  {
    PutLastNames(pool, ws, 0);
    match Lookup(pool, ws)
    case Some(i) =>
      var grown := PutLast(pool, ws, i);
      PutLastNames(pool, ws, i);
      assert grown[0..] == grown && Instances(grown[..0]) == [];
    case None =>
  }

  lemma {:induction false} NamesOfFilter(pool: seq<Entry>, ws: Workspace)
    ensures Names(Filter(pool, NotOf(ws))) == Filter(Names(pool), Other(ws))
  {
    if pool != [] {
      NamesOfFilter(pool[1..], ws);
      assert Names(pool)[1..] == Names(pool[1..]);
    }
  }

  lemma PutLastNames(pool: seq<Entry>, ws: Workspace, i: nat)
    requires NoDup(Names(pool))
    ensures Names(PutLast(pool, ws, i)) == Filter(Names(pool), Other(ws)) + [ws]
    ensures NoDup(Names(PutLast(pool, ws, i)))
    ensures Lookup(pool, ws).Some? <==> ws in Names(pool)
    ensures |PutLast(pool, ws, i)| == |pool| + if ws in Names(pool) then 0 else 1
  {
    NamesOfFilter(pool, ws);
    assert Names(PutLast(pool, ws, i)) == Names(Filter(pool, NotOf(ws))) + [ws];
    FilterMembers(Names(pool), Other(ws));
    FilterNoDup(Names(pool), Other(ws));
    RemovalLength(Names(pool), ws);
    if Lookup(pool, ws).Some? {
      var k :| 0 <= k < |pool| && pool[k] == Entry(ws, Lookup(pool, ws).value);
      assert Names(pool)[k] == ws;
    }
  }

  lemma InstancesJoin(a: seq<Entry>, b: seq<Entry>)
    ensures Instances(a + b) == Instances(a) + Instances(b)
  {
  }

  // ----- a whole sequence of gets -----

  datatype Request = Request(workspace: Workspace, build: Option<nat>)

  /** The pool after a sequence of gets, starting empty. */
  function Serve(limit: nat, requests: seq<Request>): seq<Entry> {
    if requests == [] then []
    else var last := requests[|requests| - 1];
         AfterGet(limit, Serve(limit, requests[..|requests| - 1]), last.workspace, last.build).pool
  }

  /** The workspaces of the gets that returned an instance rather than raising. */
  function Answered(limit: nat, requests: seq<Request>): seq<Workspace> {
    if requests == [] then []
    else var n := |requests| - 1;
         Answered(limit, requests[..n]) +
         if AfterGet(limit, Serve(limit, requests[..n]), requests[n].workspace, requests[n].build).returned.Some?
         then [requests[n].workspace] else []
  }

  /** How many gets called `_build`. */
  function Builds(limit: nat, requests: seq<Request>): nat {
    if requests == [] then 0
    else var n := |requests| - 1;
         Builds(limit, requests[..n]) +
         if Lookup(Serve(limit, requests[..n]), requests[n].workspace).None? then 1 else 0
  }

  /** The distinct elements of a history, ordered by their last occurrence. */
  function LastUses(history: seq<Workspace>): (r: seq<Workspace>)
  {
    if history == [] then []
    else if history[0] in history[1..] then LastUses(history[1..])
    else [history[0]] + LastUses(history[1..])
  }

  function Suffix<T>(s: seq<T>, k: nat): (r: seq<T>)
    ensures |r| == Min(|s|, k)
  {
    s[Excess(|s|, k)..]
  }

  lemma {:induction false} LastUsesNoDup(history: seq<Workspace>)
    ensures NoDup(LastUses(history))
    ensures forall w :: w in LastUses(history) <==> w in history
  {
    if history != [] {
      LastUsesNoDup(history[1..]);
    }
  }

  lemma {:induction false} LastUsesAppend(history: seq<Workspace>, w: Workspace)
    ensures LastUses(history + [w]) == Filter(LastUses(history), Other(w)) + [w]
  {
    if history == [] {
      assert history + [w] == [w];
    } else {
      assert (history + [w])[1..] == history[1..] + [w];
      LastUsesAppend(history[1..], w);
    }
  }

  lemma SuffixAppend<T>(a: seq<T>, t: seq<T>, k: nat)
    requires |t| >= k || a == []
    ensures Suffix(a + t, k) == Suffix(t, k)
  {
    if a == [] {
      assert a + t == t;
    }
  }

  lemma SuffixSplit<T>(s: seq<T>, k: nat) returns (a: seq<T>, t: seq<T>)
    ensures s == a + t && t == Suffix(s, k) && (|t| >= k || a == [])
  {
    a, t := s[..Excess(|s|, k)], Suffix(s, k);
  }

  /** The one step of the LRU argument: requesting `w` acts on the last `k` uses as it
      acts on the whole history. */
  lemma TouchSuffix(uses: seq<Workspace>, k: nat, w: Workspace)
    requires NoDup(uses) && k >= 1
    ensures var s := Suffix(uses, k);
            Suffix(Filter(uses, Other(w)) + [w], k)
            == if w in s then Filter(s, Other(w)) + [w] else Suffix(s + [w], k)
  {
    var a, s := SuffixSplit(uses, k);
    FilterAppend(a, s, Other(w));
    var rest := Filter(s, Other(w)) + [w];
    assert Filter(uses, Other(w)) + [w] == Filter(a, Other(w)) + rest;
    assert |rest| >= k || Filter(a, Other(w)) == [] by {
      RemovalLengthOf(uses, |a|, w);
    }
    SuffixAppend(Filter(a, Other(w)), rest, k);
    if w !in s {
      FilterKeepsAll(s, Other(w));
    } else {
      RemovalLengthOf(uses, |a|, w);
    }
  }

  lemma RemovalLengthOf(uses: seq<Workspace>, n: nat, w: Workspace)
    requires NoDup(uses) && n <= |uses|
    ensures var s := uses[n..];
            |Filter(s, Other(w))| == if w in s then |s| - 1 else |s|
  {
    RemovalLength(uses[n..], w);
  }

  /** Main result: whatever the requests and whichever builds fail, the resident order is
      the `limit` most recently answered distinct workspaces, oldest first. */
  lemma {:induction false} ResidentsAreMostRecent(limit: nat, requests: seq<Request>)
    requires limit >= 1
    ensures Names(Serve(limit, requests)) == Suffix(LastUses(Answered(limit, requests)), limit)
    ensures NoDup(Names(Serve(limit, requests))) && |Serve(limit, requests)| <= limit
  {
    if requests != [] {
      var n := |requests| - 1;
      ResidentsAreMostRecent(limit, requests[..n]);
      var before, history := Serve(limit, requests[..n]), Answered(limit, requests[..n]);
      LastUsesNoDup(history);
      LruStep(limit, before, history, requests[n].workspace, requests[n].build);
    }
  }

  lemma LruStep(limit: nat, before: seq<Entry>, history: seq<Workspace>, ws: Workspace, build: Option<nat>)
    requires limit >= 1 && NoDup(Names(before))
    requires NoDup(LastUses(history)) && Names(before) == Suffix(LastUses(history), limit)
    ensures var o := AfterGet(limit, before, ws, build);
            && Names(o.pool) == Suffix(LastUses(history + if o.returned.Some? then [ws] else []), limit)
            && NoDup(Names(o.pool)) && |o.pool| <= limit
  {
    var o := AfterGet(limit, before, ws, build);
    if o.returned.None? {
      assert history + [] == history;
    } else {
      LastUsesAppend(history, ws);
      TouchSuffix(LastUses(history), limit, ws);
      PoolStep(limit, before, ws, o.returned.value);
    }
  }

  /** What a successful get does to the names in the pool. */
  lemma PoolStep(limit: nat, before: seq<Entry>, ws: Workspace, i: nat)
    requires limit >= 1 && NoDup(Names(before)) && |before| <= limit
    ensures var grown := PutLast(before, ws, i);
            var names := Names(grown[Excess(|grown|, limit)..]);
            && NoDup(names) && |names| <= limit
            && names == if ws in Names(before) then Filter(Names(before), Other(ws)) + [ws]
                        else Suffix(Names(before) + [ws], limit)
    ensures Lookup(before, ws).Some? <==> ws in Names(before)
    ensures Lookup(before, ws).Some? ==> |PutLast(before, ws, i)| <= limit
  {
    PutLastNames(before, ws, i);
    var grown := PutLast(before, ws, i);
    if ws !in Names(before) {
      FilterKeepsAll(Names(before), Other(ws));
    }
    assert Names(grown[Excess(|grown|, limit)..]) == Suffix(Names(grown), limit);
  }

  // ----- comparing ceilings -----

  /** `a` is `b` with some elements left out. */
  predicate Within(a: seq<Workspace>, b: seq<Workspace>) {
    a == [] || (b != [] && if a[0] == b[0] then Within(a[1..], b[1..]) else Within(a, b[1..]))
  }

  lemma {:induction false} WithinTail(a: seq<Workspace>, b: seq<Workspace>)
    requires a != [] && Within(a, b)
    ensures b != [] && Within(a[1..], b[1..])
  {
    if a[0] != b[0] {
      WithinTail(a, b[1..]);
      WithinMore(a[1..], b[1..]);
    }
  }

  /** Leaving out one more element in front. */
  lemma {:induction false} WithinMore(a: seq<Workspace>, b: seq<Workspace>)
    requires b != [] && Within(a, b[1..])
    ensures Within(a, b)
  {
    if a != [] && a[0] == b[0] {
      WithinTail(a, b[1..]);
      WithinMore(a[1..], b[1..]);
    }
  }

  lemma {:induction false} WithinAppend(a: seq<Workspace>, b: seq<Workspace>, w: Workspace)
    requires Within(a, b)
    ensures Within(a + [w], b + [w])
    ensures Within(a, b + [w])
  {
    if b == [] {
      assert b + [w] == [w] && [] + [w] == [w];
    } else {
      assert (b + [w])[1..] == b[1..] + [w];
      if a == [] {
        WithinAppend(a, b[1..], w);
        WithinMore([] + [w], b + [w]);
      } else if a[0] == b[0] {
        assert (a + [w])[1..] == a[1..] + [w];
        WithinAppend(a[1..], b[1..], w);
      } else {
        WithinAppend(a, b[1..], w);
      }
    }
  }

  lemma {:induction false} WithinRemove(a: seq<Workspace>, b: seq<Workspace>, w: Workspace)
    requires Within(a, b)
    ensures Within(Filter(a, Other(w)), Filter(b, Other(w)))
  {
    if a != [] {
      if a[0] == b[0] {
        WithinRemove(a[1..], b[1..], w);
        if a[0] == w {
          assert Filter(a, Other(w)) == Filter(a[1..], Other(w));
          assert Filter(b, Other(w)) == Filter(b[1..], Other(w));
        } else {
          assert Filter(a, Other(w)) == [a[0]] + Filter(a[1..], Other(w));
          assert Filter(b, Other(w)) == [a[0]] + Filter(b[1..], Other(w));
        }
      } else {
        WithinRemove(a, b[1..], w);
        if b[0] != w {
          assert Filter(b, Other(w))[1..] == Filter(b[1..], Other(w));
          WithinMore(Filter(a, Other(w)), Filter(b, Other(w)));
        } else {
          assert Filter(b, Other(w)) == Filter(b[1..], Other(w));
        }
      }
    }
  }

  lemma {:induction false} WithinMembers(a: seq<Workspace>, b: seq<Workspace>)
    requires Within(a, b)
    ensures forall w :: w in a ==> w in b
    ensures |a| <= |b|
  {
    if a != [] {
      if a[0] == b[0] {
        WithinMembers(a[1..], b[1..]);
        assert a == [a[0]] + a[1..] && b == [b[0]] + b[1..];
      } else {
        WithinMembers(a, b[1..]);
      }
    }
  }

  /** The names in the pool after one get, from the names before it. */
  function NamesAfter(limit: nat, names: seq<Workspace>, w: Workspace, built: bool): seq<Workspace> {
    if w in names then Filter(names, Other(w)) + [w]
    else if built then Suffix(names + [w], limit)
    else names
  }

  lemma NamesFollow(limit: nat, pool: seq<Entry>, w: Workspace, build: Option<nat>)
    requires limit >= 1 && NoDup(Names(pool)) && |pool| <= limit
    ensures var after := Names(AfterGet(limit, pool, w, build).pool);
            after == NamesAfter(limit, Names(pool), w, build.Some?) && NoDup(after) && |after| <= limit
  {
    var o := AfterGet(limit, pool, w, build);
    PoolStep(limit, pool, w, if o.returned.Some? then o.returned.value else 0);
  }

  /** The smaller pool is part of the larger one, and equal to it until it is full. */
  ghost predicate Nested(limit: nat, small: seq<Workspace>, large: seq<Workspace>) {
    Within(small, large) && |small| <= limit && (|small| < limit ==> small == large)
  }

  lemma NestedStep(limit: nat, larger: nat, small: seq<Workspace>, large: seq<Workspace>, w: Workspace, built: bool)
    requires 1 <= limit <= larger && |large| <= larger
    requires NoDup(small) && NoDup(large) && Nested(limit, small, large)
    ensures Nested(limit, NamesAfter(limit, small, w, built), NamesAfter(larger, large, w, built))
  {
    WithinMembers(small, large);
    RemovalLength(small, w);
    if w in large {
      WithinRemove(small, large, w);
      WithinAppend(Filter(small, Other(w)), Filter(large, Other(w)), w);
      if w !in small {
        FilterKeepsAll(small, Other(w));
        WithinTail(small + [w], Filter(large, Other(w)) + [w]);
        WithinMore(Suffix(small + [w], limit), Filter(large, Other(w)) + [w]);
      }
    } else if built {
      WithinAppend(small, large, w);
      if |small| == limit {
        WithinTail(small + [w], large + [w]);
        WithinMore((small + [w])[1..], large + [w]);
      }
    }
  }

  /** Whatever the requests and whichever builds fail, a larger ceiling always holds at
      least the same workspaces, in the same order. */
  lemma {:induction false} LargerPoolContains(limit: nat, larger: nat, requests: seq<Request>)
    requires 1 <= limit <= larger
    ensures Nested(limit, Names(Serve(limit, requests)), Names(Serve(larger, requests)))
  {
    if requests != [] {
      var n := |requests| - 1;
      var small, large := Serve(limit, requests[..n]), Serve(larger, requests[..n]);
      var w, build := requests[n].workspace, requests[n].build;
      LargerPoolContains(limit, larger, requests[..n]);
      ResidentsAreMostRecent(limit, requests[..n]);
      ResidentsAreMostRecent(larger, requests[..n]);
      NamesFollow(limit, small, w, build);
      NamesFollow(larger, large, w, build);
      NestedStep(limit, larger, Names(small), Names(large), w, build.Some?);
    }
  }

  /** Raising the ceiling never costs a build (no Belady anomaly). */
  lemma {:induction false} LargerPoolBuildsNoMore(limit: nat, larger: nat, requests: seq<Request>)
    requires 1 <= limit <= larger
    ensures Builds(larger, requests) <= Builds(limit, requests)
  {
    if requests != [] {
      var n := |requests| - 1;
      LargerPoolBuildsNoMore(limit, larger, requests[..n]);
      MissesNest(limit, larger, requests[..n], requests[n].workspace);
    }
  }

  lemma MissesNest(limit: nat, larger: nat, requests: seq<Request>, w: Workspace)
    requires 1 <= limit <= larger
    ensures Lookup(Serve(limit, requests), w).Some? ==> Lookup(Serve(larger, requests), w).Some?
  {
    var small, large := Serve(limit, requests), Serve(larger, requests);
    LargerPoolContains(limit, larger, requests);
    ResidentsAreMostRecent(limit, requests);
    ResidentsAreMostRecent(larger, requests);
    WithinMembers(Names(small), Names(large));
    PutLastNames(small, w, 0);
    PutLastNames(large, w, 0);
  }
}
