/** What closing promises: exactly when every instance is released, and exactly when a
    workspace gets a second open instance. */
module PoolClose {
  import opened Common
  import opened LruPool
  import opened PoolProtocol
  import opened PoolRuns

  // ----- a second open instance -----

  ghost predicate OneOpen(s: State) {
    forall i, j :: 0 <= i < j < |s.built| && Open(s, i) && Open(s, j) ==> s.built[i] != s.built[j]
  }

  /** The step ends a build of a workspace whose instance a close has yet to finalize. */
  ghost predicate Rebuilds(s: State, t: nat, ok: bool)
    requires t < |s.tasks|
  {
    s.tasks[t].Building? && ok &&
    exists i :: 0 <= i < |s.built| && BeingClosed(s, i) && s.built[i] == s.tasks[t].ws
  }

  lemma BeingClosedIsOpen(c: Config, s: State, i: nat)
    requires Inv(c, s) && BeingClosed(s, i)
    ensures Open(s, i)
  {
    var t :| 0 <= t < |s.tasks| && s.tasks[t].Finalizing? && exists e :: e in s.tasks[t].pending && e.instance == i;
    var e :| e in s.tasks[t].pending && e.instance == i;
    assert TaskOk(s, t) && EntryAt(s, e, WithCloser(t));
  }

  lemma OpenWhileBuilding(c: Config, s: State, t: nat, i: nat)
    requires Inv(c, s) && t < |s.tasks| && s.tasks[t].Building?
    requires Open(s, i) && s.built[i] == s.tasks[t].ws
    ensures BeingClosed(s, i)
  {
    assert TaskOk(s, t) && PlaceOk(s, i);
    var own := Entry(s.built[i], i);
    assert own in s.tasks[s.place[i].task].pending && own.instance == i;
  }

  /** The one step after which a workspace has two open instances. */
  lemma SecondInstanceIff(c: Config, s: State, t: nat, ok: bool)
    requires Inv(c, s) && OneOpen(s) && CanStep(c, s, t)
    ensures !OneOpen(Next(c, s, t, ok)) <==> Rebuilds(s, t, ok)
  {
    var n := Next(c, s, t, ok);
    if s.tasks[t].Building? && ok {
      var last := |s.built|;
      assert Open(n, last);
      forall i | 0 <= i < last ensures Open(n, i) <==> Open(s, i) {
      }
      if i :| 0 <= i < last && BeingClosed(s, i) && s.built[i] == s.tasks[t].ws {
        BeingClosedIsOpen(c, s, i);
        assert n.built[i] == n.built[last];
      }
      if !OneOpen(n) {
        var i, j :| 0 <= i < j < |n.built| && Open(n, i) && Open(n, j) && n.built[i] == n.built[j];
        assert j == last;
        OpenWhileBuilding(c, s, t, i);
      }
    } else {
      assert n.built == s.built && s.finalized <= n.finalized;
      forall i | 0 <= i < |s.built| && Open(n, i) ensures Open(s, i) {
        assert forall x :: x in s.finalized ==> x in n.finalized;
      }
    }
  }

  ghost predicate AlwaysOneOpen(c: Config, s: State, run: seq<Tick>)
    requires c.limit >= 1 && Legal(c, s, run)
    decreases |run|
  {
    OneOpen(s) && (run == [] || AlwaysOneOpen(c, Next(c, s, run[0].task, run[0].ok), run[1..]))
  }

  ghost predicate EverRebuilds(c: Config, s: State, run: seq<Tick>)
    requires c.limit >= 1 && Legal(c, s, run)
    decreases |run|
  {
    run != [] && (Rebuilds(s, run[0].task, run[0].ok)
                  || EverRebuilds(c, Next(c, s, run[0].task, run[0].ok), run[1..]))
  }

  lemma {:induction false} OneOpenUntilRebuilt(c: Config, s: State, run: seq<Tick>)
    requires Inv(c, s) && OneOpen(s) && Legal(c, s, run)
    ensures AlwaysOneOpen(c, s, run) <==> !EverRebuilds(c, s, run)
    decreases |run|
  {
    if run != [] {
      var n := Next(c, s, run[0].task, run[0].ok);
      SecondInstanceIff(c, s, run[0].task, run[0].ok);
      NextInv(c, s, run[0].task, run[0].ok);
      if OneOpen(n) {
        OneOpenUntilRebuilt(c, n, run[1..]);
      }
    }
  }

  /** Over whole runs: every workspace has at most one open instance all along if and only
      if no build ends while a close has yet to finalize an instance of its workspace. */
  lemma OneOpenThroughoutIff(c: Config, tasks: seq<Task>, run: seq<Tick>)
    requires Startable(c, tasks) && Legal(c, Initial(tasks), run)
    ensures AlwaysOneOpen(c, Initial(tasks), run) <==> !EverRebuilds(c, Initial(tasks), run)
  {
    InitialInv(c, tasks);
    OneOpenUntilRebuilt(c, Initial(tasks), run);
  }

  // ----- releasing everything -----

  ghost predicate AllReleased(s: State) {
    forall i: nat :: !Open(s, i)
  }

  /** However the remaining tasks are scheduled and whichever builds fail, in the end
      everything that was built is finalized. */
  ghost predicate AlwaysReleases(c: Config, s: State)
    requires c.limit >= 1
  {
    forall run :: Legal(c, s, run) && Stuck(c, Exec(c, s, run)) ==> AllReleased(Exec(c, s, run))
  }

  /** A get that has not put its instance into the pool yet, and may. */
  predicate MayInsert(c: Config, task: Task) {
    (task.Entering? && c.enabled) || task.AwaitingLock? || task.Rechecking? || task.Building? || task.Inserting?
  }

  ghost predicate SomeMayInsert(c: Config, s: State) {
    exists t :: 0 <= t < |s.tasks| && MayInsert(c, s.tasks[t])
  }

  ghost predicate CloseAhead(s: State) {
    exists t :: 0 <= t < |s.tasks| && s.tasks[t].Closing?
  }

  /** No get may still insert, and a close is to come unless the pool is already empty. */
  ghost predicate Releasable(c: Config, s: State) {
    !SomeMayInsert(c, s) && (s.pool == [] || CloseAhead(s))
  }

  lemma FinishedWhenStuck(c: Config, s: State)
    requires Inv(c, s) && Stuck(c, s)
    ensures forall t :: 0 <= t < |s.tasks| ==> Finished(s.tasks[t])
    ensures AllReleased(s) <==> s.pool == []
  {
    if exists t :: 0 <= t < |s.tasks| && !Finished(s.tasks[t]) {
      SomeTaskCanStep(c, s);
      assert false;
    }
    Quiet(c, s);
    if s.pool != [] {
      ResidentIsOpen(c, s, s.pool[0]);
    }
  }

  lemma StaysReleasable(c: Config, s: State, t: nat, ok: bool)
    requires Inv(c, s) && Releasable(c, s) && CanStep(c, s, t)
    ensures Releasable(c, Next(c, s, t, ok))
  {
    var n := Next(c, s, t, ok);
    assert !MayInsert(c, s.tasks[t]) && !MayInsert(c, n.tasks[t]);
    if !s.tasks[t].Closing? && CloseAhead(s) {
      var u :| 0 <= u < |s.tasks| && s.tasks[u].Closing?;
      assert n.tasks[u].Closing?;
    }
  }

  lemma {:induction false} ReleasableReleases(c: Config, s: State, run: seq<Tick>)
    requires Inv(c, s) && Releasable(c, s) && Legal(c, s, run) && Stuck(c, Exec(c, s, run))
    ensures AllReleased(Exec(c, s, run))
    decreases |run|
  {
    if run == [] {
      FinishedWhenStuck(c, s);
    } else {
      NextInv(c, s, run[0].task, run[0].ok);
      StaysReleasable(c, s, run[0].task, run[0].ok);
      ReleasableReleases(c, Next(c, s, run[0].task, run[0].ok), run[1..]);
    }
  }

  /** The task a schedule picks that is out to leave something open: closes come first. */
  lemma PickStep(c: Config, s: State) returns (t: nat)
    requires Inv(c, s) && !Releasable(c, s) && !Stuck(c, s)
    ensures CanStep(c, s, t) && !Releasable(c, Next(c, s, t, true))
  {
    if CloseAhead(s) {
      var g :| 0 <= g < |s.tasks| && MayInsert(c, s.tasks[g]);
      if s.guard.Some? {
        t := s.guard.value;
      } else {
        t :| 0 <= t < |s.tasks| && s.tasks[t].Closing?;
      }
      assert Next(c, s, t, true).tasks[g] == s.tasks[g];
    } else {
      t :| CanStep(c, s, t);
      LeavesSomething(c, s, t);
    }
  }

  lemma LeavesSomething(c: Config, s: State, t: nat)
    requires Inv(c, s) && !Releasable(c, s) && !CloseAhead(s) && CanStep(c, s, t)
    ensures !Releasable(c, Next(c, s, t, true))
  {
    var n := Next(c, s, t, true);
    assert TaskOk(s, t);
    assert !CloseAhead(n);
    if !MayInsert(c, n.tasks[t]) && MayInsert(c, s.tasks[t]) {
      assert n.pool != [];
    } else if s.pool == [] {
      var g :| 0 <= g < |s.tasks| && MayInsert(c, s.tasks[g]);
      assert MayInsert(c, n.tasks[g]);
    }
  }

  lemma {:induction false} SomethingStaysOpen(c: Config, s: State) returns (run: seq<Tick>)
    requires Inv(c, s) && !Releasable(c, s)
    ensures Legal(c, s, run) && Stuck(c, Exec(c, s, run)) && !AllReleased(Exec(c, s, run))
    decreases TotalRank(c, s.tasks)
  {
    if Stuck(c, s) {
      run := [];
      FinishedWhenStuck(c, s);
    } else {
      var t := PickStep(c, s);
      NextInv(c, s, t, true);
      EveryStepDecreases(c, s, t, true);
      var rest := SomethingStaysOpen(c, Next(c, s, t, true));
      run := [Tick(t, true)] + rest;
      assert run[1..] == rest;
    }
  }

  /** From any reachable state: everything that is ever built is released in every
      complete run if and only if no get may still insert and, unless the pool is empty, a
      close is still to come. */
  lemma EverythingIsReleasedIff(c: Config, s: State)
    requires Inv(c, s)
    ensures AlwaysReleases(c, s) <==> Releasable(c, s)
  {
    if Releasable(c, s) {
      forall run | Legal(c, s, run) && Stuck(c, Exec(c, s, run)) ensures AllReleased(Exec(c, s, run)) {
        ReleasableReleases(c, s, run);
      }
    } else {
      var run := SomethingStaysOpen(c, s);
    }
  }

  /** The promise of `close`, at the moment it empties the pool: everything is released if
      and only if no get is then between its first check and its insertion, or about to
      start. */
  lemma CloseReleasesEverything(c: Config, s: State, t: nat, ok: bool)
    requires Inv(c, s) && CanStep(c, s, t) && s.tasks[t].Closing?
    ensures AlwaysReleases(c, Next(c, s, t, ok)) <==> !SomeMayInsert(c, s)
  {
    var n := Next(c, s, t, ok);
    NextInv(c, s, t, ok);
    EverythingIsReleasedIff(c, n);
    assert forall u :: 0 <= u < |s.tasks| ==> MayInsert(c, n.tasks[u]) == MayInsert(c, s.tasks[u]);
  }

  // ----- one close alone -----

  /** A close of task `t` has run to its end without another task stepping. */
  ghost predicate ClosedAlone(c: Config, s: State, t: nat, n: State)
    requires c.limit >= 1
  {
    && Reaches(c, s, n) && t < |s.tasks| && n.tasks == s.tasks[t := Closed] && n.pool == []
    && n.finalized == s.finalized + Instances(s.pool)
    && n.holder == s.holder && n.guard == s.guard && n.built == s.built
  }

  /** From `m` to `n` the close of task `t` has finalized `done` and has `pending` left. */
  ghost predicate FinalizedUpTo(m: State, n: State, t: nat, done: seq<Entry>, pending: seq<Entry>)
    requires t < |m.tasks|
  {
    && n.tasks == m.tasks[t := CloserOf(pending)] && n.finalized == m.finalized + Instances(done)
    && n.pool == m.pool && n.holder == m.holder && n.guard == m.guard && n.built == m.built
  }

  lemma FinalizeOne(c: Config, m: State, n: State, t: nat, done: seq<Entry>, pending: seq<Entry>)
    requires c.limit >= 1 && t < |m.tasks| && pending != [] && FinalizedUpTo(m, n, t, done, pending)
    ensures CanStep(c, n, t) && FinalizedUpTo(m, Next(c, n, t, true), t, done + [pending[0]], pending[1..])
  {
    InstancesJoin(done, [pending[0]]);
    Associate(m.finalized, Instances(done), Instances([pending[0]]));
  }

  lemma {:induction false} FinalizeAll(c: Config, s: State, m: State, l: State, t: nat, done: seq<Entry>, pending: seq<Entry>)
    returns (n: State)
    requires c.limit >= 1 && Reaches(c, s, l) && t < |m.tasks| && FinalizedUpTo(m, l, t, done, pending)
    ensures Reaches(c, s, n) && FinalizedUpTo(m, n, t, done + pending, [])
    decreases |pending|
  {
    if pending == [] {
      n := l;
      assert done + [] == done;
    } else {
      FinalizeOne(c, m, l, t, done, pending);
      ReachesNext(c, s, l, t, true);
      HeadAndTail(pending);
      Associate(done, [pending[0]], pending[1..]);
      n := FinalizeAll(c, s, m, Next(c, l, t, true), t, done + [pending[0]], pending[1..]);
    }
  }

  /** A close that runs alone empties the pool and finalizes its instances in order, as the
      sequential one does. */
  lemma CloseAloneIsSequential(c: Config, s: State, t: nat) returns (n: State)
    requires c.limit >= 1 && s.guard.None? && t < |s.tasks| && s.tasks[t].Closing?
    ensures ClosedAlone(c, s, t, n)
  {
    ReachesStart(c, s);
    ReachesNext(c, s, s, t, true);
    var m := Next(c, s, t, true);
    assert Instances([]) == [] && [] + s.pool == s.pool;
    n := FinalizeAll(c, s, m, m, t, [], s.pool);
  }

  // ----- runs that show it -----

  /** Such a build does happen: while a close is still finalizing, a get can build a second
      instance of a workspace whose first instance is still open. */
  lemma TwoOpenDuringClose() returns (c: Config, tasks: seq<Task>, s: State)
    ensures Startable(c, tasks) && Reaches(c, Initial(tasks), s)
    ensures CloseInProgress(s) && Open(s, 0) && Open(s, 1) && s.built[0] == s.built[1]
  {
    c, tasks := Config(true, 1), [Entering("a"), Closing, Entering("a")];
    var s0 := Initial(tasks);
    ReachesStart(c, s0);
    var s1 := BuildOnEmptyPool(c, s0, s0, 0);
    var s3 := InsertThenClose(c, s0, s1, 0, 1);
    s := BuildOnEmptyPool(c, s0, s3, 2);
    assert s.tasks[1].Finalizing?;
  }

  /** Task `t` inserts into the empty pool, then task `u` closes and starts finalizing. */
  lemma InsertThenClose(c: Config, s: State, m: State, t: nat, u: nat) returns (n: State)
    requires c.limit >= 1 && Reaches(c, s, m) && t < |m.tasks| && u < |m.tasks|
    requires m.tasks[t].Inserting? && m.tasks[u].Closing? && m.guard.None? && m.pool == []
    ensures Reaches(c, s, n) && |n.tasks| == |m.tasks| && n.tasks[u].Finalizing?
    ensures n.pool == [] && n.guard.None? && n.holder == m.holder - {m.tasks[t].ws}
    ensures n.built == m.built && n.finalized == m.finalized
    ensures forall v :: 0 <= v < |m.tasks| && v != t && v != u ==> n.tasks[v] == m.tasks[v]
  {
    ReachesNext(c, s, m, t, true);
    var k := Next(c, m, t, true);
    assert k.pool == [Entry(m.tasks[t].ws, m.tasks[t].instance)];
    ReachesNext(c, s, k, u, true);
    n := Next(c, k, u, true);
  }

  lemma BuildOnEmptyPool(c: Config, s: State, m: State, t: nat) returns (n: State)
    requires c.limit >= 1 && c.enabled && Reaches(c, s, m) && t < |m.tasks| && m.tasks[t].Entering?
    requires m.guard.None? && m.tasks[t].ws !in m.holder && m.pool == []
    ensures Reaches(c, s, n) && |n.tasks| == |m.tasks|
    ensures n.built == m.built + [m.tasks[t].ws] && n.finalized == m.finalized && n.pool == []
    ensures n.tasks[t] == Inserting(m.tasks[t].ws, |m.built|) && n.guard.None?
    ensures n.holder == m.holder[m.tasks[t].ws := t]
    ensures forall u :: 0 <= u < |m.tasks| && u != t ==> n.tasks[u] == m.tasks[u]
  {
    ReachesNext(c, s, m, t, true);
    var s1 := Next(c, m, t, true);
    assert s1.tasks[t].AwaitingLock?;
    ReachesNext(c, s, s1, t, true);
    var s2 := Next(c, s1, t, true);
    assert s2.tasks[t].Rechecking?;
    ReachesNext(c, s, s2, t, true);
    var s3 := Next(c, s2, t, true);
    assert s3.tasks[t].Building?;
    ReachesNext(c, s, s3, t, true);
    n := Next(c, s3, t, true);
  }

  /** `close` does not release every instance: one whose build is in flight when the pool
      is emptied is inserted afterwards and stays open after every task has finished. */
  lemma CloseMissesBuildInFlight() returns (c: Config, tasks: seq<Task>, s: State)
    ensures Startable(c, tasks) && Reaches(c, Initial(tasks), s)
    ensures Stuck(c, s) && s.tasks == [Returned("a", 0), Closed] && Open(s, 0)
  {
    c, tasks := Config(true, 1), [Entering("a"), Closing];
    var s0 := Initial(tasks);
    ReachesStart(c, s0);
    var s1 := BuildOnEmptyPool(c, s0, s0, 0);
    assert s1.built == ["a"] && s1.tasks[1] == Closing;
    ReachesNext(c, s0, s1, 1, true);
    var s2 := Next(c, s1, 1, true);
    assert s2.tasks == [Inserting("a", 0), Closed];
    ReachesNext(c, s0, s2, 0, true);
    s := Next(c, s2, 0, true);
    assert s.tasks == [Returned("a", 0), Closed];
  }
}
