/** What holds over whole runs of the pool protocol: safety in every interleaving,
    conservation of instances, freedom from deadlock and termination. */
module PoolRuns {
  import opened Common
  import opened LruPool
  import opened PoolProtocol

  /** One scheduling decision: which task steps, and how a build that ends here ends. */
  datatype Tick = Tick(task: nat, ok: bool)

  ghost predicate Legal(c: Config, s: State, run: seq<Tick>)
    requires c.limit >= 1
    decreases |run|
  {
    run == [] ||
    (CanStep(c, s, run[0].task) && Legal(c, Next(c, s, run[0].task, run[0].ok), run[1..]))
  }

  ghost function Exec(c: Config, s: State, run: seq<Tick>): State
    requires c.limit >= 1 && Legal(c, s, run)
    decreases |run|
  {
    if run == [] then s else Exec(c, Next(c, s, run[0].task, run[0].ok), run[1..])
  }

  ghost predicate Startable(c: Config, tasks: seq<Task>) {
    c.limit >= 1 && forall t :: 0 <= t < |tasks| ==> Fresh(tasks[t])
  }

  lemma {:induction false} ExecInv(c: Config, s: State, run: seq<Tick>)
    requires Inv(c, s) && Legal(c, s, run)
    ensures Inv(c, Exec(c, s, run))
    decreases |run|
  {
    if run != [] {
      NextInv(c, s, run[0].task, run[0].ok);
      ExecInv(c, Next(c, s, run[0].task, run[0].ok), run[1..]);
    }
  }

  /** Every reachable state of every run, with any number of gets and closes. */
  lemma Reachable(c: Config, tasks: seq<Task>, run: seq<Tick>)
    requires Startable(c, tasks) && Legal(c, Initial(tasks), run)
    ensures Inv(c, Exec(c, Initial(tasks), run))
  {
    InitialInv(c, tasks);
    ExecInv(c, Initial(tasks), run);
  }

  // ----- safety -----

  /** Instance `i` is built and finalize_storages has not been called on it. */
  predicate Open(s: State, i: nat) {
    i < |s.built| && i !in s.finalized
  }

  predicate CloseInProgress(s: State) {
    exists t :: 0 <= t < |s.tasks| && s.tasks[t].Finalizing?
  }

  /** A close has taken instance `i` out of the pool and not yet reached it. */
  ghost predicate BeingClosed(s: State, i: nat) {
    exists t :: 0 <= t < |s.tasks| && s.tasks[t].Finalizing? &&
                exists e :: e in s.tasks[t].pending && e.instance == i
  }

  /** Two open instances of one workspace never coexist unless a close that is still
      finalizing holds one of them. */
  lemma OneOpenInstancePerWorkspace(c: Config, tasks: seq<Task>, run: seq<Tick>)
    requires Startable(c, tasks) && Legal(c, Initial(tasks), run)
    ensures var s := Exec(c, Initial(tasks), run);
            forall i, j :: 0 <= i < j < |s.built| && s.built[i] == s.built[j] && Open(s, i) && Open(s, j) ==>
              BeingClosed(s, i) || BeingClosed(s, j)
    ensures var s := Exec(c, Initial(tasks), run);
            !CloseInProgress(s) ==>
              forall i, j :: 0 <= i < j < |s.built| && Open(s, i) && Open(s, j) ==> s.built[i] != s.built[j]
  {
    Reachable(c, tasks, run);
    var s := Exec(c, Initial(tasks), run);
    forall i, j | 0 <= i < j < |s.built| && s.built[i] == s.built[j] && Open(s, i) && Open(s, j)
      ensures BeingClosed(s, i) || BeingClosed(s, j)
    {
      assert PlaceOk(s, i) && PlaceOk(s, j);
      var k := if Live(s.place[i]) then j else i;
      var own := Entry(s.built[k], k);
      assert own in s.tasks[s.place[k].task].pending && own.instance == k;
    }
  }

  /** Where instance `i` is, read off the real state alone. */
  ghost predicate IsAt(s: State, i: nat, p: Place) {
    i < |s.built| &&
    match p
    case WithBuilder(t) => t < |s.tasks| && s.tasks[t].Inserting? && s.tasks[t].instance == i
    case InPool => exists e :: e in s.pool && e.instance == i
    case WithEvictor(t) => t < |s.tasks| && s.tasks[t].Evicting? && s.tasks[t].victim.instance == i
    case WithCloser(t) =>
      t < |s.tasks| && s.tasks[t].Finalizing? && exists e :: e in s.tasks[t].pending && e.instance == i
    case Finalized => i in s.finalized
  }

  ghost predicate Somewhere(s: State, i: nat) {
    exists p :: IsAt(s, i, p)
  }

  /** Conservation: in every reachable state each built instance is in exactly one place,
      is finalized at most once, and is never dropped; the ceiling holds at every await. */
  lemma InstancesAreConserved(c: Config, tasks: seq<Task>, run: seq<Tick>)
    requires Startable(c, tasks) && Legal(c, Initial(tasks), run)
    ensures var s := Exec(c, Initial(tasks), run);
            && (forall i: nat :: i < |s.built| ==> Somewhere(s, i))
            && (forall i: nat, p, q :: IsAt(s, i, p) && IsAt(s, i, q) ==> p == q)
            && NoDup(s.finalized) && NoDup(s.pool) && |s.pool| <= c.limit
  {
    Reachable(c, tasks, run);
    var s := Exec(c, Initial(tasks), run);
    forall i: nat | i < |s.built| ensures Somewhere(s, i) {
      assert PlaceOk(s, i);
      var own := Entry(s.built[i], i);
      assert own.instance == i;
      assert IsAt(s, i, s.place[i]);
    }
    forall i: nat, p | IsAt(s, i, p) ensures p == s.place[i] {
      PlaceIsExact(c, s, i, p);
    }
  }

  lemma PlaceIsExact(c: Config, s: State, i: nat, p: Place)
    requires Inv(c, s) && IsAt(s, i, p)
    ensures s.place[i] == p
  {
    match p
    case WithBuilder(t) => assert TaskOk(s, t);
    case WithEvictor(t) => assert TaskOk(s, t);
    case WithCloser(t) =>
      assert TaskOk(s, t);
      var e :| e in s.tasks[t].pending && e.instance == i;
      assert EntryAt(s, e, WithCloser(t));
    case InPool =>
      var e :| e in s.pool && e.instance == i;
      assert EntryAt(s, e, InPool);
    case Finalized =>
  }

  /** An insertion makes its own entry the newest, evicts nothing below the ceiling and
      exactly the oldest other entry at it; the eviction loop never runs twice. */
  lemma InsertionEvictsAtMostOne(c: Config, s: State, t: nat, ok: bool)
    requires Inv(c, s) && CanStep(c, s, t) && s.tasks[t].Inserting?
    ensures var ws, i := s.tasks[t].ws, s.tasks[t].instance;
            var own, n := Entry(ws, i), Next(c, s, t, ok);
            && |s.pool + [own]| <= c.limit + 1
            && if |s.pool| < c.limit then
                 n.tasks[t] == Returned(ws, i) && n.pool == s.pool + [own] && n.guard.None?
               else
                 && n.tasks[t] == Evicting(ws, i, s.pool[0]) && s.pool[0].workspace != ws
                 && n.pool == s.pool[1..] + [own]
                 && Next(c, n, t, ok).tasks[t] == Returned(ws, i)
                 && Next(c, n, t, ok).pool == n.pool
                 && Next(c, n, t, ok).finalized == s.finalized + [s.pool[0].instance]
  {
    InsertionFindsNothing(c, s, t);
    NextInv(c, s, t, ok);
  }

  lemma ReturnedIsInPool(c: Config, s: State, t: nat, ok: bool)
    requires Inv(c, s) && CanStep(c, s, t) && Next(c, s, t, ok).tasks[t].Returned?
    ensures var n := Next(c, s, t, ok);
            Entry(n.tasks[t].ws, n.tasks[t].instance) in n.pool && n.tasks[t].ws == s.tasks[t].ws
  {
    assert TaskOk(s, t);
    if s.tasks[t].Inserting? {
      InsertionFindsNothing(c, s, t);
    }
  }

  /** The instance a get returns is resident when it returns and belongs to the
      workspace that was asked for. */
  lemma ReturnedIsResident(c: Config, s: State, t: nat, ok: bool)
    requires Inv(c, s) && CanStep(c, s, t) && Next(c, s, t, ok).tasks[t].Returned?
    ensures var n := Next(c, s, t, ok);
            && Entry(n.tasks[t].ws, n.tasks[t].instance) in n.pool
            && n.tasks[t].ws == s.tasks[t].ws
            && n.tasks[t].instance < |n.built| && n.built[n.tasks[t].instance] == s.tasks[t].ws
            && Open(n, n.tasks[t].instance)
  {
    var n := Next(c, s, t, ok);
    ReturnedIsInPool(c, s, t, ok);
    NextInv(c, s, t, ok);
    ResidentIsOpen(c, n, Entry(n.tasks[t].ws, n.tasks[t].instance));
  }

  lemma ResidentIsOpen(c: Config, s: State, e: Entry)
    requires Inv(c, s) && e in s.pool
    ensures e.instance < |s.built| && s.built[e.instance] == e.workspace && Open(s, e.instance)
  {
    assert EntryAt(s, e, InPool);
  }

  /** Recency under concurrency: a hit on the first check protects the entry from the next
      insertion, a hit on the second check does not; an instance that was just returned
      by the second check can be the very next one evicted. */
  lemma OnlyFirstCheckRefreshes(c: Config, s: State, t: nat, u: nat, ok: bool)
    requires Inv(c, s) && c.enabled && c.limit >= 2 && |s.pool| == c.limit && s.guard.None?
    requires t < |s.tasks| && (s.tasks[t].Entering? || s.tasks[t].Rechecking?)
    requires s.tasks[t].ws == s.pool[0].workspace
    requires u < |s.tasks| && s.tasks[u].Inserting?
    ensures var n := Next(c, s, t, ok);
            && n.tasks[t] == Returned(s.pool[0].workspace, s.pool[0].instance)
            && CanStep(c, n, u) && Next(c, n, u, ok).tasks[u].Evicting?
            && (Next(c, n, u, ok).tasks[u].victim == s.pool[0] <==> s.tasks[t].Rechecking?)
  {
    var first := s.pool[0];
    assert EntryAt(s, first, InPool);
    var i := Lookup(s.pool, first.workspace).value;
    assert EntryAt(s, Entry(first.workspace, i), InPool);
    var n := Next(c, s, t, ok);
    NextInv(c, s, t, ok);
    InsertionFindsNothing(c, n, u);
    InsertionEvictsAtMostOne(c, n, u, ok);
    if s.tasks[t].Entering? {
      forall e | e in s.pool && e.workspace == first.workspace ensures e.instance == i {
        assert EntryAt(s, e, InPool);
      }
      PutLastMembers(s.pool, first.workspace, i);
      assert n.pool[|n.pool| - 1] == first && n.pool[0] != first;
    }
  }

  // ----- liveness -----

  /** No deadlock: while a task is unfinished some task can step. The guard is only ever
      held by a task that is evicting, which waits for no lock. */
  lemma SomeTaskCanStep(c: Config, s: State)
    requires Inv(c, s) && exists t :: 0 <= t < |s.tasks| && !Finished(s.tasks[t])
    ensures exists t :: CanStep(c, s, t)
  {
    if s.guard.Some? {
      assert CanStep(c, s, s.guard.value);
    } else {
      var t :| 0 <= t < |s.tasks| && !Finished(s.tasks[t]);
      if !CanStep(c, s, t) {
        var h := s.holder[s.tasks[t].ws];
        assert CanStep(c, s, h);
      }
    }
  }

  /** An upper bound on the steps a task can still take. */
  function Rank(c: Config, task: Task): nat {
    match task
    case Entering(_) => 6
    case AwaitingLock(_) => 5
    case Rechecking(_) => 4
    case Building(_) => 3
    case Inserting(_, _) => 2
    case Evicting(_, _, _) => 1
    case Closing => c.limit + 1
    case Finalizing(pending) => |pending|
    case _ => 0
  }

  function TotalRank(c: Config, tasks: seq<Task>): nat {
    if tasks == [] then 0 else Rank(c, tasks[0]) + TotalRank(c, tasks[1..])
  }

  lemma {:induction false} TotalRankUpdate(c: Config, tasks: seq<Task>, t: nat, task: Task)
    requires t < |tasks|
    ensures TotalRank(c, tasks[t := task]) == TotalRank(c, tasks) - Rank(c, tasks[t]) + Rank(c, task)
  {
    if t > 0 {
      TotalRankUpdate(c, tasks[1..], t - 1, task);
      assert tasks[t := task][1..] == tasks[1..][t - 1 := task];
    } else {
      assert tasks[t := task][1..] == tasks[1..];
    }
  }

  lemma OnlyOwnTask(c: Config, s: State, t: nat, ok: bool)
    requires c.limit >= 1 && CanStep(c, s, t)
    ensures |Next(c, s, t, ok).tasks| == |s.tasks|
    ensures Next(c, s, t, ok).tasks == s.tasks[t := Next(c, s, t, ok).tasks[t]]
  {
  }

  lemma RankDrops(c: Config, s: State, t: nat, ok: bool)
    requires Inv(c, s) && CanStep(c, s, t)
    ensures |Next(c, s, t, ok).tasks| == |s.tasks| && Rank(c, Next(c, s, t, ok).tasks[t]) < Rank(c, s.tasks[t])
  {
    assert TaskOk(s, t);
  }

  lemma EveryStepDecreases(c: Config, s: State, t: nat, ok: bool)
    requires Inv(c, s) && CanStep(c, s, t)
    ensures TotalRank(c, Next(c, s, t, ok).tasks) < TotalRank(c, s.tasks)
  {
    OnlyOwnTask(c, s, t, ok);
    RankDrops(c, s, t, ok);
    TotalRankUpdate(c, s.tasks, t, Next(c, s, t, ok).tasks[t]);
  }

  lemma {:induction false} RunsAreBounded(c: Config, s: State, run: seq<Tick>)
    requires Inv(c, s) && Legal(c, s, run)
    ensures |run| + TotalRank(c, Exec(c, s, run).tasks) <= TotalRank(c, s.tasks)
    decreases |run|
  {
    if run != [] {
      var n := Next(c, s, run[0].task, run[0].ok);
      NextInv(c, s, run[0].task, run[0].ok);
      EveryStepDecreases(c, s, run[0].task, run[0].ok);
      RunsAreBounded(c, n, run[1..]);
    }
  }

  ghost predicate Stuck(c: Config, s: State) {
    forall t :: !CanStep(c, s, t)
  }

  /** Termination: a run has at most six steps per get and `limit + 1` per close, and a
      run that cannot be extended has finished every task, released every lock and left
      every open instance in the pool, whichever builds failed. */
  lemma EveryRunEnds(c: Config, tasks: seq<Task>, run: seq<Tick>)
    requires Startable(c, tasks) && Legal(c, Initial(tasks), run)
    ensures |run| <= TotalRank(c, tasks) <= |tasks| * (c.limit + 6)
    ensures var s := Exec(c, Initial(tasks), run);
            Stuck(c, s) ==>
              && (forall t :: 0 <= t < |s.tasks| ==> Finished(s.tasks[t]))
              && s.holder == map[] && s.guard.None?
              && (forall i: nat :: Open(s, i) <==> i < |s.built| && Entry(s.built[i], i) in s.pool)
  {
    InitialInv(c, tasks);
    RunsAreBounded(c, Initial(tasks), run);
    RankBound(c, tasks);
    Reachable(c, tasks, run);
    var s := Exec(c, Initial(tasks), run);
    if Stuck(c, s) {
      if exists t :: 0 <= t < |s.tasks| && !Finished(s.tasks[t]) {
        SomeTaskCanStep(c, s);
        assert false;
      }
      Quiet(c, s);
    }
  }

  /** Task `t` steps out of `_build` with an exception somewhere in the run. */
  ghost predicate BuildFails(c: Config, s: State, run: seq<Tick>, t: nat)
    requires c.limit >= 1 && Legal(c, s, run) && t < |s.tasks|
    decreases |run|
  {
    run != [] && (|| (run[0].task == t && s.tasks[t].Building? && !run[0].ok)
                  || BuildFails(c, Next(c, s, run[0].task, run[0].ok), run[1..], t))
  }

  predicate IsGet(task: Task) {
    !task.Closing? && !task.Finalizing? && !task.Closed?
  }

  /** What any one step does to a get `t`. */
  lemma GetStep(c: Config, s: State, u: nat, ok: bool, t: nat)
    requires Inv(c, s) && CanStep(c, s, u) && t < |s.tasks| && IsGet(s.tasks[t])
    ensures var n, here := Next(c, s, u, ok), s.tasks[t];
            && |n.tasks| == |s.tasks| && IsGet(n.tasks[t]) && n.tasks[t].ws == here.ws
            && (Finished(here) ==> u != t && n.tasks[t] == here)
            && (!Finished(here) && c.enabled ==> (n.tasks[t].Raised? <==> u == t && here.Building? && !ok))
            && (here.Entering? && !c.enabled ==> n.tasks[t].Entering? || n.tasks[t].Raised?)
  {
    if u != t {
      assert Next(c, s, u, ok).tasks[t] == s.tasks[t];
    }
  }

  /** A get keeps its workspace, and raises exactly when the pool is disabled or its own
      build fails. */
  lemma {:induction false} GetIsServed(c: Config, s: State, run: seq<Tick>, t: nat)
    requires Inv(c, s) && Legal(c, s, run) && t < |s.tasks| && IsGet(s.tasks[t])
    ensures var n, here := Exec(c, s, run), s.tasks[t];
            && |n.tasks| == |s.tasks| && IsGet(n.tasks[t]) && n.tasks[t].ws == here.ws
            && (Finished(here) ==> n.tasks[t] == here && !BuildFails(c, s, run, t))
            && (!Finished(here) && c.enabled ==> (n.tasks[t].Raised? <==> BuildFails(c, s, run, t)))
            && (here.Entering? && !c.enabled ==> n.tasks[t].Entering? || n.tasks[t].Raised?)
    decreases |run|
  {
    if run != [] {
      NextInv(c, s, run[0].task, run[0].ok);
      GetStep(c, s, run[0].task, run[0].ok, t);
      GetIsServed(c, Next(c, s, run[0].task, run[0].ok), run[1..], t);
    }
  }

  /** Every get of every complete run, whatever other builds and closes do: it raises if
      and only if the pool is disabled or its own build failed, and otherwise has returned
      an instance that was built for its workspace. */
  lemma EveryGetIsAnswered(c: Config, tasks: seq<Task>, run: seq<Tick>, t: nat)
    requires Startable(c, tasks) && Legal(c, Initial(tasks), run) && Stuck(c, Exec(c, Initial(tasks), run))
    requires t < |tasks| && tasks[t].Entering?
    ensures var s := Exec(c, Initial(tasks), run);
            |s.tasks| == |tasks| &&
            if !c.enabled || BuildFails(c, Initial(tasks), run, t) then s.tasks[t] == Raised(tasks[t].ws)
            else s.tasks[t].Returned? && s.tasks[t].instance < |s.built|
                 && s.built[s.tasks[t].instance] == s.tasks[t].ws == tasks[t].ws
  {
    InitialInv(c, tasks);
    EveryRunEnds(c, tasks, run);
    GetIsServed(c, Initial(tasks), run, t);
    Reachable(c, tasks, run);
    assert TaskOk(Exec(c, Initial(tasks), run), t);
  }

  lemma {:induction false} RankBound(c: Config, tasks: seq<Task>)
    requires c.limit >= 1 && forall t :: 0 <= t < |tasks| ==> Fresh(tasks[t])
    ensures TotalRank(c, tasks) <= |tasks| * (c.limit + 6)
  {
    if tasks != [] {
      RankBound(c, tasks[1..]);
    }
  }

  /** When every task has finished nothing is held, so nothing can block a later get. */
  lemma Quiet(c: Config, s: State)
    requires Inv(c, s) && forall t :: 0 <= t < |s.tasks| ==> Finished(s.tasks[t])
    ensures s.holder == map[] && s.guard.None?
    ensures forall i: nat :: Open(s, i) <==> i < |s.built| && Entry(s.built[i], i) in s.pool
  {
    forall i: nat ensures Open(s, i) <==> i < |s.built| && Entry(s.built[i], i) in s.pool {
      if i < |s.built| {
        assert PlaceOk(s, i);
        if Entry(s.built[i], i) in s.pool {
          assert EntryAt(s, Entry(s.built[i], i), InPool);
        }
      }
    }
  }

  // ----- one get alone -----

  lemma {:induction false} RunExtends(c: Config, s: State, run: seq<Tick>, t: nat, ok: bool)
    requires c.limit >= 1 && Legal(c, s, run) && CanStep(c, Exec(c, s, run), t)
    ensures Legal(c, s, run + [Tick(t, ok)])
    ensures Exec(c, s, run + [Tick(t, ok)]) == Next(c, Exec(c, s, run), t, ok)
    decreases |run|
  {
    var longer := run + [Tick(t, ok)];
    if run == [] {
      assert longer == [Tick(t, ok)] && longer[1..] == [];
    } else {
      assert longer[1..] == run[1..] + [Tick(t, ok)];
      RunExtends(c, Next(c, s, run[0].task, run[0].ok), run[1..], t, ok);
    }
  }

  /** Reachability by a legal run. */
  ghost predicate Reaches(c: Config, s: State, n: State)
    requires c.limit >= 1
  {
    exists run :: Legal(c, s, run) && Exec(c, s, run) == n
  }

  lemma ReachesStart(c: Config, s: State)
    requires c.limit >= 1
    ensures Reaches(c, s, s)
  {
    assert Legal(c, s, []) && Exec(c, s, []) == s;
  }

  lemma ReachesNext(c: Config, s: State, m: State, t: nat, ok: bool)
    requires c.limit >= 1 && Reaches(c, s, m) && CanStep(c, m, t)
    ensures Reaches(c, s, Next(c, m, t, ok))
  {
    var run :| Legal(c, s, run) && Exec(c, s, run) == m;
    RunExtends(c, s, run, t, ok);
  }

  /** One get that runs from its first check to its end without another task stepping. */
  ghost predicate RunsAlone(c: Config, s: State, t: nat, ws: Workspace, o: Outcome, n: State)
    requires c.limit >= 1
  {
    && Reaches(c, s, n) && t < |s.tasks|
    && n.tasks == s.tasks[t := if o.returned.Some? then Returned(ws, o.returned.value) else Raised(ws)]
    && n.pool == o.pool && n.finalized == s.finalized + o.finalized
    && n.holder == s.holder && n.guard.None?
  }

  /** The protocol refines the sequential pool: from any reachable state in which neither
      the guard nor the workspace lock is held, a get that runs alone does exactly what
      the sequential `get` does. In particular a build that failed earlier does not make
      a later get fail. */
  lemma AloneIsSequential(c: Config, s: State, t: nat, ok: bool) returns (n: State)
    requires Inv(c, s) && c.enabled && s.guard.None?
    requires t < |s.tasks| && s.tasks[t].Entering? && s.tasks[t].ws !in s.holder
    ensures var ws := s.tasks[t].ws;
            RunsAlone(c, s, t, ws, AfterGet(c.limit, s.pool, ws, if ok then Some(|s.built|) else None), n)
  {
    var ws := s.tasks[t].ws;
    ReachesStart(c, s);
    n := Next(c, s, t, ok);
    ReachesNext(c, s, s, t, ok);
    if Lookup(s.pool, ws).None? {
      n := AloneToBuild(c, s, n, t, ok);
      if ok {
        n := AloneFromBuild(c, s, n, t);
      } else {
        n := AloneBuildFails(c, s, n, t);
      }
    }
  }

  lemma AloneBuildFails(c: Config, s: State, m: State, t: nat) returns (n: State)
    requires 1 <= c.limit && t < |s.tasks| && s.tasks[t].Entering? && s.guard.None?
    requires s.tasks[t].ws !in s.holder && Lookup(s.pool, s.tasks[t].ws).None?
    requires var ws := s.tasks[t].ws;
             Reaches(c, s, m) && m == At(s, t, Building(ws)).(holder := s.holder[ws := t])
    ensures RunsAlone(c, s, t, s.tasks[t].ws, AfterGet(c.limit, s.pool, s.tasks[t].ws, None), n)
  {
    n := Next(c, m, t, false);
    ReachesNext(c, s, m, t, false);
    assert n.tasks == s.tasks[t := Raised(s.tasks[t].ws)];
    assert n.holder == s.holder;
  }

  lemma AloneFromBuild(c: Config, s: State, m: State, t: nat) returns (n: State)
    requires 1 <= c.limit && |s.pool| <= c.limit && t < |s.tasks| && s.tasks[t].Entering? && s.guard.None?
    requires s.tasks[t].ws !in s.holder && Lookup(s.pool, s.tasks[t].ws).None?
    requires var ws := s.tasks[t].ws;
             Reaches(c, s, m) && m == At(s, t, Building(ws)).(holder := s.holder[ws := t])
    ensures var ws := s.tasks[t].ws;
            RunsAlone(c, s, t, ws, AfterGet(c.limit, s.pool, ws, Some(|s.built|)), n)
  {
    var ws, i := s.tasks[t].ws, |s.built|;
    var k := Next(c, m, t, true);
    ReachesNext(c, s, m, t, true);
    assert k.tasks == s.tasks[t := Inserting(ws, i)];
    ReachesNext(c, s, k, t, true);
    n := Next(c, k, t, true);
    FilterKeepsAll(s.pool, NotOf(ws));
    assert PutLast(s.pool, ws, i) == s.pool + [Entry(ws, i)];
    assert k.holder - {ws} == s.holder;
    if |s.pool| == c.limit {
      n := AloneEviction(c, s, n, t, ws, i);
    } else {
      assert n.tasks == s.tasks[t := Returned(ws, i)];
      var grown := s.pool + [Entry(ws, i)];
      assert grown[0..] == grown && Instances(grown[..0]) == [];
    }
  }

  lemma AloneEviction(c: Config, s: State, e: State, t: nat, ws: Workspace, i: nat) returns (n: State)
    requires 1 <= c.limit == |s.pool| && t < |s.tasks| && Lookup(s.pool, ws).None?
    requires Reaches(c, s, e) && e.tasks == s.tasks[t := Evicting(ws, i, s.pool[0])]
    requires e.pool == (s.pool + [Entry(ws, i)])[1..] && e.finalized == s.finalized && e.holder - {ws} == s.holder
    ensures RunsAlone(c, s, t, ws, AfterGet(c.limit, s.pool, ws, Some(i)), n)
  {
    ReachesNext(c, s, e, t, true);
    n := Next(c, e, t, true);
    FilterKeepsAll(s.pool, NotOf(ws));
    var grown := s.pool + [Entry(ws, i)];
    assert PutLast(s.pool, ws, i) == grown;
    assert Instances(grown[..1]) == [s.pool[0].instance];
    assert n.tasks == s.tasks[t := Returned(ws, i)];
  }

  lemma AloneToBuild(c: Config, s: State, m: State, t: nat, ok: bool) returns (n: State)
    requires c.limit >= 1 && t < |s.tasks| && s.tasks[t].Entering? && s.guard.None?
    requires s.tasks[t].ws !in s.holder && Lookup(s.pool, s.tasks[t].ws).None?
    requires Reaches(c, s, m) && m == At(s, t, AwaitingLock(s.tasks[t].ws))
    ensures var ws := s.tasks[t].ws;
            Reaches(c, s, n) && n == At(s, t, Building(ws)).(holder := s.holder[ws := t])
  {
    n := Next(c, m, t, ok);
    ReachesNext(c, s, m, t, ok);
    var k := n;
    n := Next(c, n, t, ok);
    ReachesNext(c, s, k, t, ok);
    assert n.tasks == s.tasks[t := Building(s.tasks[t].ws)];
  }
}
