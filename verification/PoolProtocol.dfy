/** `GraphPool` under concurrency: any number of `get` and `close` tasks on one event
    loop. Code between two awaits runs without interruption, so one step of a task is
    the code from one await to the next; a task that waits for a lock steps when it
    acquires it. Leaving an `async with` is not an await. */
module PoolProtocol {
  import opened Common
  import opened LruPool

  datatype Config = Config(enabled: bool, limit: nat)

  datatype Task =
    | Entering(ws: Workspace)                              // about to take the guard
    | AwaitingLock(ws: Workspace)                          // missed; wants the workspace lock
    | Rechecking(ws: Workspace)                            // has the lock, wants the guard
    | Building(ws: Workspace)                              // inside _build
    | Inserting(ws: Workspace, instance: nat)              // built; wants the guard
    | Evicting(ws: Workspace, instance: nat, victim: Entry) // has the guard, finalizing
    | Returned(ws: Workspace, instance: nat)
    | Raised(ws: Workspace)
    | Closing                                              // close(), wants the guard
    | Finalizing(pending: seq<Entry>)                      // close(), finalizing pending[0]
    | Closed

  /** Where a built instance is. `place` below is a history variable: no step reads it. */
  datatype Place = WithBuilder(task: nat) | InPool | WithEvictor(task: nat) | WithCloser(task: nat) | Finalized

  datatype State = State(
    tasks: seq<Task>,
    pool: seq<Entry>,
    holder: map<Workspace, nat>,   // workspace locks that are held, and by which task
    guard: Option<nat>,            // the task that holds the guard across an await
    built: seq<Workspace>,         // instance number -> the workspace it was built for
    finalized: seq<nat>,           // calls of finalize_storages, in order
    place: seq<Place>)

  function Initial(tasks: seq<Task>): State {
    State(tasks, [], map[], None, [], [], [])
  }

  predicate Fresh(task: Task) {
    task.Entering? || task.Closing?
  }

  predicate Finished(task: Task) {
    task.Returned? || task.Raised? || task.Closed?
  }

  predicate HoldsLock(task: Task) {
    task.Rechecking? || task.Building? || task.Inserting? || task.Evicting?
  }

  // ----- steps -----

  predicate CanStep(c: Config, s: State, t: nat) {
    t < |s.tasks| &&
    match s.tasks[t]
    case Entering(_) => !c.enabled || s.guard.None?
    case AwaitingLock(ws) => ws !in s.holder
    case Rechecking(_) => s.guard.None?
    case Building(_) => true
    case Inserting(_, _) => s.guard.None?
    case Evicting(_, _, _) => true
    case Closing => s.guard.None?
    case Finalizing(_) => true
    case _ => false
  }

  function At(s: State, t: nat, task: Task): State
    requires t < |s.tasks|
  {
    s.(tasks := s.tasks[t := task])
  }

  /** The eviction loop up to its next await, run by task `t` with the guard held. */
  function EvictIfNeeded(c: Config, s: State, t: nat, ws: Workspace, i: nat): State
    requires t < |s.tasks| && c.limit >= 1
  {
    if |s.pool| > c.limit then
      var victim := s.pool[0];
      At(s, t, Evicting(ws, i, victim))
        .(pool := s.pool[1..], guard := Some(t), place := Moved(s.place, victim.instance, WithEvictor(t)))
    else
      At(s, t, Returned(ws, i)).(guard := None, holder := s.holder - {ws})
  }

  function Moved(place: seq<Place>, i: nat, p: Place): seq<Place> {
    if i < |place| then place[i := p] else place
  }

  /** `close` takes every resident instance at once. */
  function Taken(place: seq<Place>, t: nat): (r: seq<Place>)
    ensures |r| == |place|
    ensures forall i :: 0 <= i < |r| ==> r[i] == if place[i] == InPool then WithCloser(t) else place[i]
  {
    seq(|place|, i requires 0 <= i < |place| => if place[i] == InPool then WithCloser(t) else place[i])
  }

  function CloserOf(pending: seq<Entry>): Task {
    if pending == [] then Closed else Finalizing(pending)
  }

  /** One step of task `t`; `ok` says whether a build that ends here succeeds. An
      exception from finalize_storages is swallowed and changes nothing else. */
  function Next(c: Config, s: State, t: nat, ok: bool): State
    requires c.limit >= 1 && CanStep(c, s, t)
  {
    match s.tasks[t]
    case Entering(ws) =>
      if !c.enabled then At(s, t, Raised(ws)) else
      (match Lookup(s.pool, ws)
       case Some(i) => At(s, t, Returned(ws, i)).(pool := PutLast(s.pool, ws, i))
       case None => At(s, t, AwaitingLock(ws)))
    case AwaitingLock(ws) => At(s, t, Rechecking(ws)).(holder := s.holder[ws := t])
    case Rechecking(ws) =>
      (match Lookup(s.pool, ws)
       case Some(i) => At(s, t, Returned(ws, i)).(holder := s.holder - {ws})
       case None => At(s, t, Building(ws)))
    case Building(ws) =>
      if ok then
        At(s, t, Inserting(ws, |s.built|)).(built := s.built + [ws], place := s.place + [WithBuilder(t)])
      else
        At(s, t, Raised(ws)).(holder := s.holder - {ws})
    case Inserting(ws, i) =>
      EvictIfNeeded(c, s.(pool := PutLast(s.pool, ws, i), place := Moved(s.place, i, InPool)), t, ws, i)
    case Evicting(ws, i, victim) =>
      EvictIfNeeded(c, s.(finalized := s.finalized + [victim.instance],
                          place := Moved(s.place, victim.instance, Finalized)), t, ws, i)
    case Closing => At(s, t, CloserOf(s.pool)).(pool := [], place := Taken(s.place, t))
    case Finalizing(pending) =>
      if pending == [] then At(s, t, Closed) else
      At(s, t, CloserOf(pending[1..])).(finalized := s.finalized + [pending[0].instance],
                                        place := Moved(s.place, pending[0].instance, Finalized))
  }

  // ----- the inductive invariant -----

  ghost predicate EntryAt(s: State, e: Entry, p: Place)
    requires |s.place| == |s.built|
  {
    e.instance < |s.built| && s.built[e.instance] == e.workspace && s.place[e.instance] == p
  }

  predicate Live(p: Place) {
    p.WithBuilder? || p.InPool? || p.WithEvictor?
  }

  ghost predicate TaskOk(s: State, t: nat)
    requires t < |s.tasks| && |s.place| == |s.built|
  {
    && (HoldsLock(s.tasks[t]) ==> s.tasks[t].ws in s.holder && s.holder[s.tasks[t].ws] == t)
    && match s.tasks[t]
       case Building(ws) => forall i :: 0 <= i < |s.built| && Live(s.place[i]) ==> s.built[i] != ws
       case Inserting(ws, i) => EntryAt(s, Entry(ws, i), WithBuilder(t))
       case Evicting(ws, i, victim) =>
         && EntryAt(s, victim, WithEvictor(t)) && s.guard == Some(t)
         && Entry(ws, i) in s.pool
       case Returned(ws, i) => i < |s.built| && s.built[i] == ws
       case Finalizing(pending) =>
         && pending != [] && NoDup(pending)
         && forall e :: e in pending ==> EntryAt(s, e, WithCloser(t))
       case _ => true
  }

  ghost predicate PlaceOk(s: State, i: nat)
    requires i < |s.built| == |s.place|
  {
    match s.place[i]
    case WithBuilder(t) => t < |s.tasks| && s.tasks[t] == Inserting(s.built[i], i)
    case InPool => Entry(s.built[i], i) in s.pool
    case WithEvictor(t) =>
      t < |s.tasks| && s.tasks[t].Evicting? && s.tasks[t].victim == Entry(s.built[i], i)
    case WithCloser(t) =>
      t < |s.tasks| && s.tasks[t].Finalizing? && Entry(s.built[i], i) in s.tasks[t].pending
    case Finalized => i in s.finalized
  }

  /** At most one live instance per workspace. */
  ghost predicate OneLive(s: State)
    requires |s.place| == |s.built|
  {
    forall i, j :: 0 <= i < j < |s.built| && Live(s.place[i]) && Live(s.place[j]) ==> s.built[i] != s.built[j]
  }

  ghost predicate Inv(c: Config, s: State) {
    && c.limit >= 1
    && |s.place| == |s.built|
    && (forall t :: 0 <= t < |s.tasks| ==> TaskOk(s, t))
    && (forall i :: 0 <= i < |s.built| ==> PlaceOk(s, i))
    && OneLive(s)
    && (forall e :: e in s.pool ==> EntryAt(s, e, InPool))
    && NoDup(s.pool) && |s.pool| <= c.limit
    && (forall ws :: ws in s.holder ==>
          s.holder[ws] < |s.tasks| && HoldsLock(s.tasks[s.holder[ws]]) && s.tasks[s.holder[ws]].ws == ws)
    && (s.guard.Some? ==> s.guard.value < |s.tasks| && s.tasks[s.guard.value].Evicting?)
    && NoDup(s.finalized)
    && (forall i :: i in s.finalized ==> i < |s.built| && s.place[i] == Finalized)
  }

  lemma InitialInv(c: Config, tasks: seq<Task>)
    requires c.limit >= 1 && forall t :: 0 <= t < |tasks| ==> Fresh(tasks[t])
    ensures Inv(c, Initial(tasks))
  {
  }

  lemma NextInv(c: Config, s: State, t: nat, ok: bool)
    requires Inv(c, s) && CanStep(c, s, t)
    ensures Inv(c, Next(c, s, t, ok))
  {
    match s.tasks[t]
    case Entering(_) => EnteringInv(c, s, t, ok);
    case AwaitingLock(_) => LockingInv(c, s, t, ok);
    case Rechecking(_) => RecheckingInv(c, s, t, ok);
    case Building(_) => BuildingInv(c, s, t, ok);
    case Inserting(_, _) => InsertingInv(c, s, t, ok);
    case Evicting(_, _, _) => EvictingInv(c, s, t, ok);
    case Closing => ClosingInv(c, s, t, ok);
    case Finalizing(_) => FinalizingInv(c, s, t, ok);
    case _ =>
  }

  /** A `PutLast` of a resident entry only reorders the pool. */
  lemma PutLastMembers(pool: seq<Entry>, ws: Workspace, i: nat)
    requires NoDup(pool)
    ensures var r := PutLast(pool, ws, i);
            && NoDup(r)
            && forall e :: e in r <==> e == Entry(ws, i) || (e in pool && e.workspace != ws)
    ensures Entry(ws, i) in pool && (forall e :: e in pool && e.workspace == ws ==> e.instance == i)
            ==> |PutLast(pool, ws, i)| == |pool|
    ensures (forall e :: e in pool ==> e.workspace != ws) ==> PutLast(pool, ws, i) == pool + [Entry(ws, i)]
  {
    FilterMembers(pool, NotOf(ws));
    FilterNoDup(pool, NotOf(ws));
    if Entry(ws, i) in pool && (forall e :: e in pool && e.workspace == ws ==> e.instance == i) {
      OnlyOne(pool, ws, i);
    }
    if forall e :: e in pool ==> e.workspace != ws {
      FilterKeepsAll(pool, NotOf(ws));
    }
  }

  lemma {:induction false} OnlyOne(pool: seq<Entry>, ws: Workspace, i: nat)
    requires NoDup(pool) && forall e :: e in pool && e.workspace == ws ==> e.instance == i
    ensures |Filter(pool, NotOf(ws))| == |pool| - if Entry(ws, i) in pool then 1 else 0
  {
    if pool != [] {
      OnlyOne(pool[1..], ws, i);
      assert pool[0] !in pool[1..];
    }
  }

  lemma EnteringInv(c: Config, s: State, t: nat, ok: bool)
    requires Inv(c, s) && CanStep(c, s, t) && s.tasks[t].Entering?
    ensures Inv(c, Next(c, s, t, ok))
  {
    var ws := s.tasks[t].ws;
    var r := s;
    if c.enabled && Lookup(s.pool, ws).Some? {
      var i := Lookup(s.pool, ws).value;
      assert EntryAt(s, Entry(ws, i), InPool);
      forall e | e in s.pool && e.workspace == ws ensures e.instance == i {
        assert EntryAt(s, e, InPool);
      }
      PutLastMembers(s.pool, ws, i);
      r := s.(pool := PutLast(s.pool, ws, i));
      ReorderedInv(c, s, r.pool);
    }
    SettledInv(c, r, t, Next(c, s, t, ok).tasks[t]);
  }

  lemma ReorderedInv(c: Config, s: State, pool: seq<Entry>)
    requires Inv(c, s) && NoDup(pool) && |pool| == |s.pool| && forall e :: e in pool <==> e in s.pool
    ensures Inv(c, s.(pool := pool))
  {
    var n := s.(pool := pool);
    forall u | 0 <= u < |n.tasks| ensures TaskOk(n, u) {
      assert TaskOk(s, u);
    }
    forall i | 0 <= i < |n.built| ensures PlaceOk(n, i) {
      assert PlaceOk(s, i);
    }
  }

  /** A task that holds nothing may become another task that holds nothing. */
  lemma SettledInv(c: Config, s: State, t: nat, task: Task)
    requires Inv(c, s) && t < |s.tasks| && s.tasks[t].Entering?
    requires task.AwaitingLock? || task.Raised? ||
             (task.Returned? && task.instance < |s.built| && s.built[task.instance] == task.ws)
    ensures Inv(c, At(s, t, task))
  {
    var n := At(s, t, task);
    forall u | 0 <= u < |n.tasks| ensures TaskOk(n, u) {
      assert TaskOk(s, u);
    }
    forall i | 0 <= i < |n.built| ensures PlaceOk(n, i) {
      assert PlaceOk(s, i);
    }
  }

  lemma LockingInv(c: Config, s: State, t: nat, ok: bool)
    requires Inv(c, s) && CanStep(c, s, t) && s.tasks[t].AwaitingLock?
    ensures Inv(c, Next(c, s, t, ok))
  {
    var n := Next(c, s, t, ok);
    assert TaskOk(s, t);
    forall u | 0 <= u < |n.tasks| ensures TaskOk(n, u) {
      assert TaskOk(s, u);
    }
    forall i | 0 <= i < |n.built| ensures PlaceOk(n, i) {
      assert i < |s.built| ==> PlaceOk(s, i);
    }
  }

  lemma RecheckingInv(c: Config, s: State, t: nat, ok: bool)
    requires Inv(c, s) && CanStep(c, s, t) && s.tasks[t].Rechecking?
    ensures Inv(c, Next(c, s, t, ok))
  {
    var n := Next(c, s, t, ok);
    assert TaskOk(s, t);
    forall i | 0 <= i < |s.built| && Live(s.place[i]) ensures Lookup(s.pool, s.tasks[t].ws).None? ==> s.built[i] != s.tasks[t].ws {
      assert PlaceOk(s, i);
      if s.place[i].WithBuilder? {
        assert TaskOk(s, s.place[i].task);
      } else if s.place[i].WithEvictor? {
        assert TaskOk(s, s.place[i].task);
      }
    }
    forall u | 0 <= u < |n.tasks| ensures TaskOk(n, u) {
      assert TaskOk(s, u);
    }
    forall i | 0 <= i < |n.built| ensures PlaceOk(n, i) {
      assert i < |s.built| ==> PlaceOk(s, i);
    }
  }

  lemma BuildingInv(c: Config, s: State, t: nat, ok: bool)
    requires Inv(c, s) && CanStep(c, s, t) && s.tasks[t].Building?
    ensures Inv(c, Next(c, s, t, ok))
  {
    var n := Next(c, s, t, ok);
    assert TaskOk(s, t);
    forall u | 0 <= u < |n.tasks| ensures TaskOk(n, u) {
      assert TaskOk(s, u);
    }
    forall i | 0 <= i < |n.built| ensures PlaceOk(n, i) {
      assert i < |s.built| ==> PlaceOk(s, i);
    }
  }

  /** A builder that is about to insert finds its workspace absent: the assignment
      into the ordered dictionary never replaces a live instance. */
  lemma InsertionFindsNothing(c: Config, s: State, t: nat)
    requires Inv(c, s) && t < |s.tasks| && s.tasks[t].Inserting?
    ensures Lookup(s.pool, s.tasks[t].ws).None?
    ensures PutLast(s.pool, s.tasks[t].ws, s.tasks[t].instance)
            == s.pool + [Entry(s.tasks[t].ws, s.tasks[t].instance)]
  {
    assert TaskOk(s, t);
    forall e | e in s.pool ensures e.workspace != s.tasks[t].ws {
      assert EntryAt(s, e, InPool);
    }
    PutLastMembers(s.pool, s.tasks[t].ws, s.tasks[t].instance);
  }

  lemma InsertingInv(c: Config, s: State, t: nat, ok: bool)
    requires Inv(c, s) && CanStep(c, s, t) && s.tasks[t].Inserting?
    ensures Inv(c, Next(c, s, t, ok))
  {
    InsertionFindsNothing(c, s, t);
    if |s.pool| < c.limit {
      InsertFits(c, s, t);
    } else {
      InsertEvicts(c, s, t);
    }
  }

  lemma InsertFits(c: Config, s: State, t: nat)
    requires Inv(c, s) && CanStep(c, s, t) && s.tasks[t].Inserting? && |s.pool| < c.limit
    requires Lookup(s.pool, s.tasks[t].ws).None?
    ensures var ws, i := s.tasks[t].ws, s.tasks[t].instance;
            Inv(c, At(s, t, Returned(ws, i)).(pool := s.pool + [Entry(ws, i)], guard := None,
                                              place := Moved(s.place, i, InPool), holder := s.holder - {ws}))
  {
    var ws, i := s.tasks[t].ws, s.tasks[t].instance;
    var n := At(s, t, Returned(ws, i)).(pool := s.pool + [Entry(ws, i)], guard := None,
                                        place := Moved(s.place, i, InPool), holder := s.holder - {ws});
    assert TaskOk(s, t);
    assert forall j :: 0 <= j < |s.built| ==> Live(n.place[j]) == Live(s.place[j]);
    forall u | 0 <= u < |n.tasks| ensures TaskOk(n, u) {
      assert TaskOk(s, u);
    }
    forall i | 0 <= i < |n.built| ensures PlaceOk(n, i) {
      assert PlaceOk(s, i);
    }
  }

  /** The state of the pool and the place of each instance when an insertion evicts. */
  ghost predicate Shifted(s: State, n: State, e: Entry, victim: Entry, t: nat) {
    && s.pool != [] && victim == s.pool[0]
    && (forall x :: x in n.pool <==> x == e || (x in s.pool && x != victim))
    && NoDup(n.pool) && |n.pool| == |s.pool|
    && |n.place| == |s.place| && e.instance < |s.place| && victim.instance < |s.place|
    && (forall j :: 0 <= j < |s.place| ==>
          n.place[j] == if j == victim.instance then WithEvictor(t) else if j == e.instance then InPool else s.place[j])
    && s.place[e.instance] == WithBuilder(t) && s.place[victim.instance] == InPool
  }

  lemma InsertEvicts(c: Config, s: State, t: nat)
    requires Inv(c, s) && CanStep(c, s, t) && s.tasks[t].Inserting? && |s.pool| == c.limit
    requires Lookup(s.pool, s.tasks[t].ws).None?
    requires PutLast(s.pool, s.tasks[t].ws, s.tasks[t].instance) == s.pool + [Entry(s.tasks[t].ws, s.tasks[t].instance)]
    ensures Inv(c, Next(c, s, t, true))
  {
    var ws, i := s.tasks[t].ws, s.tasks[t].instance;
    var n, e := Next(c, s, t, true), Entry(ws, i);
    assert TaskOk(s, t);
    assert EntryAt(s, s.pool[0], InPool);
    assert n.pool == s.pool[1..] + [e];
    assert s.pool == [s.pool[0]] + s.pool[1..];
    assert Shifted(s, n, e, s.pool[0], t);
    ShiftedPool(c, s, n, e, t);
    ShiftedLive(c, s, n, e, t);
    EvictedTasks(c, s, n, e, t);
    EvictedPlaces(c, s, n, e, t);
  }

  /** The whole state after an insertion that evicts. */
  ghost predicate Evicts(s: State, n: State, e: Entry, t: nat) {
    && s.pool != [] && Shifted(s, n, e, s.pool[0], t) && e !in s.pool
    && t < |s.tasks| && s.tasks[t] == Inserting(e.workspace, e.instance)
    && n.tasks == s.tasks[t := Evicting(e.workspace, e.instance, s.pool[0])]
    && n.built == s.built && n.finalized == s.finalized && n.holder == s.holder && n.guard == Some(t)
  }

  lemma EvictedTasks(c: Config, s: State, n: State, e: Entry, t: nat)
    requires Inv(c, s) && s.guard.None? && Evicts(s, n, e, t)
    ensures forall u :: 0 <= u < |n.tasks| ==> TaskOk(n, u)
  {
    ShiftedLive(c, s, n, e, t);
    assert EntryAt(s, s.pool[0], InPool);
    forall u | 0 <= u < |n.tasks| ensures TaskOk(n, u) {
      assert TaskOk(s, u);
    }
  }

  lemma EvictedPlaces(c: Config, s: State, n: State, e: Entry, t: nat)
    requires Inv(c, s) && s.guard.None? && Evicts(s, n, e, t)
    ensures forall i :: 0 <= i < |n.built| ==> PlaceOk(n, i)
  {
    assert TaskOk(s, t) && EntryAt(s, s.pool[0], InPool);
    forall i | 0 <= i < |n.built| ensures PlaceOk(n, i) {
      assert PlaceOk(s, i);
    }
  }

  lemma ShiftedPool(c: Config, s: State, n: State, e: Entry, t: nat)
    requires Inv(c, s) && s.pool != [] && Shifted(s, n, e, s.pool[0], t) && n.built == s.built
    requires e.instance < |s.built| && s.built[e.instance] == e.workspace
    ensures forall x :: x in n.pool ==> EntryAt(n, x, InPool)
  {
    assert EntryAt(s, s.pool[0], InPool);
    forall x | x in n.pool ensures EntryAt(n, x, InPool) {
      if x != e {
        assert EntryAt(s, x, InPool);
      }
    }
  }

  lemma ShiftedLive(c: Config, s: State, n: State, e: Entry, t: nat)
    requires Inv(c, s) && s.pool != [] && Shifted(s, n, e, s.pool[0], t) && n.built == s.built
    ensures forall j :: 0 <= j < |s.built| ==> Live(n.place[j]) == Live(s.place[j])
    ensures OneLive(n)
  {
  }

  lemma EvictingInv(c: Config, s: State, t: nat, ok: bool)
    requires Inv(c, s) && CanStep(c, s, t) && s.tasks[t].Evicting?
    ensures Inv(c, Next(c, s, t, ok))
  {
    var n := Next(c, s, t, ok);
    assert TaskOk(s, t);
    forall u | 0 <= u < |n.tasks| ensures TaskOk(n, u) {
      assert TaskOk(s, u);
    }
    forall i | 0 <= i < |n.built| ensures PlaceOk(n, i) {
      assert i < |s.built| ==> PlaceOk(s, i);
    }
  }

  lemma ClosingInv(c: Config, s: State, t: nat, ok: bool)
    requires Inv(c, s) && CanStep(c, s, t) && s.tasks[t].Closing?
    ensures Inv(c, Next(c, s, t, ok))
  {
    var n := Next(c, s, t, ok);
    assert TaskOk(s, t);
    forall u | 0 <= u < |n.tasks| ensures TaskOk(n, u) {
      assert TaskOk(s, u);
    }
    forall i | 0 <= i < |n.built| ensures PlaceOk(n, i) {
      assert i < |s.built| ==> PlaceOk(s, i);
    }
  }

  lemma FinalizingInv(c: Config, s: State, t: nat, ok: bool)
    requires Inv(c, s) && CanStep(c, s, t) && s.tasks[t].Finalizing?
    ensures Inv(c, Next(c, s, t, ok))
  {
    var n := Next(c, s, t, ok);
    assert TaskOk(s, t);
    var pending := s.tasks[t].pending;
    assert EntryAt(s, pending[0], WithCloser(t)) && pending[0] !in pending[1..];
    forall e | e in pending[1..] ensures EntryAt(n, e, WithCloser(t)) {
      assert EntryAt(s, e, WithCloser(t));
    }
    forall u | 0 <= u < |n.tasks| ensures TaskOk(n, u) {
      assert TaskOk(s, u);
    }
    forall i | 0 <= i < |n.built| ensures PlaceOk(n, i) {
      assert i < |s.built| ==> PlaceOk(s, i);
    }
  }
}
