/** Migration: its report adds up, a run without failures makes a second run a no-op, and
    what it counts as indexed can be read at the end. */
module Migration {
  import opened Common
  import opened DocumentRef
  import opened RowStore
  import opened GraphOps
  import opened DeleteSafety

  // ----- accounting -----

  /** The failed documents and the reasons, in order. */
  function Failures(targets: seq<Target>, outcomes: seq<Outcome>): seq<(string, string)>
    requires |targets| == |outcomes|
  {
    if targets == [] then []
    else (if outcomes[0].Failed? then [(targets[0].documentId, outcomes[0].reason)] else [])
         + Failures(targets[1..], outcomes[1..])
  }

  function IsIndexed(): Outcome -> bool {
    (o: Outcome) => o.Indexed?
  }

  function IsSkipped(): Outcome -> bool {
    (o: Outcome) => o.Skipped?
  }

  function IsFailed(): Outcome -> bool {
    (o: Outcome) => o.Failed?
  }

  /** `r` is what the outcomes add to the report `start`. */
  predicate Adds(start: Report, r: Report, targets: seq<Target>, outcomes: seq<Outcome>)
    requires |targets| == |outcomes|
  {
    && r.indexed == start.indexed + |Filter(outcomes, IsIndexed())|
    && r.skipped == start.skipped + |Filter(outcomes, IsSkipped())|
    && r.failed == start.failed + |Filter(outcomes, IsFailed())|
    && r.details == start.details + Failures(targets, outcomes)
  }

  lemma {:induction false} TallyAdds(start: Report, targets: seq<Target>, outcomes: seq<Outcome>)
    requires |targets| == |outcomes|
    ensures Adds(start, Tally(start, targets, outcomes), targets, outcomes)
    decreases |targets|
  {
    if targets != [] {
      var next := Counted(start, targets[0], outcomes[0]);
      TallyAdds(next, targets[1..], outcomes[1..]);
      var head := if outcomes[0].Failed? then [(targets[0].documentId, outcomes[0].reason)] else [];
      assert next.details == start.details + head;
      Associate(start.details, head, Failures(targets[1..], outcomes[1..]));
    } else {
      assert start.details + [] == start.details;
    }
  }

  lemma {:induction false} OutcomesSplit(outcomes: seq<Outcome>)
    ensures |Filter(outcomes, IsIndexed())| + |Filter(outcomes, IsSkipped())| + |Filter(outcomes, IsFailed())| == |outcomes|
  {
    if outcomes != [] {
      OutcomesSplit(outcomes[1..]);
    }
  }

  lemma {:induction false} FailuresCounted(targets: seq<Target>, outcomes: seq<Outcome>)
    requires |targets| == |outcomes|
    ensures |Failures(targets, outcomes)| == |Filter(outcomes, IsFailed())|
  {
    if targets != [] {
      FailuresCounted(targets[1..], outcomes[1..]);
    }
  }

  /** What a report of a run over `targets` with these outcomes says: each counter is the
      number of outcomes of its kind, together they are the targets, and the details are
      the failures, once each and in order. */
  ghost predicate Reports(r: Report, targets: seq<Target>, outcomes: seq<Outcome>) {
    && |targets| == |outcomes|
    && r.indexed == |Filter(outcomes, IsIndexed())|
    && r.skipped == |Filter(outcomes, IsSkipped())|
    && r.failed == |Filter(outcomes, IsFailed())| == |r.details|
    && r.details == Failures(targets, outcomes)
    && r.indexed + r.skipped + r.failed == |targets|
  }

  lemma ReportAddsUp(env: Env, w: World, targets: seq<Target>, loader: string -> Loaded)
    ensures var outcomes := MigrateAll(env, w, targets, loader).value;
            Reports(Tally(EMPTY_REPORT, targets, outcomes), targets, outcomes)
  {
    var outcomes := MigrateAll(env, w, targets, loader).value;
    TallyAdds(EMPTY_REPORT, targets, outcomes);
    OutcomesSplit(outcomes);
    FailuresCounted(targets, outcomes);
    assert [] + Failures(targets, outcomes) == Failures(targets, outcomes);
  }

  // ----- what one target does to the store -----

  /** Some row of the workspace carries the document's prefix. */
  ghost predicate Present(s: Store, ws: string, id: string) {
    exists i :: 0 <= i < |RowsOf(s, ws)| && Matches(id)(RowsOf(s, ws)[i])
  }

  /** Rows are never dropped or renamed, only added or given a new status. */
  ghost predicate RowsExtend(rows: seq<Row>, rows': seq<Row>) {
    && |rows| <= |rows'| && (KeysOk(rows) ==> KeysOk(rows'))
    && forall i :: 0 <= i < |rows| ==> rows'[i].filePath == rows[i].filePath
  }

  ghost predicate Extends(s: Store, s': Store) {
    forall ws :: RowsExtend(RowsOf(s, ws), RowsOf(s', ws))
  }

  lemma InsertExtends(env: Env, w: World, ws: string, id: string, filename: string, chunks: seq<Chunk>)
    ensures var w' := Insert(env, w, ws, id, filename, chunks).world;
            && Extends(w.rows, w'.rows)
            && forall v, p :: v != ws || p != Ref(id, filename) ==>
                 ByPath(RowsOf(w'.rows, v), p) == ByPath(RowsOf(w.rows, v), p)
  {
    if env.enabled && IndexText(chunks) != "" {
      RecordingExtends(env, w, ws, Ref(id, filename));
    }
  }

  lemma RowsExtendJoin(a: seq<Row>, b: seq<Row>, c: seq<Row>)
    requires RowsExtend(a, b) && RowsExtend(b, c)
    ensures RowsExtend(a, c)
  {
  }

  lemma RecordedExtends(rows: seq<Row>, path: string, key: string, status: string)
    ensures RowsExtend(rows, Recorded(rows, path, key, status))
    ensures forall p :: p != path ==> ByPath(Recorded(rows, path, key, status), p) == ByPath(rows, p)
  {
    RecordedOnly(rows, path, key, status);
  }

  lemma RecordingExtends(env: Env, w: World, ws: string, path: string)
    ensures var w' := AInsert(env, w, ws, path).world;
            && Extends(w.rows, w'.rows)
            && forall v, p :: v != ws || p != path ==> ByPath(RowsOf(w'.rows, v), p) == ByPath(RowsOf(w.rows, v), p)
  {
    RecordedExtends(RowsOf(w.rows, ws), path, env.key(w.clock), env.status(w.clock));
    var w' := AInsert(env, w, ws, path).world;
    forall v ensures RowsExtend(RowsOf(w.rows, v), RowsOf(w'.rows, v)) {
      assert v != ws ==> RowsOf(w'.rows, v) == RowsOf(w.rows, v);
    }
  }

  lemma {:induction false} FirstKeyFinds(rows: seq<Row>, id: string)
    requires KeysOk(rows)
    ensures FirstKey(rows, id).Some? <==> exists i :: 0 <= i < |rows| && Matches(id)(rows[i])
  {
    if rows != [] && !Matches(id)(rows[0]) {
      FirstKeyFinds(rows[1..], id);
      if i :| 0 <= i < |rows| && Matches(id)(rows[i]) {
        assert rows[1..][i - 1] == rows[i];
      }
    }
  }

  ghost predicate AllKeysOk(s: Store) {
    forall ws :: KeysOk(RowsOf(s, ws))
  }

  /** A row of the document is on the first page. */
  ghost predicate OnPageOne(s: Store, ws: string, id: string) {
    exists i :: 0 <= i < |Page(RowsOf(s, ws))| && Matches(id)(Page(RowsOf(s, ws))[i])
  }

  /** What the lookup answers, exactly, and how that relates to presence. */
  lemma HasMeansPresent(env: Env, w: World, ws: string, id: string)
    requires KeysOk(RowsOf(w.rows, ws))
    ensures HasDocument(env, w, ws, id).value <==> env.enabled && env.fault(w.clock).Works? && OnPageOne(w.rows, ws, id)
    ensures OnPageOne(w.rows, ws, id) ==> Present(w.rows, ws, id)
    ensures |RowsOf(w.rows, ws)| <= 1000 ==> (OnPageOne(w.rows, ws, id) <==> Present(w.rows, ws, id))
  {
    var rows := RowsOf(w.rows, ws);
    FirstKeyFinds(Page(rows), id);
    if i :| 0 <= i < |Page(rows)| && Matches(id)(Page(rows)[i]) {
      assert Matches(id)(rows[i]);
    }
    if |rows| <= PAGE_SIZE {
      assert Page(rows) == rows;
    }
  }

  lemma UsableIsPresent(s: Store, ws: string, id: string, filename: string)
    requires Usable(s, ws, Ref(id, filename))
    ensures Present(s, ws, id)
  {
    var rows := RowsOf(s, ws);
    ByPathFinds(rows, Ref(id, filename));
    var row := ByPath(rows, Ref(id, filename)).value;
    var i :| 0 <= i < |rows| && rows[i] == row;
    assert Matches(id)(rows[i]);
  }

  function RefOf(t: Target): string {
    Ref(t.documentId, t.filename)
  }

  ghost predicate SameDocument(t: Target, ws: string, path: string) {
    t.workspace == ws && RefOf(t) == path
  }

  lemma OneTarget(env: Env, w: World, t: Target, loader: string -> Loaded)
    requires AllKeysOk(w.rows)
    ensures var r := MigrateOne(env, w, t, loader);
            && Extends(w.rows, r.world.rows)
            && (!r.value.Failed? ==> Present(r.world.rows, t.workspace, t.documentId))
            && (r.value.Skipped? ==> r.world.rows == w.rows && r.world.log == w.log)
            && (r.value.Indexed? ==> Usable(r.world.rows, t.workspace, RefOf(t)))
            && forall ws, p :: !SameDocument(t, ws, p) ==>
                 ByPath(RowsOf(r.world.rows, ws), p) == ByPath(RowsOf(w.rows, ws), p)
  {
    HasMeansPresent(env, w, t.workspace, t.documentId);
    var has := HasDocument(env, w, t.workspace, t.documentId);
    var loaded := loader(t.documentId);
    if !has.value && loaded.Loaded? {
      InsertExtends(env, has.world, t.workspace, t.documentId, t.filename, loaded.chunks);
      InsertIsLocal(env, has.world, t.workspace, t.documentId, t.filename, loaded.chunks);
      if Insert(env, has.world, t.workspace, t.documentId, t.filename, loaded.chunks).value {
        UsableIsPresent(Insert(env, has.world, t.workspace, t.documentId, t.filename, loaded.chunks).world.rows,
                        t.workspace, t.documentId, t.filename);
      }
    }
  }

  lemma PresentLasts(s: Store, s': Store, ws: string, id: string)
    requires Extends(s, s') && Present(s, ws, id)
    ensures Present(s', ws, id)
  {
    var i :| 0 <= i < |RowsOf(s, ws)| && Matches(id)(RowsOf(s, ws)[i]);
    assert Matches(id)(RowsOf(s', ws)[i]);
  }

  /** What becomes of one target, exactly: the lookup comes first, then the loader, then an
      insert that succeeds under its own condition. */
  lemma OutcomeExact(env: Env, w: World, t: Target, loader: string -> Loaded)
    requires KeysOk(RowsOf(w.rows, t.workspace))
    ensures var o, loaded := MigrateOne(env, w, t, loader).value, loader(t.documentId);
            && (o.Skipped? <==> env.enabled && env.fault(w.clock).Works? && OnPageOne(w.rows, t.workspace, t.documentId))
            && (!o.Skipped? && loaded.Raised? ==>
                  o.Failed? && o.reason <= loaded.reason && |o.reason| == Min(200, |loaded.reason|))
            && (!o.Skipped? && loaded.Loaded? ==>
                  if loaded.chunks == [] then o == Failed("no chunks")
                  else if InsertSucceeds(env, Ticked(w), t.workspace, RefOf(t), loaded.chunks) then o.Indexed?
                  else o == Failed("insert failed"))
  {
    HasMeansPresent(env, w, t.workspace, t.documentId);
    if loader(t.documentId).Loaded? {
      InsertSucceedsIff(env, HasDocument(env, w, t.workspace, t.documentId).world, t.workspace, t.documentId, t.filename,
                        loader(t.documentId).chunks);
    }
  }

  // ----- the whole run -----

  lemma {:induction false} RunExtends(env: Env, w: World, targets: seq<Target>, loader: string -> Loaded)
    requires AllKeysOk(w.rows)
    ensures Extends(w.rows, MigrateAll(env, w, targets, loader).world.rows)
    ensures AllKeysOk(MigrateAll(env, w, targets, loader).world.rows)
    decreases |targets|
  {
    if targets != [] {
      OneTarget(env, w, targets[0], loader);
      var one := MigrateOne(env, w, targets[0], loader).world;
      assert forall ws :: RowsExtend(RowsOf(w.rows, ws), RowsOf(one.rows, ws)) && KeysOk(RowsOf(w.rows, ws));
      RunExtends(env, one, targets[1..], loader);
      var end := MigrateAll(env, one, targets[1..], loader).world;
      forall ws ensures RowsExtend(RowsOf(w.rows, ws), RowsOf(end.rows, ws)) {
        RowsExtendJoin(RowsOf(w.rows, ws), RowsOf(one.rows, ws), RowsOf(end.rows, ws));
      }
    }
  }

  ghost predicate AllPresent(s: Store, targets: seq<Target>) {
    forall t :: t in targets ==> Present(s, t.workspace, t.documentId)
  }

  ghost predicate NoneFailed(outcomes: seq<Outcome>) {
    forall o :: o in outcomes ==> !o.Failed?
  }

  lemma {:induction false} CleanRunLeavesAll(env: Env, w: World, targets: seq<Target>, loader: string -> Loaded)
    requires AllKeysOk(w.rows) && NoneFailed(MigrateAll(env, w, targets, loader).value)
    ensures AllPresent(MigrateAll(env, w, targets, loader).world.rows, targets)
    decreases |targets|
  {
    if targets != [] {
      var one := MigrateOne(env, w, targets[0], loader);
      var rest := MigrateAll(env, one.world, targets[1..], loader);
      OneTarget(env, w, targets[0], loader);
      var all := [one.value] + rest.value;
      assert one.value == all[0] && one.value in all;
      forall o | o in rest.value ensures !o.Failed? {
        assert o in all;
      }
      CleanRunLeavesAll(env, one.world, targets[1..], loader);
      RunExtends(env, one.world, targets[1..], loader);
      PresentLasts(one.world.rows, rest.world.rows, targets[0].workspace, targets[0].documentId);
    }
  }

  ghost predicate AllSkipped(outcomes: seq<Outcome>) {
    forall o :: o in outcomes ==> o.Skipped?
  }

  /** The lookups of `targets`, made one after the other, all work and find a row. */
  ghost predicate AllFound(env: Env, w: World, targets: seq<Target>)
    decreases |targets|
  {
    targets == [] ||
    (&& env.enabled && env.fault(w.clock).Works? && OnPageOne(w.rows, targets[0].workspace, targets[0].documentId)
     && AllFound(env, Ticked(w), targets[1..]))
  }

  /** A run skips every target if and only if every lookup finds a row; it then writes
      nothing and makes one call per target. */
  lemma {:induction false} SkipsAllIff(env: Env, w: World, targets: seq<Target>, loader: string -> Loaded)
    requires AllKeysOk(w.rows)
    ensures var r := MigrateAll(env, w, targets, loader);
            && (AllSkipped(r.value) <==> AllFound(env, w, targets))
            && (AllSkipped(r.value) ==> r.world == World(w.rows, w.clock + |targets|, w.log))
    decreases |targets|
  {
    if targets != [] {
      var one := MigrateOne(env, w, targets[0], loader);
      var rest := MigrateAll(env, one.world, targets[1..], loader).value;
      HasMeansPresent(env, w, targets[0].workspace, targets[0].documentId);
      assert AllSkipped([one.value] + rest) <==> one.value.Skipped? && AllSkipped(rest) by {
        assert forall o :: o in [one.value] + rest <==> o == one.value || o in rest;
      }
      if one.value.Skipped? {
        SkipsAllIff(env, Ticked(w), targets[1..], loader);
      }
    }
  }

  /** In terms of the report: everything is counted as skipped if and only if every lookup
      finds a row, and then nothing is counted as indexed or failed. */
  lemma SkippedReport(env: Env, w: World, targets: seq<Target>, loader: string -> Loaded)
    requires AllKeysOk(w.rows)
    ensures var r := Tally(EMPTY_REPORT, targets, MigrateAll(env, w, targets, loader).value);
            && (r.skipped == |targets| <==> AllFound(env, w, targets))
            && (r.skipped == |targets| ==> r == Report(0, |targets|, 0, []))
  {
    var outcomes := MigrateAll(env, w, targets, loader).value;
    ReportAddsUp(env, w, targets, loader);
    SkipsAllIff(env, w, targets, loader);
    ReportOfSkipped(Tally(EMPTY_REPORT, targets, outcomes), targets, outcomes);
  }

  lemma ReportOfSkipped(r: Report, targets: seq<Target>, outcomes: seq<Outcome>)
    requires Reports(r, targets, outcomes)
    ensures r.skipped == |targets| <==> AllSkipped(outcomes)
    ensures r.skipped == |targets| ==> r == Report(0, |targets|, 0, [])
  {
    AllOfAKind(outcomes, IsSkipped());
  }

  lemma {:induction false} AllOfAKind(outcomes: seq<Outcome>, kind: Outcome -> bool)
    ensures |Filter(outcomes, kind)| == |outcomes| <==> forall o :: o in outcomes ==> kind(o)
  {
    if outcomes != [] {
      AllOfAKind(outcomes[1..], kind);
      HeadAndTail(outcomes);
    }
  }

  /** Idempotence, exactly: after a run in which no target failed, a second run over the
      same targets skips every one of them, and writes nothing, if and only if its lookups
      work and the document's row is on the first page, as it always is in a workspace of
      at most 1000 rows. The second run may meet a different environment and loader. */
  lemma MigrationIsIdempotent(
    env: Env, w: World, targets: seq<Target>, loader: string -> Loaded,
    env2: Env, w2: World, loader2: string -> Loaded)
    requires AllKeysOk(w.rows) && NoneFailed(MigrateAll(env, w, targets, loader).value)
    requires w2.rows == MigrateAll(env, w, targets, loader).world.rows
    ensures var r := MigrateAll(env2, w2, targets, loader2);
            && (AllSkipped(r.value) <==> AllFound(env2, w2, targets))
            && (AllSkipped(r.value) ==> r.world == World(w2.rows, w2.clock + |targets|, w2.log))
    ensures forall t :: t in targets && |RowsOf(w2.rows, t.workspace)| <= 1000 ==>
              OnPageOne(w2.rows, t.workspace, t.documentId)
  {
    CleanRunLeavesAll(env, w, targets, loader);
    RunExtends(env, w, targets, loader);
    SkipsAllIff(env2, w2, targets, loader2);
    forall t | t in targets && |RowsOf(w2.rows, t.workspace)| <= 1000
      ensures OnPageOne(w2.rows, t.workspace, t.documentId)
    {
      assert KeysOk(RowsOf(w2.rows, t.workspace));
      HasMeansPresent(env2, w2, t.workspace, t.documentId);
    }
  }

  /** A later target of the same document failed. */
  ghost predicate FailedAgain(targets: seq<Target>, outcomes: seq<Outcome>, ws: string, path: string)
    requires |targets| == |outcomes|
  {
    exists j :: 0 <= j < |targets| && SameDocument(targets[j], ws, path) && outcomes[j].Failed?
  }

  lemma OneKeepsUsable(env: Env, w: World, t: Target, loader: string -> Loaded, ws: string, path: string)
    requires AllKeysOk(w.rows) && Usable(w.rows, ws, path)
    ensures var one := MigrateOne(env, w, t, loader);
            && AllKeysOk(one.world.rows)
            && (Usable(one.world.rows, ws, path) || (SameDocument(t, ws, path) && one.value.Failed?))
  {
    OneTarget(env, w, t, loader);
  }

  lemma FailedAgainStep(t: Target, rest: seq<Target>, o: Outcome, outcomes: seq<Outcome>, ws: string, path: string)
    requires |rest| == |outcomes|
    ensures FailedAgain(rest, outcomes, ws, path) || (SameDocument(t, ws, path) && o.Failed?)
            ==> FailedAgain([t] + rest, [o] + outcomes, ws, path)
  {
    var targets, all := [t] + rest, [o] + outcomes;
    assert targets[0] == t && all[0] == o;
    if FailedAgain(rest, outcomes, ws, path) {
      var j :| 0 <= j < |rest| && SameDocument(rest[j], ws, path) && outcomes[j].Failed?;
      assert targets[j + 1] == rest[j] && all[j + 1] == outcomes[j];
    }
  }

  lemma {:induction false} StaysUsable(env: Env, w: World, targets: seq<Target>, loader: string -> Loaded, ws: string, path: string)
    requires AllKeysOk(w.rows) && Usable(w.rows, ws, path)
    ensures var r := MigrateAll(env, w, targets, loader);
            Usable(r.world.rows, ws, path) || FailedAgain(targets, r.value, ws, path)
    decreases |targets|
  {
    if targets != [] {
      var t, rest, one := targets[0], targets[1..], MigrateOne(env, w, targets[0], loader);
      var more := MigrateAll(env, one.world, rest, loader);
      HeadAndTail(targets);
      RunHead(env, w, t, rest, loader);
      OneKeepsUsable(env, w, t, loader, ws, path);
      FailedAgainStep(t, rest, one.value, more.value, ws, path);
      if Usable(one.world.rows, ws, path) {
        StaysUsable(env, one.world, rest, loader, ws, path);
      }
    }
  }

  /** What is counted as indexed can be read at the end of the run, unless a later target
      of the very same document failed after it. */
  lemma {:induction false} IndexedAreUsable(env: Env, w: World, targets: seq<Target>, loader: string -> Loaded, i: nat)
    requires AllKeysOk(w.rows) && i < |targets| && MigrateAll(env, w, targets, loader).value[i] == Indexed
    ensures var r, t := MigrateAll(env, w, targets, loader), targets[i];
            || Usable(r.world.rows, t.workspace, RefOf(t))
            || FailedAgain(targets[i + 1..], r.value[i + 1..], t.workspace, RefOf(t))
    decreases |targets|
  {
    var one := MigrateOne(env, w, targets[0], loader);
    var rest := MigrateAll(env, one.world, targets[1..], loader);
    var all := [one.value] + rest.value;
    OneTarget(env, w, targets[0], loader);
    if i == 0 {
      StaysUsable(env, one.world, targets[1..], loader, targets[0].workspace, RefOf(targets[0]));
      assert all[1..] == rest.value;
    } else {
      assert all[i] == rest.value[i - 1];
      IndexedAreUsable(env, one.world, targets[1..], loader, i - 1);
      assert targets[1..][i..] == targets[i + 1..] && all[i + 1..] == rest.value[i..];
    }
  }

  // ----- when indexed means usable -----

  /** No two targets name the same document of the same workspace. */
  ghost predicate DistinctTargets(targets: seq<Target>) {
    forall i, j :: 0 <= i < j < |targets| ==>
      !SameDocument(targets[j], targets[i].workspace, RefOf(targets[i]))
  }

  /** Everything the run counts as indexed can be read when it ends. */
  ghost predicate IndexedUsable(env: Env, w: World, targets: seq<Target>, loader: string -> Loaded) {
    var r := MigrateAll(env, w, targets, loader);
    forall i :: 0 <= i < |targets| && r.value[i].Indexed? ==>
      Usable(r.world.rows, targets[i].workspace, RefOf(targets[i]))
  }

  lemma DistinctStayUsable(env: Env, w: World, targets: seq<Target>, loader: string -> Loaded)
    requires AllKeysOk(w.rows) && DistinctTargets(targets)
    ensures IndexedUsable(env, w, targets, loader)
  {
    var r := MigrateAll(env, w, targets, loader);
    forall i | 0 <= i < |targets| && r.value[i].Indexed?
      ensures Usable(r.world.rows, targets[i].workspace, RefOf(targets[i]))
    {
      var ws, path := targets[i].workspace, RefOf(targets[i]);
      IndexedAreUsable(env, w, targets, loader, i);
    }
  }

  /** An environment in which only one insert succeeds, that of target `i`, and a later one,
      that of target `j`, is recorded as failed. */
  function Spoiling(i: nat, j: nat): Env {
    Env(true,
        k => if k == 2 * i + 1 || k == 2 * i + 2 then Works else if k == 2 * j + 2 then Breaks else Refuses,
        k => if k == 2 * i + 1 then "processed" else "failed",
        k => "k")
  }

  function OneChunk(id: string): Loaded {
    Loaded([Chunk("", "", id + "x")])
  }

  lemma OneChunkIsIndexed(id: string)
    ensures OneChunk(id).chunks != [] && IndexText(OneChunk(id).chunks) != ""
  {
    NothingToIndex(OneChunk(id).chunks);
    assert Chunk("", "", id + "x") in OneChunk(id).chunks;
  }

  /** A target whose calls are all refused fails and leaves the store as it was. */
  lemma RefusedOne(env: Env, w: World, t: Target)
    requires env.fault(w.clock).Refuses? && env.fault(w.clock + 1).Refuses? && env.enabled
    ensures MigrateOne(env, w, t, OneChunk) == Step(World(w.rows, w.clock + 2, w.log), Failed("insert failed"))
  {
    OneChunkIsIndexed(t.documentId);
  }

  lemma {:induction false} RefusedAll(env: Env, w: World, targets: seq<Target>)
    requires env.enabled && forall k :: w.clock <= k < w.clock + 2 * |targets| ==> env.fault(k).Refuses?
    ensures MigrateAll(env, w, targets, OneChunk).world == World(w.rows, w.clock + 2 * |targets|, w.log)
    decreases |targets|
  {
    if targets != [] {
      RefusedOne(env, w, targets[0]);
      RefusedAll(env, MigrateOne(env, w, targets[0], OneChunk).world, targets[1..]);
    }
  }

  lemma RunHead(env: Env, w: World, t: Target, rest: seq<Target>, loader: string -> Loaded)
    ensures var one := MigrateOne(env, w, t, loader);
            var more := MigrateAll(env, one.world, rest, loader);
            MigrateAll(env, w, [t] + rest, loader) == Step(more.world, [one.value] + more.value)
  {
    assert ([t] + rest)[0] == t && ([t] + rest)[1..] == rest;
  }

  /** A run over two lists is a run over the one and then over the other. */
  lemma {:induction false} RunJoins(env: Env, w: World, first: seq<Target>, later: seq<Target>, loader: string -> Loaded)
    ensures var a := MigrateAll(env, w, first, loader);
            var b := MigrateAll(env, a.world, later, loader);
            MigrateAll(env, w, first + later, loader) == Step(b.world, a.value + b.value)
    decreases |first|
  {
    if first == [] {
      assert [] + later == later;
      assert [] + MigrateAll(env, w, later, loader).value == MigrateAll(env, w, later, loader).value;
    } else {
      var t, rest, one := first[0], first[1..], MigrateOne(env, w, first[0], loader);
      HeadAndTail(first);
      Associate([t], rest, later);
      RunHead(env, w, t, rest, loader);
      RunHead(env, w, t, rest + later, loader);
      RunJoins(env, one.world, rest, later, loader);
      var a := MigrateAll(env, one.world, rest, loader);
      Associate([one.value], a.value, MigrateAll(env, a.world, later, loader).value);
    }
  }

  lemma RunSplits(env: Env, w: World, targets: seq<Target>, loader: string -> Loaded, i: nat)
    requires i <= |targets|
    ensures var a := MigrateAll(env, w, targets[..i], loader);
            var b := MigrateAll(env, a.world, targets[i..], loader);
            MigrateAll(env, w, targets, loader) == Step(b.world, a.value + b.value)
  {
    assert targets == targets[..i] + targets[i..];
    RunJoins(env, w, targets[..i], targets[i..], loader);
  }

  /** A target that is indexed into the empty store. */
  lemma IndexedOne(env: Env, w: World, t: Target)
    requires env.enabled && w.rows == map[] && env.key(w.clock + 1) == "k" && env.status(w.clock + 1) == "processed"
    requires env.fault(w.clock).Refuses? && env.fault(w.clock + 1).Works? && env.fault(w.clock + 2).Works?
    ensures var r := MigrateOne(env, w, t, OneChunk);
            && r.value.Indexed? && r.world.clock == w.clock + 3
            && r.world.rows == map[t.workspace := [Row("k", RefOf(t), "processed")]]
  {
    OneChunkIsIndexed(t.documentId);
    assert Recorded([], RefOf(t), "k", "processed") == [Row("k", RefOf(t), "processed")];
  }

  /** A second insert of the same document whose processing fails. */
  lemma SpoiledOne(env: Env, w: World, t: Target)
    requires env.enabled && w.rows == map[t.workspace := [Row("k", RefOf(t), "processed")]]
    requires env.status(w.clock + 1) == "failed" && env.fault(w.clock).Refuses? && env.fault(w.clock + 1).Breaks?
    ensures var r := MigrateOne(env, w, t, OneChunk);
            r.world.clock == w.clock + 2 && r.world.rows == map[t.workspace := [Row("k", RefOf(t), "failed")]]
  {
    OneChunkIsIndexed(t.documentId);
    var rows := [Row("k", RefOf(t), "processed")];
    assert Recorded(rows, RefOf(t), env.key(w.clock + 1), "failed") == [Row("k", RefOf(t), "failed")];
  }

  /** A run, seen from target `i`: what comes before it, what it does, what comes after. */
  lemma RunAround(env: Env, w: World, targets: seq<Target>, loader: string -> Loaded, i: nat)
    requires i < |targets|
    ensures var before := MigrateAll(env, w, targets[..i], loader).world;
            var one := MigrateOne(env, before, targets[i], loader);
            var all := MigrateAll(env, w, targets, loader);
            all.value[i] == one.value && all.world == MigrateAll(env, one.world, targets[i + 1..], loader).world
  {
    RunSplits(env, w, targets, loader, i);
    assert targets[i..][0] == targets[i] && targets[i..][1..] == targets[i + 1..];
  }

  /** In a spoiling environment the first of two targets of one document is counted as
      indexed and cannot be read when the run ends. */
  lemma DuplicateSpoils(targets: seq<Target>, i: nat, j: nat)
    requires i < j < |targets| && SameDocument(targets[j], targets[i].workspace, RefOf(targets[i]))
    ensures !IndexedUsable(Spoiling(i, j), World(map[], 0, []), targets, OneChunk)
  {
    var env, w := Spoiling(i, j), World(map[], 0, []);
    var before := World(map[], 2 * i, []);
    assert MigrateAll(env, w, targets[..i], OneChunk).world == before by {
      RefusedAll(env, w, targets[..i]);
    }
    RunAround(env, w, targets, OneChunk, i);
    IndexedOne(env, before, targets[i]);
    RestSpoils(env, MigrateOne(env, before, targets[i], OneChunk).world, targets, i, j);
  }

  lemma RestSpoils(env: Env, w: World, targets: seq<Target>, i: nat, j: nat)
    requires i < j < |targets| && env == Spoiling(i, j) && w.clock == 2 * i + 3
    requires SameDocument(targets[j], targets[i].workspace, RefOf(targets[i]))
    requires w.rows == map[targets[i].workspace := [Row("k", RefOf(targets[i]), "processed")]]
    ensures !Usable(MigrateAll(env, w, targets[i + 1..], OneChunk).world.rows, targets[i].workspace, RefOf(targets[i]))
  {
    var rest, n := targets[i + 1..], j - i - 1;
    var before := World(w.rows, 2 * j + 1, w.log);
    assert MigrateAll(env, w, rest[..n], OneChunk).world == before by {
      RefusedAll(env, w, rest[..n]);
    }
    RunAround(env, w, rest, OneChunk, n);
    SpoiledOne(env, before, targets[j]);
    RefusedAll(env, MigrateOne(env, before, targets[j], OneChunk).world, rest[n + 1..]);
    NotProcessed();
  }

  lemma NotProcessed()
    ensures !Finished("failed")
  {
    assert |"failed"| == 6 && |"processed"| == 9;
  }

  ghost predicate ReliablyIndexed(targets: seq<Target>) {
    forall env: Env, w: World, loader: string -> Loaded :: AllKeysOk(w.rows) ==> IndexedUsable(env, w, targets, loader)
  }

  lemma DuplicatesAreUnreliable(targets: seq<Target>)
    requires !DistinctTargets(targets)
    ensures !ReliablyIndexed(targets)
  {
    var i, j :| 0 <= i < j < |targets| && SameDocument(targets[j], targets[i].workspace, RefOf(targets[i]));
    DuplicateSpoils(targets, i, j);
    var w := World(map[], 0, []);
    assert AllKeysOk(w.rows);
    assert !IndexedUsable(Spoiling(i, j), w, targets, OneChunk);
  }

  /** Exactly when "indexed" can be relied on: every target counted as indexed can be read
      at the end, in every environment, if and only if no two targets name the same
      document of the same workspace. */
  lemma IndexedAreUsableIff(targets: seq<Target>)
    ensures DistinctTargets(targets) <==> ReliablyIndexed(targets)
  {
    if DistinctTargets(targets) {
      forall env: Env, w: World, loader: string -> Loaded | AllKeysOk(w.rows) ensures IndexedUsable(env, w, targets, loader) {
        DistinctStayUsable(env, w, targets, loader);
      }
    } else {
      DuplicatesAreUnreliable(targets);
    }
  }

  /** Skipped means present, not readable: a document whose earlier processing failed is
      skipped and stays unreadable. */
  lemma SkippedMayBeUnusable(loader: string -> Loaded) returns (env: Env, w: World, t: Target)
    ensures AllKeysOk(w.rows) && env.enabled && forall k :: env.fault(k).Works?
    ensures var r := MigrateOne(env, w, t, loader);
            r.value == Skipped && !Usable(r.world.rows, t.workspace, RefOf(t))
  {
    t := Target("d", "f", "a");
    env := Env(true, k => Works, k => "", k => "");
    var row := Row("k1", Ref("d", "f"), "failed");
    w := World(map["a" := [row]], 0, []);
    assert RowsOf(w.rows, "a") == [row] && Page([row]) == [row];
    assert Matches("d")(row);
    NotProcessed();
  }
}
