/** Inserting and deleting: what is written, what is removed and what is never touched, in
    every store a run passes through, whichever external call fails. */
module DeleteSafety {
  import opened Common
  import opened DocumentRef
  import opened RowStore
  import opened GraphOps

  // ----- the stores a run passes through -----

  /** Every store between two worlds of one run: after each write, and at the end. A run
      that is cut short stops in one of them. */
  ghost function Trace(w: World, w': World): seq<Store> {
    if w.log <= w'.log then w'.log[|w.log|..] + [w'.rows] else []
  }

  /** The run only adds to the log, and in every store it passes through all workspaces but
      `ws` are as they were. */
  ghost predicate OnlyTouches(w: World, w': World, ws: string) {
    && w.log <= w'.log && w.clock <= w'.clock
    && forall h, v :: h in Trace(w, w') && v != ws ==> RowsOf(h, v) == RowsOf(w.rows, v)
  }

  lemma TraceSplits(a: World, b: World, c: World)
    requires a.log <= b.log <= c.log
    ensures forall h :: h in Trace(a, c) ==> h in Trace(a, b) || h in Trace(b, c)
  {
    assert c.log[|a.log|..] == b.log[|a.log|..] + c.log[|b.log|..];
  }

  lemma TouchesJoin(a: World, b: World, c: World, ws: string)
    requires OnlyTouches(a, b, ws) && OnlyTouches(b, c, ws)
    ensures OnlyTouches(a, c, ws)
  {
    TraceSplits(a, b, c);
    assert b.rows in Trace(a, b);
  }

  lemma QuietStep(w: World, w': World, ws: string)
    requires w'.rows == w.rows && w'.log == w.log && w.clock <= w'.clock
    ensures OnlyTouches(w, w', ws) && Trace(w, w') == [w.rows]
  {
  }

  lemma WriteStep(w: World, ws: string, rows: seq<Row>)
    ensures var w' := Written(w, w.rows[ws := rows]);
            OnlyTouches(w, w', ws) && RowsOf(w'.rows, ws) == rows
            && Trace(w, w') == [w'.rows, w'.rows]
  {
  }

  // ----- insert -----

  /** From `w` to `w'` only rows of `path` in `ws` change, and after success it can be read. */
  ghost predicate InsertedOnly(w: World, w': World, ok: bool, ws: string, path: string) {
    && OnlyTouches(w, w', ws)
    && Filter(RowsOf(w'.rows, ws), PathIsNot(path)) == Filter(RowsOf(w.rows, ws), PathIsNot(path))
    && (ok ==> Usable(w'.rows, ws, path))
  }

  lemma InsertIsLocal(env: Env, w: World, ws: string, id: string, filename: string, chunks: seq<Chunk>)
    ensures var r := Insert(env, w, ws, id, filename, chunks);
            InsertedOnly(w, r.world, r.value, ws, Ref(id, filename))
  {
    if env.enabled && IndexText(chunks) != "" {
      var path := Ref(id, filename);
      var rows := Recorded(RowsOf(w.rows, ws), path, env.key(w.clock), env.status(w.clock));
      var a := AInsert(env, w, ws, path);
      RecordedOnly(RowsOf(w.rows, ws), path, env.key(w.clock), env.status(w.clock));
      if env.fault(w.clock).Refuses? {
        QuietStep(w, a.world, ws);
      } else {
        WriteStep(w, ws, rows);
      }
      var u := IsUsable(env, a.world, ws, path);
      QuietStep(a.world, u.world, ws);
      TouchesJoin(w, a.world, u.world, ws);
    } else {
      QuietStep(w, w, ws);
    }
  }

  /** No row has this key, which is not empty. */
  ghost predicate FreshKey(rows: seq<Row>, key: string) {
    key != "" && forall r :: r in rows ==> r.key != key
  }

  /** When an insert that starts in `w` succeeds: there is something to index, both calls
      work, the row can be recorded, and processing ends with no status or "processed". */
  ghost predicate InsertSucceeds(env: Env, w: World, ws: string, path: string, chunks: seq<Chunk>) {
    var rows, status := RowsOf(w.rows, ws), env.status(w.clock);
    && env.enabled && (exists c :: c in chunks && c.content != "")
    && env.fault(w.clock).Works? && env.fault(w.clock + 1).Works?
    && ((exists r :: r in rows && r.filePath == path) || FreshKey(rows, env.key(w.clock)))
    && (status == "" || status == "processed")
  }

  lemma {:induction false} StatusIsSet(rows: seq<Row>, path: string, status: string)
    requires ByPath(rows, path).Some?
    ensures ByPath(SetStatus(rows, path, status), path).Some?
    ensures ByPath(SetStatus(rows, path, status), path).value.status == status
  {
    if rows[0].filePath != path {
      StatusIsSet(rows[1..], path, status);
    }
  }

  lemma RecordedStatus(rows: seq<Row>, path: string, key: string, status: string)
    ensures var r := ByPath(Recorded(rows, path, key, status), path);
            && (r.Some? <==> (exists x :: x in rows && x.filePath == path) || FreshKey(rows, key))
            && (r.Some? ==> r.value.status == status)
  {
    ByPathFinds(rows, path);
    FilterMembers(rows, KeyIs(key));
    if ByPath(rows, path).Some? {
      StatusIsSet(rows, path, status);
    } else {
      ByPathAppend(rows, Row(key, path, status), path);
      if Filter(rows, KeyIs(key)) != [] {
        assert Filter(rows, KeyIs(key))[0] in rows;
      }
    }
  }

  /** Exactly when an insert reports success. */
  lemma InsertSucceedsIff(env: Env, w: World, ws: string, id: string, filename: string, chunks: seq<Chunk>)
    ensures Insert(env, w, ws, id, filename, chunks).value <==> InsertSucceeds(env, w, ws, Ref(id, filename), chunks)
  {
    NothingToIndex(chunks);
    RecordedStatus(RowsOf(w.rows, ws), Ref(id, filename), env.key(w.clock), env.status(w.clock));
  }

  // ----- delete -----

  lemma KeyUnique(a: seq<Row>, row: Row, b: seq<Row>)
    requires KeysOk(a + [row] + b)
    ensures Filter(a + [row] + b, KeyIsNot(row.key)) == a + b
    ensures KeysOk(a + b) && row.key != ""
  {
    KeysOfRest(a, row, b);
    FilterDrops(a, row, b, KeyIsNot(row.key));
    FilterKeepsAll(a + b, KeyIsNot(row.key));
  }

  lemma KeysOfRest(a: seq<Row>, row: Row, b: seq<Row>)
    requires KeysOk(a + [row] + b)
    ensures KeysOk(a + b) && row.key != "" && forall r :: r in a + b ==> r.key != row.key
  {
    var all, less := a + [row] + b, a + b;
    assert all[|a|] == row;
    forall i | 0 <= i < |less| ensures less[i] == all[if i < |a| then i else i + 1] {
    }
  }

  lemma FilterDrops(a: seq<Row>, row: Row, b: seq<Row>, p: Row -> bool)
    requires !p(row)
    ensures Filter(a + [row] + b, p) == Filter(a + b, p)
  {
    FilterAppend(a, b, p);
    FilterAppend(a, [row] + b, p);
    assert ([row] + b)[1..] == b;
    assert a + [row] + b == a + ([row] + b);
  }

  /** What one run of the deletion loop may leave behind: rows that do not match are all
      kept, in every store it passes through. */
  ghost predicate KeepsOthers(w: World, w': World, ws: string, id: string) {
    && OnlyTouches(w, w', ws)
    && forall h :: h in Trace(w, w') ==>
         Filter(RowsOf(h, ws), MatchesNot(id)) == Filter(RowsOf(w.rows, ws), MatchesNot(id))
  }

  lemma KeepsJoin(a: World, b: World, c: World, ws: string, id: string)
    requires KeepsOthers(a, b, ws, id) && KeepsOthers(b, c, ws, id)
    ensures KeepsOthers(a, c, ws, id)
  {
    TouchesJoin(a, b, c, ws);
    TraceSplits(a, b, c);
    assert b.rows in Trace(a, b);
  }

  lemma RowRemoved(env: Env, w: World, ws: string, a: seq<Row>, row: Row, b: seq<Row>, id: string)
    requires RowsOf(w.rows, ws) == a + [row] + b && KeysOk(a + [row] + b) && Matches(id)(row)
    ensures var r := ADelete(env, w, ws, row.key);
            && KeepsOthers(w, r.world, ws, id)
            && (r.value ==> RowsOf(r.world.rows, ws) == a + b && KeysOk(a + b))
  {
    KeyUnique(a, row, b);
    if env.fault(w.clock).Refuses? {
      QuietStep(w, Ticked(w), ws);
    } else {
      WriteStep(w, ws, a + b);
      FilterDrops(a, row, b, MatchesNot(id));
    }
  }

  /** What the loop over a page `p` establishes; `p` lies between rows that were kept and
      rows beyond the page. */
  ghost predicate LoopDone(
    w: World, ws: string, kept: seq<Row>, p: seq<Row>, later: seq<Row>, id: string, removed: nat, r: Step<Option<nat>>)
  {
    && KeepsOthers(w, r.world, ws, id)
    && (r.value.Some? ==>
          && RowsOf(r.world.rows, ws) == kept + Filter(p, MatchesNot(id)) + later
          && r.value.value == removed + |p| - |Filter(p, MatchesNot(id))|)
  }

  lemma {:induction false} DeleteRowsExact(
    env: Env, w: World, ws: string, kept: seq<Row>, p: seq<Row>, later: seq<Row>, id: string, removed: nat)
    requires RowsOf(w.rows, ws) == kept + p + later && KeysOk(kept + p + later)
    ensures LoopDone(w, ws, kept, p, later, id, removed, DeleteRows(env, w, ws, p, id, removed))
    decreases |p|
  {
    if p == [] {
      QuietStep(w, w, ws);
      assert kept + [] == kept;
    } else {
      var row, rest := p[0], p[1..];
      Regroup(kept, row, rest, later);
      assert p == [row] + rest;
      if !Matches(id)(row) {
        DeleteRowsExact(env, w, ws, kept + [row], rest, later, id, removed);
        KeptThenLoop(w, ws, kept, row, rest, later, id, removed, DeleteRows(env, w, ws, rest, id, removed));
      } else {
        KeyUnique(kept, row, rest + later);
        RowRemoved(env, w, ws, kept, row, rest + later, id);
        var r := ADelete(env, w, ws, row.key);
        if r.value {
          DeleteRowsExact(env, r.world, ws, kept, rest, later, id, removed + 1);
          RowThenLoop(w, r.world, ws, kept, row, rest, later, id, removed, DeleteRows(env, r.world, ws, rest, id, removed + 1));
        }
      }
    }
  }

  lemma FilterHead(row: Row, rest: seq<Row>, p: Row -> bool)
    ensures Filter([row] + rest, p) == (if p(row) then [row] else []) + Filter(rest, p)
  {
    assert ([row] + rest)[1..] == rest;
  }

  lemma KeptThenLoop(
    w: World, ws: string, kept: seq<Row>, row: Row, rest: seq<Row>, later: seq<Row>, id: string,
    removed: nat, r: Step<Option<nat>>)
    requires LoopDone(w, ws, kept + [row], rest, later, id, removed, r) && !Matches(id)(row)
    ensures LoopDone(w, ws, kept, [row] + rest, later, id, removed, r)
  {
    FilterHead(row, rest, MatchesNot(id));
    Regroup(kept, row, Filter(rest, MatchesNot(id)), later);
  }

  lemma RowThenLoop(
    w: World, m: World, ws: string, kept: seq<Row>, row: Row, rest: seq<Row>, later: seq<Row>, id: string,
    removed: nat, r: Step<Option<nat>>)
    requires KeepsOthers(w, m, ws, id) && Matches(id)(row)
    requires LoopDone(m, ws, kept, rest, later, id, removed + 1, r)
    ensures LoopDone(w, ws, kept, [row] + rest, later, id, removed, r)
  {
    assert KeepsOthers(w, r.world, ws, id) by {
      KeepsJoin(w, m, r.world, ws, id);
    }
    assert Filter([row] + rest, MatchesNot(id)) == Filter(rest, MatchesNot(id)) by {
      FilterHead(row, rest, MatchesNot(id));
    }
  }

  lemma Regroup(kept: seq<Row>, row: Row, rest: seq<Row>, later: seq<Row>)
    ensures kept + ([row] + rest) + later == kept + [row] + rest + later
    ensures kept + ([row] + rest) + later == kept + [row] + (rest + later)
    ensures kept + (rest + later) == kept + rest + later
  {
  }

  lemma DeleteDocsExact(env: Env, w: World, ws: string, id: string)
    requires KeysOk(RowsOf(w.rows, ws))
    ensures var r, rows := DeleteDocs(env, w, ws, id), RowsOf(w.rows, ws);
            && KeepsOthers(w, r.world, ws, id)
            && (r.value > 0 ==>
                  && RowsOf(r.world.rows, ws) == Filter(Page(rows), MatchesNot(id)) + rows[|Page(rows)|..]
                  && r.value == |Page(rows)| - |Filter(Page(rows), MatchesNot(id))|)
  {
    var rows := RowsOf(w.rows, ws);
    var page := Read(env, w, Page(rows));
    QuietStep(w, page.world, ws);
    if page.value.Some? {
      var later := rows[|Page(rows)|..];
      PageSplit(rows);
      DeleteRowsExact(env, page.world, ws, [], Page(rows), later, id, 0);
      var r := DeleteRows(env, page.world, ws, Page(rows), id, 0);
      assert KeepsOthers(w, r.world, ws, id) by {
        KeepsJoin(w, page.world, r.world, ws, id);
      }
      assert [] + Filter(Page(rows), MatchesNot(id)) == Filter(Page(rows), MatchesNot(id));
    }
  }

  lemma PageSplit(rows: seq<Row>)
    ensures rows == [] + Page(rows) + rows[|Page(rows)|..]
  {
  }

  lemma {:induction false} DeleteRowsLocal(env: Env, w: World, ws: string, p: seq<Row>, id: string, removed: nat)
    ensures OnlyTouches(w, DeleteRows(env, w, ws, p, id, removed).world, ws)
    decreases |p|
  {
    if p == [] {
      QuietStep(w, w, ws);
    } else if !Matches(id)(p[0]) || p[0].key == "" {
      DeleteRowsLocal(env, w, ws, p[1..], id, removed);
    } else {
      var r := ADelete(env, w, ws, p[0].key);
      if env.fault(w.clock).Refuses? {
        QuietStep(w, r.world, ws);
      } else {
        WriteStep(w, ws, Filter(RowsOf(w.rows, ws), KeyIsNot(p[0].key)));
      }
      if r.value {
        DeleteRowsLocal(env, r.world, ws, p[1..], id, removed + 1);
        TouchesJoin(w, r.world, DeleteRows(env, r.world, ws, p[1..], id, removed + 1).world, ws);
      }
    }
  }

  /** A delete touches its own workspace only, whatever the rows look like. */
  lemma DeleteIsLocal(env: Env, w: World, ws: string, id: string)
    ensures OnlyTouches(w, Delete(env, w, ws, id).world, ws)
  {
    var rows := RowsOf(w.rows, ws);
    var page := Read(env, w, Page(rows));
    QuietStep(w, w, ws);
    QuietStep(w, page.world, ws);
    DeleteRowsLocal(env, page.world, ws, Page(rows), id, 0);
    TouchesJoin(w, page.world, DeleteRows(env, page.world, ws, Page(rows), id, 0).world, ws);
  }

  /** From `w` to `w'` only rows that match `id` in `ws` go; after success all of them on
      the first page are gone, and there was at least one. */
  ghost predicate DeletedExactly(w: World, w': World, ok: bool, ws: string, id: string) {
    var rows := RowsOf(w.rows, ws);
    && KeepsOthers(w, w', ws, id)
    && (ok ==>
          && RowsOf(w'.rows, ws) == Filter(Page(rows), MatchesNot(id)) + rows[|Page(rows)|..]
          && |RowsOf(w'.rows, ws)| < |rows|)
  }

  /** A delete that reports success has removed every matching row of the first page, at
      least one, and nothing else anywhere; one that reports failure may have removed some
      matching rows, but nothing else. */
  lemma DeleteIsExact(env: Env, w: World, ws: string, id: string)
    requires KeysOk(RowsOf(w.rows, ws))
    ensures var r := Delete(env, w, ws, id);
            DeletedExactly(w, r.world, r.value, ws, id)
  {
    DeleteDocsExact(env, w, ws, id);
    QuietStep(w, w, ws);
  }

  // ----- when a delete succeeds, and when it leaves nothing -----

  ghost predicate Gone(rows: seq<Row>, id: string) {
    forall r :: r in rows ==> !Matches(id)(r)
  }

  /** How many rows of the first page a delete of `id` goes for. */
  function Hits(rows: seq<Row>, id: string): nat {
    |Filter(Page(rows), Matches(id))|
  }

  predicate AllWork(env: Env, clock: nat, n: nat)
    decreases n
  {
    n == 0 || (env.fault(clock).Works? && AllWork(env, clock + 1, n - 1))
  }

  /** `n` calls in a row take effect when each stops at the first exception: all work, but
      the last may raise after its effect. */
  predicate TakeEffect(env: Env, clock: nat, n: nat)
    decreases n
  {
    n == 0 ||
    (if n == 1 then !env.fault(clock).Refuses?
     else env.fault(clock).Works? && TakeEffect(env, clock + 1, n - 1))
  }

  lemma {:induction false} RowsDeletedIff(env: Env, w: World, ws: string, p: seq<Row>, id: string, removed: nat)
    requires forall r :: r in p ==> r.key != ""
    ensures var r, n := DeleteRows(env, w, ws, p, id, removed), |Filter(p, Matches(id))|;
            && (r.value.Some? <==> AllWork(env, w.clock, n))
            && (r.value.Some? ==> r.value.value == removed + n)
    decreases |p|
  {
    if p != [] {
      assert p[0] in p;
      if Matches(id)(p[0]) {
        RowsDeletedIff(env, ADelete(env, w, ws, p[0].key).world, ws, p[1..], id, removed + 1);
      } else {
        RowsDeletedIff(env, w, ws, p[1..], id, removed);
      }
    }
  }

  /** Exactly when a delete reports success: something matched on the first page, and no
      call raised. */
  lemma DeleteSucceedsIff(env: Env, w: World, ws: string, id: string)
    requires KeysOk(RowsOf(w.rows, ws))
    ensures var n := Hits(RowsOf(w.rows, ws), id);
            Delete(env, w, ws, id).value <==> env.enabled && n > 0 && AllWork(env, w.clock, 1 + n)
  {
    var rows := RowsOf(w.rows, ws);
    forall r | r in Page(rows) ensures r.key != "" {
      assert r in rows;
    }
    RowsDeletedIff(env, Read(env, w, Page(rows)).world, ws, Page(rows), id, 0);
  }

  lemma RowGone(env: Env, w: World, ws: string, a: seq<Row>, row: Row, b: seq<Row>)
    requires RowsOf(w.rows, ws) == a + [row] + b && KeysOk(a + [row] + b)
    ensures var r := ADelete(env, w, ws, row.key).world;
            && r.clock == w.clock + 1 && row.key != ""
            && RowsOf(r.rows, ws) == (if env.fault(w.clock).Refuses? then a + [row] + b else a + b) && KeysOk(a + b)
  {
    KeyUnique(a, row, b);
  }

  lemma TakeEffectStep(env: Env, clock: nat, n: nat)
    ensures TakeEffect(env, clock, 1 + n) <==>
            if n == 0 then !env.fault(clock).Refuses? else env.fault(clock).Works? && TakeEffect(env, clock + 1, n)
  {
  }

  lemma GoneParts(a: seq<Row>, b: seq<Row>, c: seq<Row>, id: string)
    ensures Gone(a + b + c, id) <==> Gone(a, id) && Gone(b, id) && Gone(c, id)
  {
    assert forall r :: r in a || r in b || r in c ==> r in a + b + c;
  }

  lemma GoneIsNoHit(rows: seq<Row>, id: string)
    ensures Gone(rows, id) <==> |Filter(rows, Matches(id))| == 0
  {
    FilterMembers(rows, Matches(id));
    if Filter(rows, Matches(id)) != [] {
      assert Filter(rows, Matches(id))[0] in rows;
    }
  }

  lemma DeleteRowsHead(env: Env, w: World, ws: string, row: Row, rest: seq<Row>, id: string, removed: nat)
    requires row.key != "" && Matches(id)(row)
    ensures var a := ADelete(env, w, ws, row.key);
            DeleteRows(env, w, ws, [row] + rest, id, removed)
            == if a.value then DeleteRows(env, a.world, ws, rest, id, removed + 1) else Step(a.world, None)
    ensures |Filter([row] + rest, Matches(id))| == 1 + |Filter(rest, Matches(id))|
  {
    assert ([row] + rest)[1..] == rest;
  }

  lemma DeleteRowsSkip(env: Env, w: World, ws: string, row: Row, rest: seq<Row>, id: string, removed: nat)
    requires !Matches(id)(row)
    ensures DeleteRows(env, w, ws, [row] + rest, id, removed) == DeleteRows(env, w, ws, rest, id, removed)
    ensures Filter([row] + rest, Matches(id)) == Filter(rest, Matches(id))
  {
    assert ([row] + rest)[1..] == rest;
  }

  /** The rows of the workspace are `p` between kept rows, none of which match, and later ones. */
  ghost predicate Between(w: World, ws: string, kept: seq<Row>, p: seq<Row>, later: seq<Row>, id: string) {
    RowsOf(w.rows, ws) == kept + p + later && KeysOk(kept + p + later) && Gone(kept, id)
  }

  /** A loop over `p` that started in `w` and ended in `end` left nothing if and only if
      its calls took effect and nothing came later. */
  ghost predicate LoopClears(env: Env, w: World, ws: string, later: seq<Row>, p: seq<Row>, id: string, end: World) {
    Gone(RowsOf(end.rows, ws), id) <==> Gone(later, id) && TakeEffect(env, w.clock, |Filter(p, Matches(id))|)
  }

  lemma KeptOne(w: World, ws: string, kept: seq<Row>, row: Row, rest: seq<Row>, later: seq<Row>, id: string)
    requires Between(w, ws, kept, [row] + rest, later, id) && !Matches(id)(row)
    ensures Between(w, ws, kept + [row], rest, later, id)
  {
    Regroup(kept, row, rest, later);
  }

  lemma DeletedOne(env: Env, w: World, ws: string, kept: seq<Row>, row: Row, rest: seq<Row>, later: seq<Row>, id: string)
    requires Between(w, ws, kept, [row] + rest, later, id)
    ensures var next := ADelete(env, w, ws, row.key).world;
            && row.key != "" && next.clock == w.clock + 1
            && (!env.fault(w.clock).Refuses? ==> Between(next, ws, kept, rest, later, id))
            && (env.fault(w.clock).Refuses? ==> next.rows == w.rows)
  {
    Regroup(kept, row, rest, later);
    RowGone(env, w, ws, kept, row, rest + later);
  }

  /** A first call that raises ends the loop; its row is gone if it took effect. */
  lemma RaisedOne(env: Env, w: World, ws: string, kept: seq<Row>, row: Row, rest: seq<Row>, later: seq<Row>, id: string)
    requires Between(w, ws, kept, [row] + rest, later, id) && Matches(id)(row) && !env.fault(w.clock).Works?
    ensures LoopClears(env, w, ws, later, [row] + rest, id, ADelete(env, w, ws, row.key).world)
  {
    DeletedOne(env, w, ws, kept, row, rest, later, id);
    DeleteRowsHead(env, w, ws, row, rest, id, 0);
    TakeEffectStep(env, w.clock, |Filter(rest, Matches(id))|);
    GoneParts(kept, [row] + rest, later, id);
    GoneParts(kept, rest, later, id);
    GoneIsNoHit(rest, id);
    assert row in [row] + rest;
  }

  lemma {:induction false} RowsGoneIff(
    env: Env, w: World, ws: string, kept: seq<Row>, p: seq<Row>, later: seq<Row>, id: string, removed: nat)
    requires Between(w, ws, kept, p, later, id)
    ensures LoopClears(env, w, ws, later, p, id, DeleteRows(env, w, ws, p, id, removed).world)
    decreases |p|
  {
    if p == [] {
      GoneParts(kept, p, later, id);
    } else {
      var row, rest := p[0], p[1..];
      assert p == [row] + rest;
      if !Matches(id)(row) {
        DeleteRowsSkip(env, w, ws, row, rest, id, removed);
        KeptOne(w, ws, kept, row, rest, later, id);
        RowsGoneIff(env, w, ws, kept + [row], rest, later, id, removed);
      } else {
        DeletedOne(env, w, ws, kept, row, rest, later, id);
        DeleteRowsHead(env, w, ws, row, rest, id, removed);
        if env.fault(w.clock).Works? {
          RowsGoneIff(env, ADelete(env, w, ws, row.key).world, ws, kept, rest, later, id, removed + 1);
          TakeEffectStep(env, w.clock, |Filter(rest, Matches(id))|);
        } else {
          RaisedOne(env, w, ws, kept, row, rest, later, id);
        }
      }
    }
  }

  /** Exactly when a delete that starts at call `clock` leaves no row of the document. */
  ghost predicate Clears(env: Env, clock: nat, rows: seq<Row>, id: string) {
    && Gone(rows[|Page(rows)|..], id)
    && (Hits(rows, id) == 0 || (env.fault(clock).Works? && TakeEffect(env, clock + 1, Hits(rows, id))))
  }

  /** A delete, whatever it reports, leaves no row of the document if and only if none lies
      beyond the first page and its calls take effect. */
  lemma DeleteLeavesNothingIff(env: Env, w: World, ws: string, id: string)
    requires KeysOk(RowsOf(w.rows, ws)) && env.enabled
    ensures Gone(RowsOf(Delete(env, w, ws, id).world.rows, ws), id) <==> Clears(env, w.clock, RowsOf(w.rows, ws), id)
  {
    var rows := RowsOf(w.rows, ws);
    var page, later := Page(rows), rows[|Page(rows)|..];
    PageSplit(rows);
    GoneParts([], page, later, id);
    GoneIsNoHit(page, id);
    if env.fault(w.clock).Works? {
      RowsGoneIff(env, Ticked(w), ws, [], page, later, id, 0);
      assert Delete(env, w, ws, id).world == DeleteRows(env, Ticked(w), ws, page, id, 0).world;
    } else {
      assert Delete(env, w, ws, id).world == Ticked(w);
    }
  }

  /** After a successful delete the document is gone exactly when it had no row beyond the
      first page, which is always so in a workspace of at most 1000 rows. */
  lemma DeleteIsComplete(env: Env, w: World, ws: string, id: string)
    requires KeysOk(RowsOf(w.rows, ws)) && Delete(env, w, ws, id).value
    ensures var rows := RowsOf(w.rows, ws);
            (forall r :: r in RowsOf(Delete(env, w, ws, id).world.rows, ws) ==> !(id + "__" <= r.filePath))
            <==> (forall r :: r in rows[Min(1000, |rows|)..] ==> !(id + "__" <= r.filePath))
  {
    DeleteIsExact(env, w, ws, id);
    FilterMembers(Page(RowsOf(w.rows, ws)), MatchesNot(id));
  }

  function PathIs(path: string): Row -> bool {
    (r: Row) => r.filePath == path
  }

  lemma {:induction false} FilterWithin(s: seq<Row>, p: Row -> bool, q: Row -> bool)
    requires forall r :: q(r) ==> p(r)
    ensures Filter(Filter(s, p), q) == Filter(s, q)
  {
    if s != [] {
      FilterWithin(s[1..], p, q);
      var head := if p(s[0]) then [s[0]] else [];
      FilterAppend(head, Filter(s[1..], p), q);
      assert Filter(head, q) == if q(s[0]) then [s[0]] else [];
    }
  }

  /** Between clean ids, deleting one document leaves every row of every other document. */
  lemma DeleteSparesOthers(env: Env, w: World, ws: string, d: string, e: string, filename: string)
    requires KeysOk(RowsOf(w.rows, ws)) && Clean(d) && Clean(e) && d != e
    ensures Filter(RowsOf(Delete(env, w, ws, d).world.rows, ws), PathIs(Ref(e, filename)))
            == Filter(RowsOf(w.rows, ws), PathIs(Ref(e, filename)))
  {
    DeleteIsExact(env, w, ws, d);
    PrefixIdentifies(d, e, filename);
    var w' := Delete(env, w, ws, d).world;
    assert w'.rows in Trace(w, w');
    FilterWithin(RowsOf(w'.rows, ws), MatchesNot(d), PathIs(Ref(e, filename)));
    FilterWithin(RowsOf(w.rows, ws), MatchesNot(d), PathIs(Ref(e, filename)));
  }
}
