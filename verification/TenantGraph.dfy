/** `TenantGraph` as an object: its operations against the functions of `GraphOps`. */
module TenantGraph {
  import opened Common
  import opened DocumentRef
  import opened RowStore
  import opened GraphOps
  import opened DeleteSafety
  import opened MoveSafety
  import Migration

  class TenantGraph {
    const env: Env
    var world: World

    constructor (env: Env, rows: Store)
      ensures this.env == env && world == World(rows, 0, [])
    {
      this.env := env;
      world := World(rows, 0, []);
    }

    method DeleteDocs(ws: string, id: string) returns (removed: nat)
      modifies this
      ensures var r := GraphOps.DeleteDocs(env, old(world), ws, id);
              world == r.world && removed == r.value
    {
      var page := Read(env, world, Page(RowsOf(world.rows, ws)));
      world := page.world;
      if page.value.None? {
        return 0;
      }
      var rows := page.value.value;
      ghost var goal := DeleteRows(env, world, ws, rows, id, 0);
      removed := 0;
      for i := 0 to |rows|
        invariant DeleteRows(env, world, ws, rows[i..], id, removed) == goal
      {
        assert rows[i..][0] == rows[i] && rows[i..][1..] == rows[i + 1..];
        if Matches(id)(rows[i]) && rows[i].key != "" {
          var r := ADelete(env, world, ws, rows[i].key);
          world := r.world;
          if !r.value {
            return 0;
          }
          removed := removed + 1;
        }
      }
    }

    method Delete(ws: string, id: string) returns (ok: bool)
      modifies this
      ensures var r := GraphOps.Delete(env, old(world), ws, id);
              world == r.world && ok == r.value
      ensures OnlyTouches(old(world), world, ws)
      ensures !env.enabled ==> !ok && world == old(world)
      ensures KeysOk(RowsOf(old(world).rows, ws)) ==>
                var n := Hits(RowsOf(old(world).rows, ws), id);
                && DeletedExactly(old(world), world, ok, ws, id)
                && (ok <==> env.enabled && n > 0 && AllWork(env, old(world).clock, 1 + n))
    {
      DeleteIsLocal(env, world, ws, id);
      if KeysOk(RowsOf(world.rows, ws)) {
        DeleteIsExact(env, world, ws, id);
        DeleteSucceedsIff(env, world, ws, id);
      }
      if !env.enabled {
        return false;
      }
      var removed := DeleteDocs(ws, id);
      ok := removed > 0;
    }

    method Insert(ws: string, id: string, filename: string, chunks: seq<Chunk>) returns (ok: bool)
      modifies this
      ensures var r := GraphOps.Insert(env, old(world), ws, id, filename, chunks);
              world == r.world && ok == r.value
      ensures InsertedOnly(old(world), world, ok, ws, Ref(id, filename))
      ensures ok <==> InsertSucceeds(env, old(world), ws, Ref(id, filename), chunks)
      ensures !env.enabled || (forall c :: c in chunks ==> c.content == "") ==> !ok && world == old(world)
    {
      InsertIsLocal(env, world, ws, id, filename, chunks);
      InsertSucceedsIff(env, world, ws, id, filename, chunks);
      NothingToIndex(chunks);
      if !env.enabled || IndexText(chunks) == "" {
        return false;
      }
      var path := Ref(id, filename);
      var r := AInsert(env, world, ws, path);
      world := r.world;
      if !r.value {
        return false;
      }
      r := IsUsable(env, world, ws, path);
      world := r.world;
      ok := r.value;
    }

    method Move(from: string, to: string, id: string, filename: string, chunks: seq<Chunk>) returns (ok: bool)
      modifies this
      ensures var r := GraphOps.Move(env, old(world), from, to, id, filename, chunks);
              world == r.world && ok == r.value
      ensures Usable(old(world).rows, from, Ref(id, filename)) ==>
                AlwaysReadable(old(world), world, from, to, Ref(id, filename))
      ensures ok && from != to ==> Usable(world.rows, to, Ref(id, filename))
      ensures ok <==> env.enabled && (from == to || InsertSucceeds(env, old(world), to, Ref(id, filename), chunks))
      ensures !ok ==> RowsOf(world.rows, from) == RowsOf(old(world).rows, from)
      ensures !env.enabled || from == to ==> world == old(world)
    {
      if Usable(world.rows, from, Ref(id, filename)) {
        MoveNeverLoses(env, world, from, to, id, filename, chunks);
      }
      if !env.enabled {
        return false;
      }
      if from == to {
        return true;
      }
      var indexed := Insert(to, id, filename, chunks);
      if !indexed {
        return false;
      }
      ghost var built := world;
      var _ := Delete(from, id);
      assert world.rows in Trace(built, world);
      ok := true;
    }

    method MigrateLegacy(targets: seq<Target>, loader: string -> Loaded) returns (report: Report)
      modifies this
      ensures var r := MigrateAll(env, old(world), targets, loader);
              world == r.world && report == Tally(EMPTY_REPORT, targets, r.value)
      ensures Migration.Reports(report, targets, MigrateAll(env, old(world), targets, loader).value)
    {
      Migration.ReportAddsUp(env, world, targets, loader);
      report := EMPTY_REPORT;
      for i := 0 to |targets|
        invariant MigrateAll(env, old(world), targets, loader).world == MigrateAll(env, world, targets[i..], loader).world
        invariant Tally(EMPTY_REPORT, targets, MigrateAll(env, old(world), targets, loader).value)
                  == Tally(report, targets[i..], MigrateAll(env, world, targets[i..], loader).value)
      {
        var t := targets[i];
        assert targets[i..][0] == t && targets[i..][1..] == targets[i + 1..];
        ghost var one := MigrateOne(env, world, t, loader);
        ghost var rest := MigrateAll(env, one.world, targets[i + 1..], loader).value;
        assert ([one.value] + rest)[1..] == rest;
        var has := HasDocument(env, world, t.workspace, t.documentId);
        world := has.world;
        if has.value {
          report := report.(skipped := report.skipped + 1);
          continue;
        }
        match loader(t.documentId)
        case Raised(reason) =>
          report := report.(failed := report.failed + 1,
                            details := report.details + [(t.documentId, reason[..Min(200, |reason|)])]);
        case Loaded(chunks) =>
          if chunks == [] {
            report := report.(failed := report.failed + 1, details := report.details + [(t.documentId, "no chunks")]);
          } else {
            var ok := Insert(t.workspace, t.documentId, t.filename, chunks);
            if ok {
              report := report.(indexed := report.indexed + 1);
            } else {
              report := report.(failed := report.failed + 1,
                                details := report.details + [(t.documentId, "insert failed")]);
            }
          }
      }
    }
  }
}
