/** Moving: a document that moves is readable at every moment, whichever external call
    fails, and exactly when its old workspace is rid of it. */
module MoveSafety {
  import opened Common
  import opened DocumentRef
  import opened RowStore
  import opened GraphOps
  import opened DeleteSafety

  /** In every store between two worlds the document can be read in one of two places. */
  ghost predicate AlwaysReadable(w: World, w': World, from: string, to: string, path: string) {
    w.log <= w'.log && forall h :: h in Trace(w, w') ==> Usable(h, from, path) || Usable(h, to, path)
  }

  lemma ReadableWhileUntouched(w: World, w': World, touched: string, from: string, to: string, path: string)
    requires OnlyTouches(w, w', touched)
    requires (touched != from && Usable(w.rows, from, path)) || (touched != to && Usable(w.rows, to, path))
    ensures AlwaysReadable(w, w', from, to, path)
  {
  }

  /** A move never loses the document: if it can be read in its old workspace, then in
      every store the run passes through it can be read in the old or in the new one,
      whichever calls fail and wherever the run is cut short. */
  lemma MoveNeverLoses(env: Env, w: World, from: string, to: string, id: string, filename: string, chunks: seq<Chunk>)
    requires Usable(w.rows, from, Ref(id, filename))
    ensures AlwaysReadable(w, Move(env, w, from, to, id, filename, chunks).world, from, to, Ref(id, filename))
  {
    var path := Ref(id, filename);
    if env.enabled && from != to {
      var r := Insert(env, w, to, id, filename, chunks);
      InsertIsLocal(env, w, to, id, filename, chunks);
      ReadableWhileUntouched(w, r.world, to, from, to, path);
      if r.value {
        var d := Delete(env, r.world, from, id);
        DeleteIsLocal(env, r.world, from, id);
        ReadableWhileUntouched(r.world, d.world, from, from, to, path);
        TraceSplits(w, r.world, d.world);
      }
    }
  }

  /** The store a run ends with is one it passes through. */
  lemma EndUntouched(w: World, w': World, ws: string)
    requires OnlyTouches(w, w', ws)
    ensures forall v :: v != ws ==> RowsOf(w'.rows, v) == RowsOf(w.rows, v)
  {
    assert w'.rows in Trace(w, w');
  }

  lemma EndKeepsOthers(w: World, w': World, ws: string, id: string)
    requires KeepsOthers(w, w', ws, id)
    ensures Filter(RowsOf(w'.rows, ws), MatchesNot(id)) == Filter(RowsOf(w.rows, ws), MatchesNot(id))
  {
    assert w'.rows in Trace(w, w');
  }

  /** What a move leaves: a reported failure leaves the old workspace as it was; other
      workspaces, other paths in the new one and rows of the old one whose path does not
      carry the prefix of `id` never change. A move to the same workspace does nothing. */
  lemma MoveOutcome(env: Env, w: World, from: string, to: string, id: string, filename: string, chunks: seq<Chunk>)
    requires KeysOk(RowsOf(w.rows, from))
    ensures var r, path := Move(env, w, from, to, id, filename, chunks), Ref(id, filename);
            && (from == to ==> r == Step(w, env.enabled))
            && (from != to && r.value ==> Usable(r.world.rows, to, path))
            && (!r.value ==> RowsOf(r.world.rows, from) == RowsOf(w.rows, from))
            && (from != to ==>
                  && Filter(RowsOf(r.world.rows, to), PathIsNot(path)) == Filter(RowsOf(w.rows, to), PathIsNot(path))
                  && Filter(RowsOf(r.world.rows, from), MatchesNot(id)) == Filter(RowsOf(w.rows, from), MatchesNot(id)))
            && (forall v :: v != from && v != to ==> RowsOf(r.world.rows, v) == RowsOf(w.rows, v))
  {
    if from != to && env.enabled {
      var r := Insert(env, w, to, id, filename, chunks);
      InsertIsLocal(env, w, to, id, filename, chunks);
      EndUntouched(w, r.world, to);
      if r.value {
        DeleteIsExact(env, r.world, from, id);
        EndUntouched(r.world, Delete(env, r.world, from, id).world, from);
        EndKeepsOthers(r.world, Delete(env, r.world, from, id).world, from, id);
      }
    }
  }

  /** Between clean ids, moving one document leaves every row of every other document in
      the old workspace. */
  lemma MoveSparesOthers(
    env: Env, w: World, from: string, to: string, d: string, filename: string, chunks: seq<Chunk>, e: string, other: string)
    requires KeysOk(RowsOf(w.rows, from)) && from != to && Clean(d) && Clean(e) && d != e
    ensures Filter(RowsOf(Move(env, w, from, to, d, filename, chunks).world.rows, from), PathIs(Ref(e, other)))
            == Filter(RowsOf(w.rows, from), PathIs(Ref(e, other)))
  {
    MoveOutcome(env, w, from, to, d, filename, chunks);
    PrefixIdentifies(d, e, other);
    var rows := RowsOf(Move(env, w, from, to, d, filename, chunks).world.rows, from);
    FilterWithin(rows, MatchesNot(d), PathIs(Ref(e, other)));
    FilterWithin(RowsOf(w.rows, from), MatchesNot(d), PathIs(Ref(e, other)));
  }

  /** What a true result says about the target: the document can be read there, unless the
      move was to the same workspace and it could not be read there before. */
  lemma TrueMoveIsUsableIff(env: Env, w: World, from: string, to: string, id: string, filename: string, chunks: seq<Chunk>)
    requires Move(env, w, from, to, id, filename, chunks).value
    ensures Usable(Move(env, w, from, to, id, filename, chunks).world.rows, to, Ref(id, filename))
            <==> from != to || Usable(w.rows, to, Ref(id, filename))
  {
    if from != to {
      var r := Insert(env, w, to, id, filename, chunks);
      InsertIsLocal(env, w, to, id, filename, chunks);
      DeleteIsLocal(env, r.world, from, id);
      assert Delete(env, r.world, from, id).world.rows in Trace(r.world, Delete(env, r.world, from, id).world);
    }
  }

  /** Exactly when a move reports success. */
  lemma MoveSucceedsIff(env: Env, w: World, from: string, to: string, id: string, filename: string, chunks: seq<Chunk>)
    ensures Move(env, w, from, to, id, filename, chunks).value
            <==> env.enabled && (from == to || InsertSucceeds(env, w, to, Ref(id, filename), chunks))
  {
    InsertSucceedsIff(env, w, to, id, filename, chunks);
  }

  /** A move to the same workspace reports success for a document that cannot be read. */
  lemma MoveInPlaceMayBeUnusable(chunks: seq<Chunk>) returns (env: Env, w: World)
    ensures var r := Move(env, w, "a", "a", "d", "f", chunks);
            r.value && !Usable(r.world.rows, "a", Ref("d", "f"))
  {
    env := Env(true, k => Works, k => "processed", k => "k");
    w := World(map[], 0, []);
  }

  /** A successful move leaves no row of the document in the old workspace if and only if
      none lay beyond the first page, and the page read (the third call of the move) and
      the deletions after it take effect. */
  lemma MoveClearsSourceIff(env: Env, w: World, from: string, to: string, id: string, filename: string, chunks: seq<Chunk>)
    requires KeysOk(RowsOf(w.rows, from)) && from != to && Move(env, w, from, to, id, filename, chunks).value
    ensures Gone(RowsOf(Move(env, w, from, to, id, filename, chunks).world.rows, from), id)
            <==> Clears(env, w.clock + 2, RowsOf(w.rows, from), id)
  {
    var r := Insert(env, w, to, id, filename, chunks);
    assert r.world.clock == w.clock + 2;
    assert RowsOf(r.world.rows, from) == RowsOf(w.rows, from) by {
      InsertIsLocal(env, w, to, id, filename, chunks);
      assert r.world.rows in Trace(w, r.world);
    }
    DeleteLeavesNothingIff(env, r.world, from, id);
  }

  /** A true result does not say that the source is gone: the delete's failure is ignored. */
  lemma MoveMayKeepSource(chunks: seq<Chunk>) returns (env: Env, w: World)
    requires IndexText(chunks) != ""
    ensures var r := Move(env, w, "a", "b", "d", "f", chunks);
            r.value && Usable(r.world.rows, "a", Ref("d", "f"))
  {
    env := Env(true, k => if k <= 1 then Works else Refuses, k => "processed", k => "k2");
    var path := Ref("d", "f");
    var row := Row("k1", path, "processed");
    w := World(map["a" := [row]], 0, []);
    var i := Insert(env, w, "b", "d", "f", chunks);
    assert Recorded([], path, "k2", "processed") == [Row("k2", path, "processed")];
    assert i.value && RowsOf(i.world.rows, "a") == [row] && i.world.clock == 2;
    var d := Delete(env, i.world, "a", "d");
    assert d.world.rows == i.world.rows;
  }
}
