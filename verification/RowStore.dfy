/** The external document-status tables, one list of rows per workspace, and the calls the
    graph store makes on them. Every call may fail; a failing call may or may not have
    taken effect. What the tables answer is decided by an `Env`, call by call. */
module RowStore {
  import opened Common

  const PAGE_SIZE: nat := 1000

  datatype Row = Row(key: string, filePath: string, status: string)
  type Store = map<string, seq<Row>>

  datatype Fault =
    | Works
    | Refuses   // raises before any effect; also a pool that cannot provide an instance
    | Breaks    // takes effect, then raises

  /** `enabled` is the configuration; the functions answer by the number of the call. */
  datatype Env = Env(enabled: bool, fault: nat -> Fault, status: nat -> string, key: nat -> string)

  /** `log` records the store after every write, so that a run can be cut at any point. */
  datatype World = World(rows: Store, clock: nat, log: seq<Store>)

  datatype Step<T> = Step(world: World, value: T)

  function RowsOf(s: Store, ws: string): seq<Row> {
    if ws in s then s[ws] else []
  }

  function Ticked(w: World): World {
    w.(clock := w.clock + 1)
  }

  function Written(w: World, rows: Store): World {
    World(rows, w.clock + 1, w.log + [rows])
  }

  /** `get_docs_paginated(page=1, page_size=1000)`. */
  function Page(rows: seq<Row>): seq<Row> {
    rows[..Min(PAGE_SIZE, |rows|)]
  }

  function ByPath(rows: seq<Row>, path: string): Option<Row> {
    if rows == [] then None
    else if rows[0].filePath == path then Some(rows[0])
    else ByPath(rows[1..], path)
  }

  function SetStatus(rows: seq<Row>, path: string, status: string): seq<Row> {
    if rows == [] then []
    else if rows[0].filePath == path then [rows[0].(status := status)] + rows[1..]
    else [rows[0]] + SetStatus(rows[1..], path, status)
  }

  function KeyIs(key: string): Row -> bool {
    (r: Row) => r.key == key
  }

  function KeyIsNot(key: string): Row -> bool {
    (r: Row) => r.key != key
  }

  /** `ainsert` records one document: its row takes the status that processing ended with;
      a new row gets a key that the workspace does not use. */
  function Recorded(rows: seq<Row>, path: string, key: string, status: string): seq<Row> {
    if ByPath(rows, path).Some? then SetStatus(rows, path, status)
    else if key == "" || Filter(rows, KeyIs(key)) != [] then rows
    else rows + [Row(key, path, status)]
  }

  function AInsert(env: Env, w: World, ws: string, path: string): Step<bool> {
    if env.fault(w.clock).Refuses? then Step(Ticked(w), false)
    else
      var rows := Recorded(RowsOf(w.rows, ws), path, env.key(w.clock), env.status(w.clock));
      Step(Written(w, w.rows[ws := rows]), env.fault(w.clock).Works?)
  }

  function ADelete(env: Env, w: World, ws: string, key: string): Step<bool> {
    if env.fault(w.clock).Refuses? then Step(Ticked(w), false)
    else
      var rows := Filter(RowsOf(w.rows, ws), KeyIsNot(key));
      Step(Written(w, w.rows[ws := rows]), env.fault(w.clock).Works?)
  }

  /** A read: the answer, or nothing when the call raises. */
  function Read<T>(env: Env, w: World, answer: T): Step<Option<T>> {
    Step(Ticked(w), if env.fault(w.clock).Works? then Some(answer) else None)
  }

  /** What the tables guarantee: the key of a row is its primary key within the workspace. */
  ghost predicate KeysOk(rows: seq<Row>) {
    && (forall i :: 0 <= i < |rows| ==> rows[i].key != "")
    && (forall i, j :: 0 <= i < j < |rows| ==> rows[i].key != rows[j].key)
  }

  // ----- facts about recording a document -----

  function PathIsNot(path: string): Row -> bool {
    (r: Row) => r.filePath != path
  }

  lemma {:induction false} ByPathFinds(rows: seq<Row>, path: string)
    ensures ByPath(rows, path).Some? ==> ByPath(rows, path).value in rows && ByPath(rows, path).value.filePath == path
    ensures ByPath(rows, path).None? <==> forall r :: r in rows ==> r.filePath != path
  {
    if rows != [] {
      ByPathFinds(rows[1..], path);
      assert rows[0] in rows;
    }
  }

  lemma {:induction false} ByPathAppend(rows: seq<Row>, row: Row, path: string)
    ensures ByPath(rows + [row], path)
            == if ByPath(rows, path).Some? then ByPath(rows, path)
               else if row.filePath == path then Some(row) else None
  {
    if rows != [] {
      assert (rows + [row])[1..] == rows[1..] + [row];
      ByPathAppend(rows[1..], row, path);
    } else {
      assert rows + [row] == [row];
    }
  }

  lemma {:induction false} SetStatusOnly(rows: seq<Row>, path: string, status: string)
    ensures var r := SetStatus(rows, path, status);
            && |r| == |rows|
            && (forall i :: 0 <= i < |rows| ==> r[i].key == rows[i].key && r[i].filePath == rows[i].filePath)
            && (forall i :: 0 <= i < |rows| && rows[i].filePath != path ==> r[i] == rows[i])
            && Filter(r, PathIsNot(path)) == Filter(rows, PathIsNot(path))
    ensures forall p :: p != path ==> ByPath(SetStatus(rows, path, status), p) == ByPath(rows, p)
  {
    if rows != [] && rows[0].filePath != path {
      SetStatusOnly(rows[1..], path, status);
    }
  }

  /** Recording a document touches no row with another path, loses no path, keeps the keys
      in order, and adds at most one row. */
  lemma RecordedOnly(rows: seq<Row>, path: string, key: string, status: string)
    ensures var r := Recorded(rows, path, key, status);
            && (KeysOk(rows) ==> KeysOk(r))
            && |rows| <= |r| <= |rows| + 1
            && Filter(r, PathIsNot(path)) == Filter(rows, PathIsNot(path))
            && (forall i :: 0 <= i < |rows| ==> r[i].key == rows[i].key && r[i].filePath == rows[i].filePath)
    ensures forall p :: p != path ==> ByPath(Recorded(rows, path, key, status), p) == ByPath(rows, p)
  {
    SetStatusOnly(rows, path, status);
    var row := Row(key, path, status);
    FilterAppend(rows, [row], PathIsNot(path));
    assert Filter([row], PathIsNot(path)) == [];
    forall p | p != path ensures ByPath(rows + [row], p) == ByPath(rows, p) {
      ByPathAppend(rows, row, p);
    }
    FilterMembers(rows, KeyIs(key));
    if key != "" && Filter(rows, KeyIs(key)) == [] {
      forall i | 0 <= i < |rows| ensures rows[i].key != key {
        assert rows[i] in rows && rows[i] !in Filter(rows, KeyIs(key));
      }
    }
  }
}
