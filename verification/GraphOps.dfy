/** What indexing, deleting, moving and migrating a document do to the external row store. */
module GraphOps {
  import opened Common
  import opened DocumentRef
  import opened RowStore

  // ----- one document -----

  datatype Chunk = Chunk(location: string, page: string, content: string)

  function IndexPiece(c: Chunk): string {
    "[" + (if c.location == "" then "正文" else c.location) + " | 第 "
    + (if c.page == "" then "?" else c.page) + " 页]\n" + c.content
  }

  /** The text that is indexed: the chunks that have content, joined by blank lines. */
  function IndexText(chunks: seq<Chunk>): string {
    if chunks == [] then ""
    else if chunks[0].content == "" then IndexText(chunks[1..])
    else if IndexText(chunks[1..]) == "" then IndexPiece(chunks[0])
    else IndexPiece(chunks[0]) + "\n\n" + IndexText(chunks[1..])
  }

  /** Two texts with a blank line between them, or the one that is not empty. */
  function Glued(a: string, b: string): string {
    if a == "" then b else if b == "" then a else a + "\n\n" + b
  }

  lemma GluedAssociates(a: string, b: string, c: string)
    ensures Glued(a, Glued(b, c)) == Glued(Glued(a, b), c)
  {
    if a != "" && b != "" && c != "" {
      assert a + "\n\n" + (b + "\n\n" + c) == a + "\n\n" + b + "\n\n" + c;
    }
  }

  /** The text of some chunks followed by others is the one text after the other. */
  lemma {:induction false} TextOfParts(a: seq<Chunk>, b: seq<Chunk>)
    ensures IndexText(a + b) == Glued(IndexText(a), IndexText(b))
  {
    if a == [] {
      assert a + b == b;
    } else {
      assert (a + b)[0] == a[0] && (a + b)[1..] == a[1..] + b;
      TextOfParts(a[1..], b);
      assert |IndexPiece(a[0])| > 0;
      GluedAssociates(IndexPiece(a[0]), IndexText(a[1..]), IndexText(b));
    }
  }

  /** The text of one chunk: its place and page, or their stand-ins, above its content. */
  lemma TextOfOne(c: Chunk)
    ensures IndexText([c]) == if c.content == "" then ""
                              else "[" + (if c.location != "" then c.location else "正文") + " | 第 "
                                   + (if c.page != "" then c.page else "?") + " 页]\n" + c.content
  {
    assert IndexText([c][1..]) == "";
  }

  /** A document is indexed at all only when some chunk has content. */
  lemma {:induction false} NothingToIndex(chunks: seq<Chunk>)
    ensures IndexText(chunks) == "" <==> forall c :: c in chunks ==> c.content == ""
  {
    if chunks != [] {
      NothingToIndex(chunks[1..]);
      assert chunks[0] in chunks;
      assert |IndexPiece(chunks[0])| > 0;
    }
  }

  predicate Finished(status: string) {
    status == "" || status == "processed"
  }

  /** The document with this path can be read in this workspace. */
  predicate Usable(s: Store, ws: string, path: string) {
    ByPath(RowsOf(s, ws), path).Some? && Finished(ByPath(RowsOf(s, ws), path).value.status)
  }

  function IsUsable(env: Env, w: World, ws: string, path: string): Step<bool> {
    var r := Read(env, w, Usable(w.rows, ws, path));
    Step(r.world, r.value == Some(true))
  }

  function Insert(env: Env, w: World, ws: string, id: string, filename: string, chunks: seq<Chunk>): Step<bool> {
    if !env.enabled || IndexText(chunks) == "" then Step(w, false)
    else
      var r := AInsert(env, w, ws, Ref(id, filename));
      if !r.value then Step(r.world, false) else IsUsable(env, r.world, ws, Ref(id, filename))
  }

  function Matches(id: string): Row -> bool {
    (r: Row) => Prefix(id) <= r.filePath
  }

  function MatchesNot(id: string): Row -> bool {
    (r: Row) => !(Prefix(id) <= r.filePath)
  }

  function FirstKey(rows: seq<Row>, id: string): Option<string> {
    if rows == [] then None
    else if Matches(id)(rows[0]) then (if rows[0].key == "" then None else Some(rows[0].key))
    else FirstKey(rows[1..], id)
  }

  function HasDocument(env: Env, w: World, ws: string, id: string): Step<bool> {
    if !env.enabled then Step(w, false)
    else
      var r := Read(env, w, FirstKey(Page(RowsOf(w.rows, ws)), id));
      Step(r.world, r.value.Some? && r.value.value.Some?)
  }

  /** The deletion loop over the rows of one page; nothing when a call raises. */
  function DeleteRows(env: Env, w: World, ws: string, page: seq<Row>, id: string, removed: nat): Step<Option<nat>>
    decreases |page|
  {
    if page == [] then Step(w, Some(removed))
    else if !Matches(id)(page[0]) || page[0].key == "" then DeleteRows(env, w, ws, page[1..], id, removed)
    else
      var r := ADelete(env, w, ws, page[0].key);
      if !r.value then Step(r.world, None) else DeleteRows(env, r.world, ws, page[1..], id, removed + 1)
  }

  function DeleteDocs(env: Env, w: World, ws: string, id: string): Step<nat> {
    var page := Read(env, w, Page(RowsOf(w.rows, ws)));
    if page.value.None? then Step(page.world, 0)
    else
      var r := DeleteRows(env, page.world, ws, page.value.value, id, 0);
      Step(r.world, if r.value.Some? then r.value.value else 0)
  }

  function Delete(env: Env, w: World, ws: string, id: string): Step<bool> {
    if !env.enabled then Step(w, false)
    else
      var r := DeleteDocs(env, w, ws, id);
      Step(r.world, r.value > 0)
  }

  /** Build first, delete second; the outcome of the delete is ignored. */
  function Move(env: Env, w: World, from: string, to: string, id: string, filename: string, chunks: seq<Chunk>): Step<bool> {
    if !env.enabled then Step(w, false)
    else if from == to then Step(w, true)
    else
      var r := Insert(env, w, to, id, filename, chunks);
      if !r.value then r else Step(Delete(env, r.world, from, id).world, true)
  }

  // ----- migration -----

  datatype Target = Target(documentId: string, filename: string, workspace: string)
  datatype Loaded = Raised(reason: string) | Loaded(chunks: seq<Chunk>)
  datatype Outcome = Indexed | Skipped | Failed(reason: string)
  datatype Report = Report(indexed: nat, skipped: nat, failed: nat, details: seq<(string, string)>)

  function MigrateOne(env: Env, w: World, t: Target, loader: string -> Loaded): Step<Outcome> {
    var has := HasDocument(env, w, t.workspace, t.documentId);
    if has.value then Step(has.world, Skipped)
    else
      match loader(t.documentId)
      case Raised(reason) => Step(has.world, Failed(reason[..Min(200, |reason|)]))
      case Loaded(chunks) =>
        if chunks == [] then Step(has.world, Failed("no chunks"))
        else
          var r := Insert(env, has.world, t.workspace, t.documentId, t.filename, chunks);
          Step(r.world, if r.value then Indexed else Failed("insert failed"))
  }

  function MigrateAll(env: Env, w: World, targets: seq<Target>, loader: string -> Loaded): (r: Step<seq<Outcome>>)
    ensures |r.value| == |targets|
    decreases |targets|
  {
    if targets == [] then Step(w, [])
    else
      var first := MigrateOne(env, w, targets[0], loader);
      var rest := MigrateAll(env, first.world, targets[1..], loader);
      Step(rest.world, [first.value] + rest.value)
  }

  /** One more target in the report. */
  function Counted(r: Report, t: Target, o: Outcome): Report {
    match o
    case Indexed => r.(indexed := r.indexed + 1)
    case Skipped => r.(skipped := r.skipped + 1)
    case Failed(reason) => r.(failed := r.failed + 1, details := r.details + [(t.documentId, reason)])
  }

  function Tally(start: Report, targets: seq<Target>, outcomes: seq<Outcome>): Report
    requires |targets| == |outcomes|
    decreases |targets|
  {
    if targets == [] then start
    else Tally(Counted(start, targets[0], outcomes[0]), targets[1..], outcomes[1..])
  }

  const EMPTY_REPORT := Report(0, 0, 0, [])
}
