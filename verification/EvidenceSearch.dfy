/** `TenantGraph.search`: each requested workspace is queried on its own and the answers are
    merged. What a workspace answers is a parameter; asking it twice gives the same answer. */
module EvidenceSearch {
  import opened Common
  import opened Positions
  import opened StableSort
  import opened EvidenceMerge
  import opened MergeOrder
  import BestRows
  import MergeLaws
  import MergeMeaning
  import DocumentRef
  import Text

  /** A chunk of a query payload; an absent field is the empty text. */
  datatype PayloadChunk = PayloadChunk(content: string, text: string, filePath: string, chunkId: string, score: Option<real>)

  datatype Answer =
    | Raises                     // the pool or the query failed
    | Malformed                  // no usable "data" in the payload
    | Chunks(chunks: seq<PayloadChunk>)

  function Or(a: string, b: string): string {
    if a != "" then a else b
  }

  /** `float(score or 0.5)`: a zero score counts as missing. */
  function ScoreOf(score: Option<real>): real {
    if score.None? || score.value == 0.0 then 0.5 else score.value
  }

  function Row(chunk: PayloadChunk, index: nat, workspace: string): Evidence {
    Evidence("lightrag-" + workspace + "-" + Or(chunk.chunkId, Digits(index)),
             DocumentRef.DocumentId(chunk.filePath), Or(chunk.filePath, "LightRAG 图谱"),
             Or(chunk.content, chunk.text), DocumentRef.Filename(chunk.filePath),
             ScoreOf(chunk.score), workspace)
  }

  predicate Blank(chunk: PayloadChunk) {
    Or(chunk.content, chunk.text) == ""
  }

  /** The rows of `chunks`, the first of which has number `index`; empty chunks give none. */
  function Rows(chunks: seq<PayloadChunk>, index: nat, workspace: string): Batch {
    if chunks == [] then []
    else (if Blank(chunks[0]) then [] else [Row(chunks[0], index, workspace)])
         + Rows(chunks[1..], index + 1, workspace)
  }

  function Contribution(answer: Answer, workspace: string): Batch {
    if answer.Chunks? then Rows(answer.chunks, 0, workspace) else []
  }

  method ToEvidence(answer: Answer, workspace: string) returns (out: Batch)
    requires !answer.Raises?
    ensures out == Contribution(answer, workspace)
    ensures if answer.Chunks? then EvidenceOf(answer.chunks, workspace, out) else out == []
  {
    out := [];
    if !answer.Chunks? {
      return;
    }
    var chunks := answer.chunks;
    for index := 0 to |chunks|
      invariant Rows(chunks, 0, workspace) == out + Rows(chunks[index..], index, workspace)
    {
      RowsAt(chunks, index, workspace, out);
      if Blank(chunks[index]) {
        continue;
      }
      var row := Row(chunks[index], index, workspace);
      out := out + [row];
    }
    assert out + [] == out;
    ContributionExact(chunks, workspace);
  }

  /** Row `e` is what chunk `c`, at position `p` of the payload, says. */
  predicate Carries(e: Evidence, c: PayloadChunk, p: nat, workspace: string) {
    && e.workspace == workspace
    && e.content == (if c.content != "" then c.content else c.text)
    && e.score == (if c.score == None || c.score == Some(0.0) then 0.5 else c.score.value)
    && e.id == "lightrag-" + workspace + "-" + (if c.chunkId != "" then c.chunkId else Digits(p))
    && e.location == (if c.filePath != "" then c.filePath else "LightRAG 图谱")
    && c.filePath == (if e.documentId.Some? then DocumentRef.Ref(e.documentId.value, e.filename) else e.filename)
  }

  function HasText(): PayloadChunk -> bool {
    (c: PayloadChunk) => c.content != "" || c.text != ""
  }

  function Says(workspace: string): (Evidence, PayloadChunk, nat) -> bool {
    (e: Evidence, c: PayloadChunk, p: nat) => Carries(e, c, p, workspace)
  }

  /** `rows` are, in order, one row for each chunk that has content or text, and carry it. */
  ghost predicate EvidenceOf(chunks: seq<PayloadChunk>, workspace: string, rows: Batch) {
    exists at :: TakenAt(chunks, HasText(), at) && ToldAt(rows, chunks, 0, at, Says(workspace))
  }

  lemma RowCarries(c: PayloadChunk, p: nat, workspace: string)
    ensures Carries(Row(c, p, workspace), c, p, workspace)
  {
    Text.PartitionJoins(c.filePath, "__");
    var parts := Text.Partition(c.filePath, "__");
    if parts.found {
      assert DocumentRef.Ref(parts.head, parts.tail) == parts.head + "__" + parts.tail;
    }
  }

  lemma {:induction false} RowsExact(chunks: seq<PayloadChunk>, first: nat, workspace: string) returns (at: seq<nat>)
    ensures TakenAt(chunks, HasText(), at)
    ensures ToldAt(Rows(chunks, first, workspace), chunks, first, at, Says(workspace))
  {
    at := [];
    if chunks != [] {
      var head, rest := chunks[0], chunks[1..];
      var row, more := Row(head, first, workspace), Rows(rest, first + 1, workspace);
      var later := RowsExact(rest, first + 1, workspace);
      at := if HasText()(head) then [0] + Up(later) else Up(later);
      HeadAndTail(chunks);
      TakenAtStep(head, rest, HasText(), later);
      ToldAtStep(more, head, rest, first, later, Says(workspace));
      if HasText()(head) {
        RowCarries(head, first, workspace);
        ToldAtCons(row, more, chunks, first, Up(later), Says(workspace));
      } else {
        assert Rows(chunks, first, workspace) == more;
      }
    }
  }

  /** What a workspace contributes, said of the chunks it answered with. */
  lemma ContributionExact(chunks: seq<PayloadChunk>, workspace: string)
    ensures EvidenceOf(chunks, workspace, Contribution(Chunks(chunks), workspace))
  {
    var at := RowsExact(chunks, 0, workspace);
  }

  /** Rows of chunks with different ids have different ids, so that none of them is taken
      for a repetition of another. */
  lemma ChunkIdsStayApart(e: Evidence, c: PayloadChunk, p: nat, e': Evidence, c': PayloadChunk, p': nat, workspace: string)
    requires Carries(e, c, p, workspace) && Carries(e', c', p', workspace) && c.chunkId != "" && c'.chunkId != ""
    ensures e.id == e'.id <==> c.chunkId == c'.chunkId
  {
    var front := "lightrag-" + workspace + "-";
    assert e.id[|front|..] == c.chunkId && e'.id[|front|..] == c'.chunkId;
  }

  lemma RowsAt(chunks: seq<PayloadChunk>, i: nat, workspace: string, out: Batch)
    requires i < |chunks|
    ensures out + Rows(chunks[i..], i, workspace)
            == if Blank(chunks[i]) then out + Rows(chunks[i + 1..], i + 1, workspace)
               else (out + [Row(chunks[i], i, workspace)]) + Rows(chunks[i + 1..], i + 1, workspace)
  {
    var row, later := Row(chunks[i], i, workspace), Rows(chunks[i + 1..], i + 1, workspace);
    assert chunks[i..][0] == chunks[i] && chunks[i..][1..] == chunks[i + 1..];
    Associate(out, [row], later);
    assert [] + later == later;
  }

  function Batches(workspaces: seq<string>, ask: string -> Answer): (r: seq<Batch>)
    ensures |r| == |workspaces|
    ensures forall i :: 0 <= i < |r| ==> r[i] == Contribution(ask(workspaces[i]), workspaces[i])
  {
    seq(|workspaces|, i requires 0 <= i < |workspaces| => Contribution(ask(workspaces[i]), workspaces[i]))
  }

  function Found(enabled: bool, workspaces: seq<string>, ask: string -> Answer, topK: int): Batch {
    if !enabled || workspaces == [] then [] else Merged(Batches(workspaces, ask), topK)
  }

  method Search(enabled: bool, workspaces: seq<string>, ask: string -> Answer, topK: int) returns (r: Batch)
    ensures r == Found(enabled, workspaces, ask, topK)
    ensures !enabled || workspaces == [] ==> r == []
  {
    if !enabled || workspaces == [] {
      return [];
    }
    var batches: seq<Batch> := [];
    for i := 0 to |workspaces|
      invariant batches == Batches(workspaces, ask)[..i]
    {
      BatchesStep(workspaces, ask, i);
      var answer := ask(workspaces[i]);
      var rows := [];
      if !answer.Raises? {
        rows := ToEvidence(answer, workspaces[i]);
      }
      batches := batches + [rows];
    }
    assert batches == Batches(workspaces, ask);
    r := Merge(batches, topK);
  }

  lemma BatchesStep(workspaces: seq<string>, ask: string -> Answer, i: nat)
    requires i < |workspaces|
    ensures Batches(workspaces, ask)[..i + 1]
            == Batches(workspaces, ask)[..i] + [Contribution(ask(workspaces[i]), workspaces[i])]
  {
  }

  /** Evidence is traceable: a row is attributed to a document id exactly when its path
      holds the separator, and a path written for a clean id gives back id and filename. */
  lemma EvidenceIsTraceable(chunk: PayloadChunk, index: nat, workspace: string, id: string, filename: string)
    ensures Row(chunk, index, workspace).documentId.Some? <==> Text.Contains(chunk.filePath, "__")
    ensures Row(chunk, index, workspace).documentId.None? ==> Row(chunk, index, workspace).filename == chunk.filePath
    ensures chunk.filePath == DocumentRef.Ref(id, filename) && DocumentRef.Clean(id) ==>
              var row := Row(chunk, index, workspace);
              row.documentId == Some(id) && row.filename == filename && row.location == chunk.filePath
  {
    DocumentRef.RefRoundTrip(id, filename);
  }

  // ----- isolation -----

  lemma {:induction false} RowsLabelled(chunks: seq<PayloadChunk>, index: nat, workspace: string)
    ensures forall e :: e in Rows(chunks, index, workspace) ==> e.workspace == workspace
    ensures (forall c :: c in chunks ==> c.score.Some? ==> c.score.value >= 0.0) ==>
              forall e :: e in Rows(chunks, index, workspace) ==> e.score > 0.0
  {
    if chunks != [] {
      RowsLabelled(chunks[1..], index + 1, workspace);
      assert chunks[0] in chunks;
    }
  }

  lemma {:induction false} UnionLabels(batches: seq<Batch>, seen: set<string>, names: set<string>)
    requires forall b, e :: b in batches && e in b ==> e.workspace in names
    ensures forall e :: e in Union(batches, seen) ==> e.workspace in names
  {
    if batches != [] {
      var b := batches[0];
      var kept := FirstWins(b, seen);
      UnionLabels(batches[1..], seen + KeySet(b), names);
      MergeLaws.FirstWinsSubset(b, seen);
      forall e | e in Shares(kept, Top(b)) ensures e.workspace in names {
        var i :| 0 <= i < |kept| && Shares(kept, Top(b))[i] == e;
        assert kept[i] in b;
      }
    }
  }

  lemma BatchesLabelled(workspaces: seq<string>, ask: string -> Answer)
    ensures forall b, e :: b in Batches(workspaces, ask) && e in b ==> e.workspace in workspaces
  {
    var batches := Batches(workspaces, ask);
    forall b, e | b in batches && e in b ensures e.workspace in workspaces {
      var i :| 0 <= i < |batches| && batches[i] == b;
      if ask(workspaces[i]).Chunks? {
        RowsLabelled(ask(workspaces[i]).chunks, 0, workspaces[i]);
      }
    }
  }

  lemma MergedLabels(batches: seq<Batch>, names: set<string>, topK: int)
    requires forall b, e :: b in batches && e in b ==> e.workspace in names
    ensures forall e :: e in Merged(batches, topK) ==> e.workspace in names
  {
    UnionLabels(batches, {}, names);
    SortIsStable(Union(batches, {}), Descending);
    forall e | e in Merged(batches, topK) ensures e.workspace in names {
      assert e in multiset(Ranked(batches));
    }
  }

  /** Non-interference: the result depends on the requested workspaces only, every row is
      labelled with one of them, and asking for none returns nothing. */
  lemma OnlyRequestedWorkspaces(enabled: bool, workspaces: seq<string>, ask: string -> Answer, ask': string -> Answer, topK: int)
    requires forall w :: w in workspaces ==> ask(w) == ask'(w)
    ensures Found(enabled, workspaces, ask, topK) == Found(enabled, workspaces, ask', topK)
    ensures forall e :: e in Found(enabled, workspaces, ask, topK) ==> e.workspace in workspaces
    ensures Found(enabled, [], ask, topK) == [] && Found(false, workspaces, ask, topK) == []
  {
    assert Batches(workspaces, ask) == Batches(workspaces, ask');
    BatchesLabelled(workspaces, ask);
    MergedLabels(Batches(workspaces, ask), (set w | w in workspaces), topK);
  }

  lemma BatchesCons(w: string, rest: seq<string>, ask: string -> Answer)
    ensures Batches([w] + rest, ask) == [Contribution(ask(w), w)] + Batches(rest, ask)
  {
  }

  lemma UnionCons(b: Batch, rest: seq<Batch>, seen: set<string>)
    ensures Union([b] + rest, seen) == Shares(FirstWins(b, seen), Top(b)) + Union(rest, seen + KeySet(b))
    ensures FirstWins(b, seen) == [] && KeySet(b) <= seen ==> Union([b] + rest, seen) == Union(rest, seen)
  {
    assert ([b] + rest)[1..] == rest;
    if KeySet(b) <= seen {
      assert seen + KeySet(b) == seen;
    }
  }

  lemma {:induction false} UnionSkipsSilent(workspaces: seq<string>, ask: string -> Answer, w: string, seen: set<string>)
    requires Contribution(ask(w), w) == []
    ensures Union(Batches(workspaces, ask), seen) == Union(Batches(Filter(workspaces, Other(w)), ask), seen)
  {
    if workspaces != [] {
      var x, rest := workspaces[0], workspaces[1..];
      var b, kept := Contribution(ask(x), x), Filter(rest, Other(w));
      assert workspaces == [x] + rest;
      BatchesCons(x, rest, ask);
      UnionCons(b, Batches(rest, ask), seen);
      if x == w {
        assert KeySet(b) == {} && Filter(workspaces, Other(w)) == kept;
        UnionSkipsSilent(rest, ask, w, seen);
      } else {
        UnionSkipsSilent(rest, ask, w, seen + KeySet(b));
        assert Filter(workspaces, Other(w)) == [x] + kept;
        BatchesCons(x, kept, ask);
        UnionCons(b, Batches(kept, ask), seen);
      }
    }
  }

  /** A workspace that fails changes nothing but its own contribution: the result is that
      of asking only the others. */
  lemma FailureIsIsolated(enabled: bool, workspaces: seq<string>, ask: string -> Answer, w: string, topK: int)
    requires ask(w).Raises? || ask(w).Malformed?
    ensures Found(enabled, workspaces, ask, topK) == Found(enabled, Filter(workspaces, Other(w)), ask, topK)
  {
    UnionSkipsSilent(workspaces, ask, w, {});
    assert Batches([], ask) == [];
  }

  /** The workspaces of a request, each once, in order of first mention. */
  function Once(workspaces: seq<string>, done: set<string>): seq<string> {
    if workspaces == [] then []
    else if workspaces[0] in done then Once(workspaces[1..], done)
    else [workspaces[0]] + Once(workspaces[1..], done + {workspaces[0]})
  }

  lemma {:induction false} AllSeen(b: Batch, seen: set<string>)
    requires KeySet(b) <= seen
    ensures FirstWins(b, seen) == []
  {
    if b != [] {
      assert b[0] in b && Key(b[0]) in KeySet(b);
      assert KeySet(b[1..]) <= KeySet(b);
      AllSeen(b[1..], seen);
    }
  }

  ghost predicate Covered(done: set<string>, ask: string -> Answer, seen: set<string>) {
    forall w :: w in done ==> KeySet(Contribution(ask(w), w)) <= seen
  }

  lemma {:induction false} UnionOnce(workspaces: seq<string>, ask: string -> Answer, done: set<string>, seen: set<string>)
    requires Covered(done, ask, seen)
    ensures Union(Batches(workspaces, ask), seen) == Union(Batches(Once(workspaces, done), ask), seen)
  {
    if workspaces != [] {
      var w, rest := workspaces[0], workspaces[1..];
      var b := Contribution(ask(w), w);
      assert workspaces == [w] + rest;
      BatchesCons(w, rest, ask);
      UnionCons(b, Batches(rest, ask), seen);
      if w in done {
        AllSeen(b, seen);
        UnionOnce(rest, ask, done, seen);
      } else {
        var later := Once(rest, done + {w});
        UnionOnce(rest, ask, done + {w}, seen + KeySet(b));
        BatchesCons(w, later, ask);
        UnionCons(b, Batches(later, ask), seen);
      }
    }
  }

  /** Repeating a workspace in the request does not change the result. */
  lemma RepetitionIsHarmless(enabled: bool, workspaces: seq<string>, ask: string -> Answer, topK: int)
    ensures Found(enabled, workspaces, ask, topK) == Found(enabled, Once(workspaces, {}), ask, topK)
  {
    UnionOnce(workspaces, ask, {}, {});
  }

  // ----- the merging laws, for searches -----

  lemma {:induction false} TwoPositions<T>(s: seq<T>, x: T) returns (i: nat, j: nat)
    requires multiset(s)[x] >= 2
    ensures i < j < |s| && s[i] == s[j] == x
  {
    assert s == [s[0]] + s[1..];
    if s[0] == x {
      assert x in multiset(s[1..]);
      i := 0;
      var k :| 0 <= k < |s| - 1 && s[1..][k] == x;
      j := k + 1;
    } else {
      i, j := TwoPositions(s[1..], x);
      i, j := i + 1, j + 1;
    }
  }

  lemma ContributionsApart(workspaces: seq<string>, ask: string -> Answer, i: nat, j: nat)
    requires i < |workspaces| && j < |workspaces| && workspaces[i] != workspaces[j]
    requires NoColon(workspaces[i]) && NoColon(workspaces[j])
    ensures KeySet(Batches(workspaces, ask)[i]) !! KeySet(Batches(workspaces, ask)[j])
  {
    var b, b' := Batches(workspaces, ask)[i], Batches(workspaces, ask)[j];
    if ask(workspaces[i]).Chunks? {
      RowsLabelled(ask(workspaces[i]).chunks, 0, workspaces[i]);
    }
    if ask(workspaces[j]).Chunks? {
      RowsLabelled(ask(workspaces[j]).chunks, 0, workspaces[j]);
    }
    forall e, e' | e in b && e' in b' ensures Key(e) != Key(e') {
      if Key(e) == Key(e') {
        KeyIdentifies(e, e');
      }
    }
  }

  lemma BatchesApart(workspaces: seq<string>, ask: string -> Answer, b: Batch, b': Batch)
    requires NoDup(workspaces) && forall w :: w in workspaces ==> NoColon(w)
    requires var m := multiset(Batches(workspaces, ask)); b in m && b' in m && (b != b' || m[b] >= 2)
    ensures KeySet(b) !! KeySet(b')
  {
    var batches := Batches(workspaces, ask);
    var i: nat, j: nat;
    if b != b' {
      i :| i < |batches| && batches[i] == b;
      j :| j < |batches| && batches[j] == b';
    } else {
      i, j := TwoPositions(batches, b);
    }
    ContributionsApart(workspaces, ask, i, j);
  }

  /** Evidence from different workspaces never collides: workspace names hold no colon. */
  lemma SearchesAreApart(workspaces: seq<string>, ask: string -> Answer)
    requires NoDup(workspaces) && forall w :: w in workspaces ==> NoColon(w)
    ensures Apart(Batches(workspaces, ask))
    ensures Labelled(Batches(workspaces, ask), workspaces)
  {
    var batches := Batches(workspaces, ask);
    var m := multiset(batches);
    forall b, b' | b in m && b' in m && (b != b' || m[b] >= 2) ensures KeySet(b) !! KeySet(b') {
      BatchesApart(workspaces, ask, b, b');
    }
    forall i, e: Evidence | 0 <= i < |batches| && e in batches[i] ensures e.workspace == workspaces[i] {
      RowsLabelled(ask(workspaces[i]).chunks, 0, workspaces[i]);
    }
  }

  lemma {:induction false} BatchesWithout(workspaces: seq<string>, ask: string -> Answer, w: string)
    requires w in workspaces
    ensures multiset(Batches(workspaces, ask))
            == multiset(Batches(RemoveFirst(workspaces, w), ask)) + multiset{Contribution(ask(w), w)}
  {
    var x, rest := workspaces[0], workspaces[1..];
    HeadAndTail(workspaces);
    BatchesMultiset(x, rest, ask);
    if x != w {
      BatchesWithout(rest, ask, w);
      BatchesMultiset(x, RemoveFirst(rest, w), ask);
      assert RemoveFirst(workspaces, w) == [x] + RemoveFirst(rest, w);
    } else {
      assert RemoveFirst(workspaces, w) == rest;
    }
  }

  lemma BatchesMultiset(x: string, rest: seq<string>, ask: string -> Answer)
    ensures multiset(Batches([x] + rest, ask)) == multiset{Contribution(ask(x), x)} + multiset(Batches(rest, ask))
  {
    BatchesCons(x, rest, ask);
  }

  lemma {:induction false} BatchesPermuted(a: seq<string>, b: seq<string>, ask: string -> Answer)
    requires multiset(a) == multiset(b)
    ensures multiset(Batches(a, ask)) == multiset(Batches(b, ask))
  {
    if a == [] {
      PermutationEmpty(b);
    } else {
      PermutationStep(a, b);
      BatchesPermuted(a[1..], RemoveFirst(b, a[0]), ask);
      BatchesWithout(a, ask, a[0]);
      BatchesWithout(b, ask, a[0]);
    }
  }

  /** The order in which workspaces are requested does not change the scores returned nor,
      without a tie at the cut, the rows; and the rows kept from each workspace are the
      first of that workspace's own ranking. */
  lemma SearchIsFair(workspaces: seq<string>, other: seq<string>, ask: string -> Answer, topK: int)
    requires NoDup(workspaces) && (forall w :: w in workspaces ==> NoColon(w))
    requires multiset(workspaces) == multiset(other)
    ensures var r, r' := Found(true, workspaces, ask, topK), Found(true, other, ask, topK);
            && |r| == |r'| && (forall i :: 0 <= i < |r| ==> r[i].score == r'[i].score)
            && (NoTieAt(Ranked(Batches(workspaces, ask)), |r|) ==> multiset(r) == multiset(r'))
            && (forall w :: w in workspaces ==>
                  Filter(r, From(w)) <= Sort(OwnShares(Contribution(ask(w), w)), Descending))
  {
    SearchesAreApart(workspaces, ask);
    if workspaces == [] {
      PermutationEmpty(other);
    } else {
      PermutationStep(workspaces, other);
      BatchesPermuted(workspaces, other, ask);
      OrderIndependence(Batches(workspaces, ask), Batches(other, ask), topK);
      forall w | w in workspaces
        ensures Filter(Found(true, workspaces, ask, topK), From(w)) <= Sort(OwnShares(Contribution(ask(w), w)), Descending)
      {
        KeptRowsAreOwnBest(Batches(workspaces, ask), workspaces, IndexIn(workspaces, w), topK);
      }
    }
  }

  /** What a search returns, said of the rows that its workspaces contributed. */
  lemma SearchMeans(workspaces: seq<string>, ask: string -> Answer, topK: nat) returns (at: seq<nat>)
    requires forall w :: w in workspaces ==> NoColon(w)
    ensures MergeMeaning.IsTop(Flatten(MergeMeaning.Normalised(Batches(workspaces, ask))),
                               Found(true, workspaces, ask, topK), at, topK)
  {
    BatchesLabelled(workspaces, ask);
    at := MergeMeaning.MergedMeans(Batches(workspaces, ask), topK);
  }

  /** A mounted workspace that answers with something appears in the result if and only if
      the cut is longer than the rows that come before its best one. */
  lemma AnswerAppearsIff(workspaces: seq<string>, ask: string -> Answer, i: nat, topK: int)
    requires NoDup(workspaces) && (forall w :: w in workspaces ==> NoColon(w))
    requires i < |workspaces| && Contribution(ask(workspaces[i]), workspaces[i]) != []
    ensures var r := Found(true, workspaces, ask, topK);
            BestRows.Appears(r, workspaces[i]) <==> BestRows.RowsBefore(Batches(workspaces, ask), i) < |r|
  {
    SearchesAreApart(workspaces, ask);
    BestRows.WorkspaceAppearsIff(Batches(workspaces, ask), workspaces, i, topK);
  }
}
