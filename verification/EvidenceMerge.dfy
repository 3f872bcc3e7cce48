/** `TenantGraph._merge`: evidence from several workspaces, each batch normalised by its
    own best score, deduplicated first-wins, stably sorted and cut. */
module EvidenceMerge {
  import opened Common
  import opened StableSort

  datatype Evidence = Evidence(
    id: string, documentId: Option<string>, location: string, content: string,
    filename: string, score: real, workspace: string)

  type Batch = seq<Evidence>

  function Key(e: Evidence): string {
    e.workspace + "::" + e.id
  }

  predicate NoColon(w: string) {
    ':' !in w
  }

  /** What a key tells: for workspaces without a colon, workspace and id, and nothing else. */
  lemma KeyIdentifies(e: Evidence, e': Evidence)
    requires NoColon(e.workspace) && NoColon(e'.workspace)
    ensures Key(e) == Key(e') <==> e.workspace == e'.workspace && e.id == e'.id
  {
    var n, n' := |e.workspace|, |e'.workspace|;
    assert Key(e)[n] == ':' && Key(e')[n'] == ':';
    assert Key(e)[..n] == e.workspace && Key(e')[..n'] == e'.workspace;
    assert Key(e)[n + 2..] == e.id && Key(e')[n' + 2..] == e'.id;
  }

  function KeySet(batch: Batch): set<string> {
    set e | e in batch :: Key(e)
  }

  /** Sort key: the score, largest first. */
  function Descending(e: Evidence): real {
    -e.score
  }

  function MaxScore(batch: Batch): real
    requires batch != []
  {
    if |batch| == 1 || batch[0].score >= MaxScore(batch[1..]) then batch[0].score else MaxScore(batch[1..])
  }

  lemma {:induction false} MaxScoreIsMax(batch: Batch)
    requires batch != []
    ensures forall e :: e in batch ==> e.score <= MaxScore(batch)
    ensures exists e :: e in batch && e.score == MaxScore(batch)
  {
    if |batch| > 1 {
      MaxScoreIsMax(batch[1..]);
      assert batch[0] in batch;
      var e :| e in batch[1..] && e.score == MaxScore(batch[1..]);
      assert e in batch;
    } else {
      assert batch[0] in batch;
    }
  }

  /** `max(...) or 1.0`. */
  function Top(batch: Batch): (top: real)
    ensures top != 0.0
  {
    if batch == [] || MaxScore(batch) == 0.0 then 1.0 else MaxScore(batch)
  }

  function Share(e: Evidence, top: real): Evidence
    requires top != 0.0
  {
    e.(score := e.score / top)
  }

  function Shares(batch: Batch, top: real): (r: Batch)
    requires top != 0.0
    ensures |r| == |batch| && forall i :: 0 <= i < |r| ==> r[i] == Share(batch[i], top)
  {
    seq(|batch|, i requires 0 <= i < |batch| => Share(batch[i], top))
  }

  /** The rows whose key is new: not in `seen` and not earlier in the batch. */
  function FirstWins(batch: Batch, seen: set<string>): Batch {
    if batch == [] then []
    else if Key(batch[0]) in seen then FirstWins(batch[1..], seen)
    else [batch[0]] + FirstWins(batch[1..], seen + {Key(batch[0])})
  }

  /** The list before sorting. */
  function Union(batches: seq<Batch>, seen: set<string>): Batch {
    if batches == [] then []
    else Shares(FirstWins(batches[0], seen), Top(batches[0])) + Union(batches[1..], seen + KeySet(batches[0]))
  }

  /** `merged[:top_k]`, also for a negative bound. */
  function Cut<T>(s: seq<T>, topK: int): seq<T> {
    if topK >= 0 then s[..Min(topK, |s|)] else if |s| + topK > 0 then s[..|s| + topK] else []
  }

  function Ranked(batches: seq<Batch>): Batch {
    Sort(Union(batches, {}), Descending)
  }

  function Merged(batches: seq<Batch>, topK: int): Batch {
    Cut(Ranked(batches), topK)
  }

  method Merge(batches: seq<Batch>, topK: int) returns (r: Batch)
    ensures r == Merged(batches, topK)
  {
    var merged: Batch, seen: set<string> := [], {};
    for b := 0 to |batches|
      invariant Union(batches, {}) == merged + Union(batches[b..], seen)
    {
      UnionAt(batches, b, seen, merged);
      if batches[b] == [] {
        continue;
      }
      merged, seen := MergeBatch(merged, seen, batches[b], Top(batches[b]));
    }
    assert merged + [] == merged;
    r := Cut(Sort(merged, Descending), topK);
  }

  lemma UnionAt(batches: seq<Batch>, b: nat, seen: set<string>, merged: Batch)
    requires b < |batches|
    ensures merged + Union(batches[b..], seen)
            == merged + Shares(FirstWins(batches[b], seen), Top(batches[b]))
               + Union(batches[b + 1..], seen + KeySet(batches[b]))
    ensures batches[b] == [] ==>
            merged + Union(batches[b..], seen) == merged + Union(batches[b + 1..], seen)
  {
    var rest := batches[b..];
    assert rest[0] == batches[b] && rest[1..] == batches[b + 1..];
    assert batches[b] == [] ==> seen + KeySet(batches[b]) == seen;
  }

  /** The inner loop: appends the new rows of one batch. */
  method MergeBatch(merged: Batch, seen: set<string>, batch: Batch, top: real) returns (merged': Batch, seen': set<string>)
    requires top != 0.0
    ensures merged' == merged + Shares(FirstWins(batch, seen), top)
    ensures seen' == seen + KeySet(batch)
  {
    merged', seen' := merged, seen;
    for i := 0 to |batch|
      invariant merged + Shares(FirstWins(batch, seen), top) == merged' + Shares(FirstWins(batch[i..], seen'), top)
      invariant seen' == seen + KeySet(batch[..i])
    {
      var item := batch[i];
      assert batch[..i + 1] == batch[..i] + [item];
      FirstWinsStep(merged', seen', batch, i, top);
      if Key(item) in seen' {
        continue;
      }
      seen' := seen' + {Key(item)};
      merged' := merged' + [Share(item, top)];
    }
    assert batch[|batch|..] == [] && batch[..|batch|] == batch;
  }

  lemma FirstWinsStep(merged: Batch, seen: set<string>, batch: Batch, i: nat, top: real)
    requires i < |batch| && top != 0.0
    ensures var k := Key(batch[i]);
            merged + Shares(FirstWins(batch[i..], seen), top)
            == if k in seen then merged + Shares(FirstWins(batch[i + 1..], seen), top)
               else (merged + [Share(batch[i], top)]) + Shares(FirstWins(batch[i + 1..], seen + {k}), top)
  {
    assert batch[i..][0] == batch[i] && batch[i..][1..] == batch[i + 1..];
    if Key(batch[i]) !in seen {
      var later := FirstWins(batch[i + 1..], seen + {Key(batch[i])});
      assert Shares([batch[i]] + later, top) == [Share(batch[i], top)] + Shares(later, top);
    }
  }
}
