/** The file path `<document_id>__<filename>` that marks a document's rows and from which
    the document id is recovered. */
module DocumentRef {
  import opened Common
  import opened Text

  function Prefix(id: string): string {
    id + "__"
  }

  function Ref(id: string, filename: string): string {
    Prefix(id) + filename
  }

  /** `path.split("__", 1)` when the separator occurs, as evidence parsing does it. */
  function DocumentId(path: string): Option<string> {
    var p := Partition(path, "__");
    if p.found then Some(p.head) else None
  }

  function Filename(path: string): string {
    var p := Partition(path, "__");
    if p.found then p.tail else path
  }

  /** An id that cannot be confused with the separator that follows it. */
  predicate Clean(id: string) {
    !Contains(id, "__") && (id != "" ==> id[|id| - 1] != '_')
  }

  lemma SeparatorInside(id: string, filename: string)
    ensures Clean(id) <==> forall j: nat :: j < |id| ==> !OccursAt(Ref(id, filename), "__", j)
  {
    var text := Ref(id, filename);
    forall j: nat | j + 2 <= |id| ensures OccursAt(text, "__", j) <==> OccursAt(id, "__", j) {
      assert text[j..j + 2] == id[j..j + 2];
    }
    if id != "" && id[|id| - 1] == '_' {
      assert text[|id| - 1..|id| + 1] == "__";
      assert OccursAt(text, "__", |id| - 1);
    }
    if Contains(id, "__") {
      assert OccursAt(text, "__", IndexOf(id, "__").value);
    }
    if Clean(id) {
      forall j: nat | j < |id| ensures !OccursAt(text, "__", j) {
        if j == |id| - 1 {
          assert text[j..j + 2][0] == id[j];
        }
      }
    }
  }

  /** Round trip, with its exact condition: id and filename are recovered, whatever the
      filename, if and only if the id is clean. */
  lemma RefRoundTrip(id: string, filename: string)
    ensures DocumentId(Ref(id, filename)) == Some(id) && Filename(Ref(id, filename)) == filename <==> Clean(id)
  {
    SeparatorInside(id, filename);
    assert Ref(id, filename) == id + "__" + filename;
    PartitionAt(id, "__", filename);
    var p := Partition(Ref(id, filename), "__");
    assert OccursAt(Ref(id, filename), "__", |id|) by {
      assert Ref(id, filename)[|id|..|id| + 2] == "__";
    }
    if p.head == id {
      assert |p.tail| == |filename|;
    }
  }

  lemma CleanAt(id: string, i: nat)
    requires Clean(id) && i < |id| && id[i] == '_'
    ensures i + 1 < |id| && id[i + 1] != '_'
  {
    assert !OccursAt(id, "__", i);
    assert i + 1 < |id| ==> id[i..i + 2] == [id[i], id[i + 1]];
  }

  /** Which rows a delete of `d` matches, for any row id `e`: its own rows, and the rows of
      ids that run on from `d` with separator characters. */
  lemma PrefixMatches(d: string, e: string, filename: string)
    requires Clean(d)
    ensures Prefix(d) <= Ref(e, filename) <==> e == d || e == d + "_" || Prefix(d) <= e
  {
    var text := Ref(e, filename);
    if |e| < |d| && d[|e|] == '_' {
      CleanAt(d, |e|);
    }
    if Prefix(d) <= text {
      assert d == text[..|d|];
      assert text[|d|] == '_' && text[|d| + 1] == '_';
      if |e| >= |d| {
        assert d == e[..|d|];
      }
    }
  }

  /** Between clean ids the prefix identifies the document. */
  lemma PrefixIdentifies(d: string, e: string, filename: string)
    requires Clean(d) && Clean(e)
    ensures Prefix(d) <= Ref(e, filename) <==> d == e
  {
    PrefixMatches(d, e, filename);
    if |d| + 2 <= |e| {
      assert !OccursAt(e, "__", |d|);
    }
  }

  /** Cleanness is needed: deleting document "a" also matches the rows of "a__b". */
  lemma PrefixOvermatches(filename: string)
    ensures Clean("a") && Prefix("a") <= Ref("a__b", filename)
  {
    assert !OccursAt("a", "__", 0);
    assert Ref("a__b", filename) == "a__" + ("b__" + filename);
  }
}
