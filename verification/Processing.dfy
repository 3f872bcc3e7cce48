/** `process_document`: stages in order, with the gate that keeps an incomplete vector set
    out of the document store. */
module Processing {
  import opened Common
  import opened Text
  import opened Embedding

  datatype ParsedChunk = ParsedChunk(content: string, imageData: Option<string>, spaceId: string)
  datatype Stored = Stored(chunks: seq<ParsedChunk>, vectors: seq<Vector>)

  /** The vision model's answer for an image, or nothing when the request fails. */
  type Vision = string -> Option<string>

  const IMAGE_URL := "data:image/"

  /** An image chunk with a non-blank description has it appended to its own text. */
  function Described(c: ParsedChunk, configured: bool, vision: Vision): ParsedChunk {
    if !configured || c.imageData.None? || !(IMAGE_URL <= c.imageData.value) then c
    else
      match vision(c.imageData.value)
      case None => c
      case Some(answer) =>
        var description, original := Strip(answer), Strip(c.content);
        if description == "" then c
        else if original == "" then c.(content := "[图片视觉描述] " + description)
        else c.(content := original + "\n[图片视觉描述] " + description)
  }

  /** The vision model has something to say about this chunk. */
  predicate HasDescription(c: ParsedChunk, configured: bool, vision: Vision) {
    configured && c.imageData.Some? && "data:image/" <= c.imageData.value
    && vision(c.imageData.value).Some? && Strip(vision(c.imageData.value).value) != ""
  }

  /** Image and space of a chunk never change. Its text changes exactly when there is a
      description, which then stands, marked, after its own text without blanks around it. */
  predicate OnlyDescribed(c: ParsedChunk, d: ParsedChunk, configured: bool, vision: Vision) {
    && d.imageData == c.imageData && d.spaceId == c.spaceId
    && (d.content != c.content <==> HasDescription(c, configured, vision))
    && (HasDescription(c, configured, vision) ==>
          var own := if Strip(c.content) == "" then "" else Strip(c.content) + "\n";
          d.content == own + "[图片视觉描述] " + Strip(vision(c.imageData.value).value))
  }

  lemma DescribedOnlyAdds(c: ParsedChunk, configured: bool, vision: Vision)
    ensures OnlyDescribed(c, Described(c, configured, vision), configured, vision)
  {
    var d := Described(c, configured, vision);
    if HasDescription(c, configured, vision) {
      var original, description := Strip(c.content), Strip(vision(c.imageData.value).value);
      StripTrims(c.content);
      StripTrims(vision(c.imageData.value).value);
      var marked := if original == "" then "[图片视觉描述] " else original + "\n[图片视觉描述] ";
      assert d.content == marked + description;
      assert original != "" ==> marked == original + "\n" + "[图片视觉描述] ";
      assert !IsSpace(marked[0]) by {
        assert original != "" ==> marked[0] == original[0];
      }
      StripTrims(d.content);
      assert |original| < |d.content|;
    }
  }

  function Contents(chunks: seq<ParsedChunk>): (r: seq<string>)
    ensures |r| == |chunks| && forall i :: 0 <= i < |r| ==> r[i] == chunks[i].content
  {
    seq(|chunks|, i requires 0 <= i < |chunks| => chunks[i].content)
  }

  /** A chunk as it is embedded: it belongs to the space and has been described. */
  function Ready(c: ParsedChunk, space: string, configured: bool, vision: Vision): ParsedChunk {
    Described(c.(spaceId := space), configured, vision)
  }

  function AllReady(chunks: seq<ParsedChunk>, space: string, configured: bool, vision: Vision): (r: seq<ParsedChunk>)
    ensures |r| == |chunks| && forall i :: 0 <= i < |r| ==> r[i] == Ready(chunks[i], space, configured, vision)
  {
    seq(|chunks|, i requires 0 <= i < |chunks| => Ready(chunks[i], space, configured, vision))
  }

  lemma ReadyChunks(before: seq<ParsedChunk>, ready: seq<ParsedChunk>, space: string, configured: bool, vision: Vision)
    requires ready == AllReady(before, space, configured, vision)
    ensures forall i :: 0 <= i < |before| ==>
              && ready[i].spaceId == space
              && (ready[i].content != before[i].content <==> HasDescription(before[i], configured, vision))
  {
    forall i | 0 <= i < |before|
      ensures ready[i].spaceId == space
      ensures ready[i].content != before[i].content <==> HasDescription(before[i], configured, vision)
    {
      DescribedOnlyAdds(before[i].(spaceId := space), configured, vision);
    }
  }

  class DocumentStore {
    var content: map<string, Stored>

    constructor ()
      ensures content == map[]
    {
      content := map[];
    }

    /** Returns whether the document was stored; an exception is a `false`. */
    method Process(
      document: string, space: string, chunks: array<ParsedChunk>,
      chatConfigured: bool, vision: Vision, embedConfigured: bool, service: Service, ghost truth: string -> Vector)
      returns (stored: bool)
      modifies this, chunks
      ensures var ready := AllReady(old(chunks[..]), space, chatConfigured, vision);
              var vectors := Embedded(embedConfigured, Contents(ready), service);
              && (stored <==> vectors.Some? && |vectors.value| == |ready|)
              && (stored ==> |chunks[..]| == |ready| && content == old(content)[document := Stored(chunks[..], vectors.value)])
              && (stored ==> forall i :: 0 <= i < |ready| ==> chunks[i] == ready[i].(imageData := None))
      // What is stored of each chunk, said of the chunk that came in.
      ensures stored ==> forall i :: 0 <= i < chunks.Length ==>
                && chunks[i].imageData.None? && chunks[i].spaceId == space
                && (chunks[i].content != old(chunks[i]).content
                    <==> HasDescription(old(chunks[i]), chatConfigured, vision))
      ensures !stored ==> content == old(content)
      // With an honest embedding service the gate is exact, and what is stored is aligned
      // with the text that is stored.
      ensures Honest(service, truth) ==>
                var texts := Contents(AllReady(old(chunks[..]), space, chatConfigured, vision));
                stored <==> embedConfigured && chunks.Length > 0 && AllComplete(texts, 0, service)
      ensures Honest(service, truth) && stored ==>
                var s := content[document];
                |s.vectors| == |s.chunks| && forall i :: 0 <= i < |s.chunks| ==> s.vectors[i] == truth(s.chunks[i].content)
    {
      ghost var ready := AllReady(chunks[..], space, chatConfigured, vision);
      AssignSpace(chunks, space);
      DescribeImageChunks(chunks, chatConfigured, vision);
      assert chunks[..] == ready;
      ReadyChunks(old(chunks[..]), ready, space, chatConfigured, vision);
      var embeddings := Embed(embedConfigured, Contents(chunks[..]), service);
      if Honest(service, truth) {
        FullResultIsAligned(embedConfigured, Contents(ready), service, truth);
      }
      if embeddings.None? || |embeddings.value| != chunks.Length {
        return false;
      }
      DropImageData(chunks);
      content := content[document := Stored(chunks[..], embeddings.value)];
      stored := true;
    }
  }

  method AssignSpace(chunks: array<ParsedChunk>, space: string)
    modifies chunks
    ensures forall i :: 0 <= i < chunks.Length ==> chunks[i] == old(chunks[i]).(spaceId := space)
  {
    for i := 0 to chunks.Length
      invariant forall k :: 0 <= k < i ==> chunks[k] == old(chunks[k]).(spaceId := space)
      invariant forall k :: i <= k < chunks.Length ==> chunks[k] == old(chunks[k])
    {
      chunks[i] := chunks[i].(spaceId := space);
    }
  }

  method DropImageData(chunks: array<ParsedChunk>)
    modifies chunks
    ensures forall i :: 0 <= i < chunks.Length ==> chunks[i] == old(chunks[i]).(imageData := None)
  {
    for i := 0 to chunks.Length
      invariant forall k :: 0 <= k < i ==> chunks[k] == old(chunks[k]).(imageData := None)
      invariant forall k :: i <= k < chunks.Length ==> chunks[k] == old(chunks[k])
    {
      chunks[i] := chunks[i].(imageData := None);
    }
  }

  /** Rewrites the chunks in place: nothing but the text of the chunks that the vision model
      describes, to which it adds. */
  method DescribeImageChunks(chunks: array<ParsedChunk>, configured: bool, vision: Vision)
    modifies chunks
    ensures forall i :: 0 <= i < chunks.Length ==> chunks[i] == Described(old(chunks[i]), configured, vision)
    ensures forall i :: 0 <= i < chunks.Length ==> OnlyDescribed(old(chunks[i]), chunks[i], configured, vision)
  {
    ghost var before := chunks[..];
    if !configured {
      AllOnlyDescribed(before, chunks[..], configured, vision);
      return;
    }
    for i := 0 to chunks.Length
      invariant forall k :: 0 <= k < i ==> chunks[k] == Described(old(chunks[k]), configured, vision)
      invariant forall k :: i <= k < chunks.Length ==> chunks[k] == old(chunks[k])
    {
      chunks[i] := Described(chunks[i], configured, vision);
    }
    AllOnlyDescribed(before, chunks[..], configured, vision);
  }

  lemma AllOnlyDescribed(before: seq<ParsedChunk>, after: seq<ParsedChunk>, configured: bool, vision: Vision)
    requires |after| == |before|
    requires forall i :: 0 <= i < |before| ==> after[i] == Described(before[i], configured, vision)
    ensures forall i :: 0 <= i < |before| ==> OnlyDescribed(before[i], after[i], configured, vision)
  {
    forall i | 0 <= i < |before| ensures OnlyDescribed(before[i], after[i], configured, vision) {
      DescribedOnlyAdds(before[i], configured, vision);
    }
  }
}
