/** `inject`: replacing the generated block between two markers, as a lens on the text. */
module ManualBlock {
  import opened Common
  import opened Text

  const BEGIN := "<!-- BEGIN GENERATED: browser-manual -->"
  const END := "<!-- END GENERATED: browser-manual -->"

  /** The text around the block, when both markers are there in order. */
  datatype Frame = Frame(head: string, block: string, tail: string)

  function Parse(text: string): Option<Frame> {
    var a := Partition(text, BEGIN);
    var b := Partition(a.tail, END);
    if a.found && b.found then Some(Frame(a.head, b.head, b.tail)) else None
  }

  function Block(body: string): string {
    "\n" + body + "\n"
  }

  function Print(f: Frame): string {
    f.head + BEGIN + (f.block + END + f.tail)
  }

  /** The new text, or nothing when a marker is missing and the program exits unwritten. */
  function Inject(text: string, manual: string): Option<string> {
    match Parse(text)
    case None => None
    case Some(f) => Some(Print(f.(block := Block(Strip(manual)))))
  }

  /** Parsing and printing are inverse on a text that has both markers. */
  lemma ParsePrints(text: string)
    requires Parse(text).Some?
    ensures Print(Parse(text).value) == text
  {
    PartitionJoins(text, BEGIN);
    PartitionJoins(Partition(text, BEGIN).tail, END);
  }

  ghost predicate FirstAt(text: string, sep: string, from: nat, i: nat) {
    from <= i && OccursAt(text, sep, i) && forall j: nat :: from <= j < i ==> !OccursAt(text, sep, j)
  }

  lemma OccursInTail(text: string, sep: string, from: nat, k: nat)
    requires from <= |text|
    ensures OccursAt(text[from..], sep, k) <==> OccursAt(text, sep, from + k)
  {
    if from + k + |sep| <= |text| {
      assert text[from..][k..k + |sep|] == text[from + k..from + k + |sep|];
    }
  }

  lemma PartitionFirst(text: string, sep: string, i: nat)
    requires FirstAt(text, sep, 0, i)
    ensures Partition(text, sep) == Parts(text[..i], true, text[i + |sep|..])
  {
  }

  lemma FirstInTail(text: string, sep: string, from: nat, j: nat)
    requires from <= |text| && FirstAt(text, sep, from, j)
    ensures FirstAt(text[from..], sep, 0, j - from)
  {
    forall k: nat ensures OccursAt(text[from..], sep, k) <==> OccursAt(text, sep, from + k) {
      OccursInTail(text, sep, from, k);
    }
  }

  lemma ParsedAt(text: string, i: nat, j: nat)
    requires FirstAt(text, BEGIN, 0, i) && FirstAt(text, END, i + |BEGIN|, j)
    ensures Parse(text) == Some(Frame(text[..i], text[i + |BEGIN|..][..j - (i + |BEGIN|)], text[j + |END|..]))
  {
    var from := i + |BEGIN|;
    PartitionFirst(text, BEGIN, i);
    FirstInTail(text, END, from, j);
    PartitionFirst(text[from..], END, j - from);
    assert text[from..][j - from + |END|..] == text[j + |END|..];
  }

  /** The text that an injection writes, told by the places of the first BEGIN and of the
      first END after it. */
  lemma InjectedText(text: string, manual: string, i: nat, j: nat)
    requires FirstAt(text, "<!-- BEGIN GENERATED: browser-manual -->", 0, i)
    requires FirstAt(text, "<!-- END GENERATED: browser-manual -->", i + |BEGIN|, j)
    ensures Inject(text, manual) == Some(text[..i] + "<!-- BEGIN GENERATED: browser-manual -->"
                                         + ("\n" + Strip(manual) + "\n" + "<!-- END GENERATED: browser-manual -->"
                                            + text[j + |END|..]))
  {
    ParsedAt(text, i, j);
  }

  /** The first BEGIN of a parsed text stays first whatever follows it. */
  lemma HeadStays(text: string, rest: string)
    requires Contains(text, BEGIN)
    ensures var head := Partition(text, BEGIN).head;
            Partition(head + BEGIN + rest, BEGIN) == Parts(head, true, rest)
  {
    var head, tail := Partition(text, BEGIN).head, Partition(text, BEGIN).tail;
    PartitionJoins(text, BEGIN);
    var common := head + BEGIN;
    forall j: nat | j < |head| ensures !OccursAt(common + rest, BEGIN, j) {
      assert (common + rest)[j..j + |BEGIN|] == common[j..j + |BEGIN|] == (common + tail)[j..j + |BEGIN|];
      assert !OccursAt(text, BEGIN, j);
    }
    PartitionAt(head, BEGIN, rest);
  }

  /** The END that closes a block is the first one exactly when the body holds none: END
      starts with a character other than a newline and contains no newline. */
  lemma EndCloses(body: string, tail: string)
    ensures Partition(Block(body) + END + tail, END) == Parts(Block(body), true, tail) <==> !Contains(body, END)
  {
    var block, text := Block(body), Block(body) + END + tail;
    forall j: nat | 1 <= j && j + |END| <= 1 + |body| ensures OccursAt(text, END, j) <==> OccursAt(body, END, j - 1) {
      assert text[j..j + |END|] == body[j - 1..j - 1 + |END|];
    }
    forall j: nat | j < |block| && OccursAt(text, END, j) ensures 1 <= j && j + |END| <= 1 + |body| {
      NewlineFree(text, j, 0);
      NewlineFree(text, j, 1 + |body|);
    }
    if Contains(body, END) {
      assert OccursAt(text, END, IndexOf(body, END).value + 1);
    }
    PartitionAt(block, END, tail);
  }

  lemma NewlineFree(text: string, j: nat, k: nat)
    requires OccursAt(text, END, j) && k < |text| && text[k] == '\n'
    ensures k < j || j + |END| <= k
  {
    forall i | 0 <= i < |END| ensures text[j + i] == END[i] != '\n' {
      assert text[j + i] == text[j..j + |END|][i];
    }
  }

  /** What is read back after an injection. */
  lemma InjectThenParse(text: string, manual: string)
    requires Parse(text).Some? && !Contains(Strip(manual), END)
    ensures Inject(text, manual).Some?
    ensures Parse(Inject(text, manual).value) == Some(Parse(text).value.(block := Block(Strip(manual))))
  {
    var f := Parse(text).value;
    var block := Block(Strip(manual));
    HeadStays(text, block + END + f.tail);
    EndCloses(Strip(manual), f.tail);
  }

  /** The lens laws. For any text with both markers and a manual without END: what is put
      is what is read; everything before the first BEGIN and after its END is kept; and a
      second injection, of the same or of another manual, replaces the first. */
  lemma InjectionLaws(text: string, m1: string, m2: string)
    requires Parse(text).Some? && !Contains(Strip(m1), END)
    ensures var once := Inject(text, m1).value;
            && Parse(once) == Some(Parse(text).value.(block := Block(Strip(m1))))
            && Inject(once, m1) == Some(once)
            && Inject(once, m2) == Inject(text, m2)
  {
    InjectThenParse(text, m1);
  }

  /** The remaining lens law: an injection leaves a text as it is exactly when the text
      already holds that block. */
  lemma UpToDateIff(text: string, manual: string)
    requires Parse(text).Some?
    ensures Inject(text, manual) == Some(text) <==> Parse(text).value.block == Block(Strip(manual))
  {
    var f, block := Parse(text).value, Block(Strip(manual));
    ParsePrints(text);
    if Inject(text, manual) == Some(text) {
      SameBlock(f.head + BEGIN, f.block, block, END + f.tail);
    }
  }

  lemma SameBlock(front: string, a: string, b: string, back: string)
    requires front + (a + back) == front + (b + back)
    ensures a == b
  {
    assert (front + (a + back))[|front|..] == a + back && (front + (b + back))[|front|..] == b + back;
    assert |a| == |b| && (a + back)[..|a|] == a && (b + back)[..|a|] == b;
  }

  /** Injecting is possible exactly when some END follows the first BEGIN. */
  lemma InjectNeedsMarkers(text: string, manual: string)
    ensures Inject(text, manual).Some? <==>
            exists j: nat :: Contains(text, BEGIN) && IndexOf(text, BEGIN).value + |BEGIN| <= j && OccursAt(text, END, j)
  {
    if Contains(text, BEGIN) {
      var i := IndexOf(text, BEGIN).value + |BEGIN|;
      TailOccurs(text, i);
    }
  }

  lemma TailOccurs(text: string, i: nat)
    requires i <= |text|
    ensures Contains(text[i..], END) <==> exists j: nat :: i <= j && OccursAt(text, END, j)
  {
    var tail := text[i..];
    if Contains(tail, END) {
      var k := IndexOf(tail, END).value;
      assert tail[k..k + |END|] == text[i + k..i + k + |END|];
      assert OccursAt(text, END, i + k);
    }
    if j: nat :| i <= j && OccursAt(text, END, j) {
      assert tail[j - i..j - i + |END|] == text[j..j + |END|];
      assert OccursAt(tail, END, j - i);
    }
  }

  /** The restriction on the manual is exact: injecting twice equals injecting once if and
      only if the stripped manual holds no END; otherwise the text grows. */
  lemma IdempotentIff(text: string, manual: string)
    requires Parse(text).Some?
    ensures var once := Inject(text, manual).value;
            Inject(once, manual) == Some(once) <==> !Contains(Strip(manual), END)
  {
    var f, body := Parse(text).value, Strip(manual);
    var once := Inject(text, manual).value;
    if !Contains(body, END) {
      InjectThenParse(text, manual);
    } else {
      var rest := Block(body) + END + f.tail;
      HeadStays(text, rest);
      EarlyEnd(body, f.tail);
      var tail' := Partition(rest, END).tail;
      assert |tail'| > |f.tail|;
      assert Inject(once, manual).value == f.head + BEGIN + (Block(body) + END + tail');
      assert |Inject(once, manual).value| > |once|;
    }
  }

  lemma EarlyEnd(body: string, tail: string)
    requires Contains(body, END)
    ensures var p := Partition(Block(body) + END + tail, END);
            p.found && |p.tail| > |tail|
  {
    var text := Block(body) + END + tail;
    var i := IndexOf(body, END).value;
    assert text[i + 1..i + 1 + |END|] == body[i..i + |END|];
    assert OccursAt(text, END, i + 1);
    assert IndexOf(text, END).value <= i + 1;
  }
}
