/** The string operations the program uses: `partition` and `strip`. */
module Text {
  import opened Common

  ghost predicate OccursAt(text: string, sep: string, i: nat) {
    i + |sep| <= |text| && text[i..i + |sep|] == sep
  }

  function IndexFrom(text: string, sep: string, i: nat): (r: Option<nat>)
    requires i <= |text|
    ensures r.Some? ==> i <= r.value && OccursAt(text, sep, r.value)
    ensures r.Some? ==> forall j: nat :: i <= j < r.value ==> !OccursAt(text, sep, j)
    ensures r.None? ==> forall j: nat :: i <= j ==> !OccursAt(text, sep, j)
    decreases |text| - i
  {
    if i + |sep| > |text| then None
    else if text[i..i + |sep|] == sep then Some(i)
    else if i == |text| then None
    else IndexFrom(text, sep, i + 1)
  }

  function IndexOf(text: string, sep: string): (r: Option<nat>)
    ensures r.Some? ==> OccursAt(text, sep, r.value)
    ensures r.Some? ==> forall j: nat :: j < r.value ==> !OccursAt(text, sep, j)
    ensures r.None? ==> forall j: nat :: !OccursAt(text, sep, j)
  {
    IndexFrom(text, sep, 0)
  }

  predicate Contains(text: string, sep: string) {
    IndexOf(text, sep).Some?
  }

  datatype Parts = Parts(head: string, found: bool, tail: string)

  /** `text.partition(sep)`: around the first occurrence, or all of `text` as the head. */
  function Partition(text: string, sep: string): (r: Parts)
  {
    match IndexOf(text, sep)
    case Some(i) => Parts(text[..i], true, text[i + |sep|..])
    case None => Parts(text, false, "")
  }

  lemma Cut(text: string, sep: string, i: nat)
    requires OccursAt(text, sep, i)
    ensures text == text[..i] + sep + text[i + |sep|..]
  {
    var tail := text[i..];
    assert tail == tail[..|sep|] + tail[|sep|..];
    assert text == text[..i] + tail;
    assert tail[..|sep|] == sep && tail[|sep|..] == text[i + |sep|..];
  }

  /** `partition` cuts the text without losing a character. */
  lemma PartitionJoins(text: string, sep: string)
    ensures var r := Partition(text, sep);
            text == r.head + (if r.found then sep else "") + r.tail
  {
    match IndexOf(text, sep)
    case Some(i) => Cut(text, sep, i);
    case None =>
  }

  /** Splitting at position `i` is what `partition` does exactly when no earlier
      occurrence exists. */
  lemma PartitionAt(head: string, sep: string, tail: string)
    ensures Partition(head + sep + tail, sep) == Parts(head, true, tail)
            <==> forall j: nat :: j < |head| ==> !OccursAt(head + sep + tail, sep, j)
  {
    var text := head + sep + tail;
    assert text[|head|..|head| + |sep|] == sep;
    assert OccursAt(text, sep, |head|);
    var i := IndexOf(text, sep).value;
    if i == |head| {
      assert text[..i] == head && text[i + |sep|..] == tail;
    } else {
      assert |Partition(text, sep).head| == i;
    }
  }

  /** Python's whitespace characters. */
  predicate IsSpace(c: char) {
    var n := c as int;
    0x9 <= n <= 0xd || 0x1c <= n <= 0x20 || n == 0x85 || n == 0xa0 || n == 0x1680 ||
    0x2000 <= n <= 0x200a || n == 0x2028 || n == 0x2029 || n == 0x202f || n == 0x205f || n == 0x3000
  }

  function StripLeft(s: string): string {
    if s != "" && IsSpace(s[0]) then StripLeft(s[1..]) else s
  }

  function StripRight(s: string): string {
    if s != "" && IsSpace(s[|s| - 1]) then StripRight(s[..|s| - 1]) else s
  }

  function Strip(s: string): string {
    StripRight(StripLeft(s))
  }

  predicate AllBlank(s: string) {
    forall c :: c in s ==> IsSpace(c)
  }

  lemma {:induction false} StripLeftExact(s: string) returns (front: string)
    ensures s == front + StripLeft(s) && AllBlank(front)
    ensures StripLeft(s) != "" ==> !IsSpace(StripLeft(s)[0])
  {
    front := "";
    if s != "" && IsSpace(s[0]) {
      front := StripLeftExact(s[1..]);
      front := [s[0]] + front;
    }
  }

  lemma {:induction false} StripRightExact(s: string) returns (back: string)
    ensures s == StripRight(s) + back && AllBlank(back)
    ensures StripRight(s) != "" ==> !IsSpace(StripRight(s)[|StripRight(s)| - 1])
  {
    back := "";
    if s != "" && IsSpace(s[|s| - 1]) {
      var front, last := s[..|s| - 1], [s[|s| - 1]];
      back := StripRightExact(front);
      assert s == front + last;
      Associate(StripRight(front), back, last);
      back := back + last;
    }
  }

  /** `strip` takes blanks off both ends, all of them and nothing else. */
  lemma StripExact(s: string) returns (front: string, back: string)
    ensures s == front + Strip(s) + back && AllBlank(front) && AllBlank(back)
    ensures Strip(s) != "" ==> !IsSpace(Strip(s)[0]) && !IsSpace(Strip(s)[|Strip(s)| - 1])
  {
    front := StripLeftExact(s);
    back := StripRightExact(StripLeft(s));
    Associate(front, Strip(s), back);
    if Strip(s) != "" {
      assert Strip(s)[0] == StripLeft(s)[0];
    }
  }

  /** A text without blanks at its ends is its own stripped form. */
  lemma StripKeeps(s: string)
    requires s != "" ==> !IsSpace(s[0]) && !IsSpace(s[|s| - 1])
    ensures Strip(s) == s
  {
  }

  /** A stripped text neither starts nor ends with a blank, and such a text is stripped. */
  lemma StripTrims(s: string)
    ensures Strip(s) != "" ==> !IsSpace(Strip(s)[0]) && !IsSpace(Strip(s)[|Strip(s)| - 1])
    ensures s != "" && !IsSpace(s[0]) && !IsSpace(s[|s| - 1]) ==> Strip(s) == s
  {
    var front, back := StripExact(s);
    if s != "" && !IsSpace(s[0]) && !IsSpace(s[|s| - 1]) {
      StripKeeps(s);
    }
  }
}
