/** The batching of `ModelClient.extract_facts`: chunks are packed greedily, in order, into
    batches whose pieces hold at most `EXTRACT_BATCH_CHARS` characters. */
module ExtractBatches {
  import opened Common

  const EXTRACT_BATCH_CHARS: nat := 12000

  /** A chunk with its number. */
  datatype Item = Item(index: nat, content: string)
  type Batch = seq<Item>

  /** One numbered piece of the prompt. */
  function Piece(item: Item): (p: string)
    ensures |p| == Size(item)
  {
    "[片段 " + Digits(item.index) + "] " + item.content
  }

  /** Its length, which is at least seven. */
  function Size(item: Item): (n: nat)
    ensures n >= 7
  {
    6 + |Digits(item.index)| + |item.content|
  }

  function Chars(batch: Batch): nat {
    if batch == [] then 0 else Size(batch[0]) + Chars(batch[1..])
  }

  /** `enumerate(chunks)` from number `start`. */
  function Numbered(chunks: seq<string>, start: nat): (r: Batch)
    ensures |r| == |chunks| && forall i :: 0 <= i < |r| ==> r[i] == Item(start + i, chunks[i])
  {
    seq(|chunks|, i requires 0 <= i < |chunks| => Item(start + i, chunks[i]))
  }

  /** How many of `items` still join a batch that already holds `used` characters. */
  function Room(items: Batch, used: nat): (n: nat)
    ensures n <= |items|
  {
    if items == [] || used + Size(items[0]) > EXTRACT_BATCH_CHARS then 0
    else 1 + Room(items[1..], used + Size(items[0]))
  }

  /** The size of the first batch: its first item always, then as many as fit. */
  function FirstSize(items: Batch): (n: nat)
    requires items != []
    ensures 1 <= n <= |items|
  {
    1 + Room(items[1..], Size(items[0]))
  }

  function Packed(items: Batch): seq<Batch> {
    if items == [] then []
    else [items[..FirstSize(items)]] + Packed(items[FirstSize(items)..])
  }

  method PackChunks(chunks: seq<string>) returns (batches: seq<Batch>)
    ensures batches == Packed(Numbered(chunks, 0))
  {
    batches := [];
    var current: Batch := [];
    var currentChars := 0;
    ghost var items := Numbered(chunks, 0);
    assert items[0..] == items;
    for index := 0 to |chunks|
      invariant currentChars == Chars(current)
      invariant PackedSoFar(items, batches, current, index)
    {
      var item := Item(index, chunks[index]);
      PendingStep(items, batches, current, index);
      CharsAppend(current, item);
      var piece := Piece(item);
      if current != [] && currentChars + |piece| > EXTRACT_BATCH_CHARS {
        batches := batches + [current];
        current := [];
        currentChars := 0;
        CharsAppend(current, item);
      }
      current := current + [item];
      currentChars := currentChars + |piece|;
    }
    PendingEnd(items, batches, current);
    if current != [] {
      batches := batches + [current];
    }
  }

  /** The finished batches, the open one and the items to come are the packing of all. */
  ghost predicate PackedSoFar(items: Batch, batches: seq<Batch>, current: Batch, i: nat) {
    i <= |items| && Packed(items) == batches + Pending(current, items[i..])
  }

  /** The batches that result when `current` is open and `items` are still to come. */
  function Pending(current: Batch, items: Batch): seq<Batch> {
    if current == [] then Packed(items) else Closed(Fill(current, Chars(current), items))
  }

  function Closed(c: Cut): seq<Batch> {
    [c.batch] + Packed(c.rest)
  }

  datatype Cut = Cut(batch: Batch, rest: Batch)

  /** Fills the open batch, which holds `used` characters, as far as it goes. */
  function Fill(current: Batch, used: nat, items: Batch): Cut {
    var n := Room(items, used);
    Cut(current + items[..n], items[n..])
  }

  lemma FillFresh(item: Item, rest: Batch)
    ensures var items := [item] + rest;
            Fill([item], Chars([item]), rest) == Cut(items[..FirstSize(items)], items[FirstSize(items)..])
  {
    var items := [item] + rest;
    assert items[1..] == rest && Chars([item]) == Size(item);
    Regroup([], item, rest, Room(rest, Size(item)));
    assert [] + items[..FirstSize(items)] == items[..FirstSize(items)] && [] + [item] == [item];
  }

  lemma PendingFresh(item: Item, rest: Batch)
    ensures Packed([item] + rest) == Pending([item], rest)
  {
    FillFresh(item, rest);
  }

  lemma PendingFits(current: Batch, item: Item, rest: Batch)
    requires current != [] && Chars(current) + Size(item) <= EXTRACT_BATCH_CHARS
    ensures Pending(current, [item] + rest) == Pending(current + [item], rest)
  {
    var longer, used := current + [item], Chars(current);
    PendingOpen(current, [item] + rest);
    PendingOpen(longer, rest);
    assert Chars(longer) == used + Size(item) by {
      CharsAppend(current, item);
    }
    assert Fill(current, used, [item] + rest) == Fill(longer, used + Size(item), rest) by {
      FillFits(current, used, item, rest);
    }
  }

  lemma PendingOpen(current: Batch, items: Batch)
    requires current != []
    ensures Pending(current, items) == Closed(Fill(current, Chars(current), items))
  {
  }

  lemma FillFits(current: Batch, used: nat, item: Item, rest: Batch)
    requires used + Size(item) <= EXTRACT_BATCH_CHARS
    ensures Fill(current, used, [item] + rest) == Fill(current + [item], used + Size(item), rest)
  {
    RoomStep(item, rest, used);
    Regroup(current, item, rest, Room(rest, used + Size(item)));
  }

  lemma RoomStep(item: Item, rest: Batch, used: nat)
    ensures Room([item] + rest, used)
            == if used + Size(item) > EXTRACT_BATCH_CHARS then 0 else 1 + Room(rest, used + Size(item))
  {
    assert ([item] + rest)[1..] == rest;
  }

  lemma Regroup(current: Batch, item: Item, rest: Batch, n: nat)
    requires n <= |rest|
    ensures current + ([item] + rest)[..1 + n] == current + [item] + rest[..n]
    ensures ([item] + rest)[1 + n..] == rest[n..]
  {
  }

  lemma PendingFull(current: Batch, item: Item, rest: Batch)
    requires current != [] && Chars(current) + Size(item) > EXTRACT_BATCH_CHARS
    ensures Pending(current, [item] + rest) == [current] + Pending([item], rest)
  {
    var items := [item] + rest;
    RoomStep(item, rest, Chars(current));
    assert current + items[..0] == current && items[0..] == items;
    PendingFresh(item, rest);
  }

  predicate Overflows(current: Batch, item: Item) {
    current != [] && Chars(current) + Size(item) > EXTRACT_BATCH_CHARS
  }

  lemma PendingNext(current: Batch, item: Item, rest: Batch)
    ensures Pending(current, [item] + rest)
            == if Overflows(current, item) then [current] + Pending([item], rest) else Pending(current + [item], rest)
  {
    if current == [] {
      assert [] + [item] == [item];
      PendingFresh(item, rest);
    } else if Overflows(current, item) {
      PendingFull(current, item, rest);
    } else {
      PendingFits(current, item, rest);
    }
  }

  lemma PendingStep(items: Batch, batches: seq<Batch>, current: Batch, i: nat)
    requires i < |items| && PackedSoFar(items, batches, current, i)
    ensures if Overflows(current, items[i])
            then PackedSoFar(items, batches + [current], [] + [items[i]], i + 1)
            else PackedSoFar(items, batches, current + [items[i]], i + 1)
  {
    var item, rest := items[i], items[i + 1..];
    assert items[i..] == [item] + rest;
    PendingNext(current, item, rest);
    assert [] + [item] == [item];
    Associate(batches, [current], Pending([item], rest));
  }

  lemma PendingEnd(items: Batch, batches: seq<Batch>, current: Batch)
    requires PackedSoFar(items, batches, current, |items|)
    ensures Packed(items) == if current == [] then batches else batches + [current]
  {
    assert items[|items|..] == [];
    assert current + [] == current && batches + [] == batches;
  }

  lemma {:induction false} CharsJoin(a: Batch, b: Batch)
    ensures Chars(a + b) == Chars(a) + Chars(b)
  {
    if a == [] {
      assert a + b == b;
    } else {
      assert (a + b)[1..] == a[1..] + b;
      CharsJoin(a[1..], b);
    }
  }

  lemma CharsAppend(a: Batch, item: Item)
    ensures Chars(a + [item]) == Chars(a) + Size(item)
  {
    CharsJoin(a, [item]);
  }

  // ----- what the packing promises -----

  /** A batch the extractor may send: one piece, or pieces within the limit. */
  predicate Sendable(b: Batch) {
    b != [] && (|b| == 1 || Chars(b) <= EXTRACT_BATCH_CHARS)
  }

  /** An ordered split of `items` into batches that may be sent. */
  ghost predicate SplitOf(batches: seq<Batch>, items: Batch) {
    Flatten(batches) == items && forall b :: b in batches ==> Sendable(b)
  }

  lemma {:induction false} RoomExact(items: Batch, used: nat, n: nat)
    requires n <= |items|
    ensures n <= Room(items, used) <==> n == 0 || used + Chars(items[..n]) <= EXTRACT_BATCH_CHARS
  {
    if n > 0 {
      var size := Size(items[0]);
      assert items[..n][1..] == items[1..][..n - 1];
      assert Chars(items[..n]) == size + Chars(items[1..][..n - 1]);
      if used + size <= EXTRACT_BATCH_CHARS {
        RoomExact(items[1..], used + size, n - 1);
      }
    }
  }

  /** The first greedy batch is the longest prefix that may be sent. */
  lemma FirstIsLongest(items: Batch, n: nat)
    requires 1 <= n <= |items|
    ensures n <= FirstSize(items) <==> Sendable(items[..n])
  {
    RoomExact(items[1..], Size(items[0]), n - 1);
    assert items[..n][1..] == items[1..][..n - 1];
  }

  /** The packing is an ordered split: nothing is lost, repeated or reordered. */
  lemma {:induction false} PackedIsSplit(items: Batch)
    ensures SplitOf(Packed(items), items)
  {
    if items != [] {
      var n := FirstSize(items);
      PackedIsSplit(items[n..]);
      FirstIsLongest(items, n);
      assert items == items[..n] + items[n..];
    }
  }

  /** All chunks are there, in order, under their own numbers. */
  lemma PackedIsNumbered(chunks: seq<string>)
    ensures var all := Flatten(Packed(Numbered(chunks, 0)));
            |all| == |chunks| && forall i :: 0 <= i < |all| ==> all[i].index == i && all[i].content == chunks[i]
  {
    PackedIsSplit(Numbered(chunks, 0));
  }

  lemma CharsOfSuffix(items: Batch, i: nat, j: nat)
    requires i <= j <= |items|
    ensures Chars(items[i..j]) <= Chars(items[..j])
  {
    assert items[..j] == items[..i] + items[i..j];
    CharsJoin(items[..i], items[i..j]);
  }

  lemma SendableSuffix(b: Batch, i: nat)
    requires Sendable(b) && i < |b|
    ensures Sendable(b[i..])
  {
    CharsOfSuffix(b, i, |b|);
    assert b[..|b|] == b;
  }

  /** The batch `b` could not have taken the first piece of the batch that follows it. */
  predicate FullBefore(b: Batch, next: Batch) {
    next != [] && Chars(b) + Size(next[0]) > 12000
  }

  lemma FirstIsFull(items: Batch)
    requires items != [] && items[FirstSize(items)..] != []
    ensures FullBefore(items[..FirstSize(items)], Packed(items[FirstSize(items)..])[0])
  {
    var n := FirstSize(items);
    var rest := items[n..];
    FirstIsLongest(items, n + 1);
    assert items[..n + 1] == items[..n] + [rest[0]];
    CharsAppend(items[..n], rest[0]);
    assert Packed(rest)[0] == rest[..FirstSize(rest)];
  }

  /** A batch is closed only when the next piece would take it beyond 12000 characters, and
      only single pieces exceed that: with the order kept, this determines the batches. */
  ghost predicate Greedy(batches: seq<Batch>) {
    batches == [] ||
    (&& batches[0] != [] && (|batches[0]| == 1 || Chars(batches[0]) <= 12000)
     && (|batches| > 1 ==> FullBefore(batches[0], batches[1]))
     && Greedy(batches[1..]))
  }

  lemma {:induction false} PackedIsGreedy(items: Batch)
    ensures Greedy(Packed(items))
    decreases |items|
  {
    if items != [] {
      var n := FirstSize(items);
      PackedIsGreedy(items[n..]);
      FirstIsLongest(items, n);
      if items[n..] != [] {
        FirstIsFull(items);
      }
      assert Packed(items)[1..] == Packed(items[n..]);
    }
  }

  lemma PackedLength(items: Batch)
    requires items != []
    ensures |Packed(items)| == 1 + |Packed(items[FirstSize(items)..])|
  {
  }

  /** A batch that starts inside the first one reaches at least as far. */
  lemma FirstReaches(items: Batch, i: nat)
    requires i < |items| && i < FirstSize(items)
    ensures FirstSize(items) <= i + FirstSize(items[i..])
  {
    var n, rest := FirstSize(items), items[i..];
    assert items[..n][i..] == rest[..n - i];
    FirstIsLongest(items, n);
    SendableSuffix(items[..n], i);
    FirstIsLongest(rest, n - i);
  }

  lemma DropTwice(items: Batch, k: nat, n: nat)
    requires k <= n <= |items|
    ensures items[n..] == items[k..][n - k..]
  {
  }

  lemma TailOfTail(items: Batch, n: nat, i: nat, rest: Batch, m: nat)
    requires n <= i + m && i <= |items| && rest == items[i..] && m <= |rest| && n <= |items|
    ensures rest[m..] == items[n..][i + m - n..]
  {
  }

  /** A shorter remainder never needs more batches. */
  lemma {:induction false} SuffixNeedsNoMore(items: Batch, i: nat, rest: Batch)
    requires i <= |items| && rest == items[i..]
    ensures |Packed(rest)| <= |Packed(items)|
    decreases |items|
  {
    if 0 < i < |items| {
      var n := FirstSize(items);
      PackedLength(items);
      if n <= i {
        DropTwice(items, n, i);
        SuffixNeedsNoMore(items[n..], i - n, rest);
      } else {
        var m := FirstSize(rest);
        FirstReaches(items, i);
        PackedLength(rest);
        TailOfTail(items, n, i, rest, m);
        SuffixNeedsNoMore(items[n..], i + m - n, rest[m..]);
      }
    }
  }

  lemma SplitHead(batches: seq<Batch>, items: Batch)
    requires SplitOf(batches, items) && batches != []
    ensures var k := |batches[0]|;
            items != [] && 1 <= k <= |items| && Sendable(items[..k]) && SplitOf(batches[1..], items[k..])
  {
    var b := batches[0];
    assert b in batches && items[..|b|] == b && items[|b|..] == Flatten(batches[1..]);
  }

  /** Starting with a shorter batch than the greedy one never pays. */
  lemma ShorterFirstCostsNoLess(items: Batch, k: nat, rest: Batch)
    requires items != [] && k <= FirstSize(items) && rest == items[k..]
    ensures |Packed(items)| <= 1 + |Packed(rest)|
  {
    var n := FirstSize(items);
    PackedLength(items);
    DropTwice(items, k, n);
    SuffixNeedsNoMore(rest, n - k, items[n..]);
  }

  /** Optimality: no other ordered split into sendable batches uses fewer of them. */
  lemma {:induction false} PackedIsFewest(items: Batch, batches: seq<Batch>)
    requires SplitOf(batches, items)
    ensures |Packed(items)| <= |batches|
    decreases |batches|
  {
    if batches != [] {
      var k := |batches[0]|;
      SplitHead(batches, items);
      FirstIsLongest(items, k);
      ShorterFirstCostsNoLess(items, k, items[k..]);
      PackedIsFewest(items[k..], batches[1..]);
    }
  }

  /** The text of a prompt: the pieces joined by blank lines. */
  function Source(batch: Batch): string {
    if batch == [] then "" else if |batch| == 1 then Piece(batch[0])
    else Piece(batch[0]) + "\n\n" + Source(batch[1..])
  }

  lemma {:induction false} DigitsAreDigits(n: nat)
    ensures forall c :: c in Digits(n) ==> '0' <= c <= '9'
  {
    if n >= 10 {
      DigitsAreDigits(n / 10);
    }
  }

  /** What comes before the bracket and after it can be told apart. */
  lemma BracketSplits(a: string, x: string, b: string, y: string)
    requires ']' !in a && ']' !in b && a + "] " + x == b + "] " + y
    ensures a == b && x == y
  {
    var s, t := a + "] " + x, b + "] " + y;
    assert s[|a|] == ']' && t[|b|] == ']';
    assert s[..|a|] == a && t[..|b|] == b && s[|a| + 2..] == x && t[|b| + 2..] == y;
  }

  /** The prompt text of one chunk tells its number and its content. */
  lemma PieceTells(a: Item, b: Item)
    ensures Source([a]) == "[片段 " + Digits(a.index) + "] " + a.content
    ensures Source([a]) == Source([b]) <==> a == b
  {
    var front := "[片段 ";
    DigitsAreDigits(a.index);
    DigitsAreDigits(b.index);
    if Source([a]) == Source([b]) {
      var s, t := Digits(a.index) + "] " + a.content, Digits(b.index) + "] " + b.content;
      assert Source([a]) == front + s && Source([b]) == front + t;
      assert Source([a])[|front|..] == s && Source([b])[|front|..] == t;
      BracketSplits(Digits(a.index), a.content, Digits(b.index), b.content);
      DigitsInjective(a.index, b.index);
    }
  }

  /** The prompt text of several chunks is theirs, in order, with blank lines between. */
  lemma {:induction false} SourceOfParts(a: Batch, b: Batch)
    requires a != [] && b != []
    ensures Source(a + b) == Source(a) + "\n\n" + Source(b)
  {
    assert (a + b)[0] == a[0] && (a + b)[1..] == a[1..] + b;
    if |a| == 1 {
      assert a[1..] + b == b;
    } else {
      SourceOfParts(a[1..], b);
      assert Source(a + b) == Piece(a[0]) + "\n\n" + (Source(a[1..]) + "\n\n" + Source(b));
    }
  }

  lemma {:induction false} SourceLength(batch: Batch)
    requires batch != []
    ensures |Source(batch)| == Chars(batch) + 2 * (|batch| - 1)
    ensures Chars(batch) >= 7 * |batch|
  {
    if |batch| > 1 {
      SourceLength(batch[1..]);
    }
  }

  /** The prompt text of a batch of several chunks stays below 15427 characters. */
  lemma PromptIsBounded(chunks: seq<string>, b: Batch)
    requires b in Packed(Numbered(chunks, 0)) && |b| > 1
    ensures |Source(b)| <= 15426
  {
    PackedIsSplit(Numbered(chunks, 0));
    SourceLength(b);
  }
}
