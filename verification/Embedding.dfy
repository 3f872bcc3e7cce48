/** `ModelClient.embed`: texts are sent in batches of 32; each answer is put in order by its
    indices; a failed batch voids the result and a short one ends it. */
module Embedding {
  import opened Common
  import opened StableSort

  const EMBED_BATCH_SIZE: nat := 32

  type Vector = seq<real>
  datatype Record = Record(index: nat, vector: Vector)

  /** The answer to the request for the texts from `start` on, or nothing when it fails. */
  type Service = (nat, seq<string>) -> Option<seq<Record>>

  function ByIndex(r: Record): real {
    r.index as real
  }

  function VectorsOf(data: seq<Record>): (v: seq<Vector>)
    ensures |v| == |data| && forall i :: 0 <= i < |v| ==> v[i] == data[i].vector
  {
    seq(|data|, i requires 0 <= i < |data| => data[i].vector)
  }

  function BatchAt(texts: seq<string>, start: nat): (b: seq<string>)
    requires start < |texts|
    ensures 1 <= |b| == Min(32, |texts| - start) && forall i :: 0 <= i < |b| ==> b[i] == texts[start + i]
  {
    texts[start..Min(start + EMBED_BATCH_SIZE, |texts|)]
  }

  /** The vectors for the texts from `start` on. */
  function Answered(texts: seq<string>, start: nat, service: Service): Option<seq<Vector>>
    decreases |texts| - start
  {
    if start >= |texts| then Some([])
    else
      var batch := BatchAt(texts, start);
      match service(start, batch)
      case None => None
      case Some(data) =>
        var vectors := VectorsOf(Sort(data, ByIndex));
        if |vectors| != |batch| then Some(vectors)
        else
          Joined(vectors, Answered(texts, start + EMBED_BATCH_SIZE, service))
  }

  function Embedded(configured: bool, texts: seq<string>, service: Service): Option<seq<Vector>> {
    if !configured || texts == [] then None else Answered(texts, 0, service)
  }

  method Embed(configured: bool, texts: seq<string>, service: Service) returns (r: Option<seq<Vector>>)
    ensures r == Embedded(configured, texts, service)
  {
    if !configured {
      return None;
    }
    var allVectors: Option<seq<Vector>> := None;
    var start := 0;
    ghost var all := Answered(texts, 0, service);
    assert all.Some? ==> [] + all.value == all.value;
    while start < |texts|
      invariant (start == 0 <==> allVectors.None?) && (start > 0 ==> texts != [])
      invariant Answered(texts, 0, service) == Joined(OrEmpty(allVectors), Answered(texts, start, service))
    {
      var batch := BatchAt(texts, start);
      var answer := service(start, batch);
      if answer.None? {
        return None;
      }
      var vectors := VectorsOf(Sort(answer.value, ByIndex));
      JoinedStep(OrEmpty(allVectors), vectors, Answered(texts, start + EMBED_BATCH_SIZE, service));
      allVectors := Some(OrEmpty(allVectors) + vectors);
      if |vectors| != |batch| {
        return allVectors;
      }
      start := start + EMBED_BATCH_SIZE;
    }
    assert OrEmpty(allVectors) + [] == OrEmpty(allVectors);
    r := allVectors;
  }

  function OrEmpty(v: Option<seq<Vector>>): seq<Vector> {
    if v.None? then [] else v.value
  }

  function Joined(v: seq<Vector>, more: Option<seq<Vector>>): Option<seq<Vector>> {
    if more.None? then None else Some(v + more.value)
  }

  lemma JoinedStep(earlier: seq<Vector>, vectors: seq<Vector>, more: Option<seq<Vector>>)
    ensures Joined(earlier, Joined(vectors, more)) == Joined(earlier + vectors, more)
  {
    if more.Some? {
      assert earlier + (vectors + more.value) == (earlier + vectors) + more.value;
    }
  }

  // ----- alignment -----

  /** An honest service answers a request with records of that request: each index names
      one of the texts, no index comes twice, and the vector is the vector of that text.
      Records may be missing and in any order. */
  ghost predicate HonestAnswer(batch: seq<string>, data: seq<Record>, truth: string -> Vector) {
    && (forall r :: r in data ==> r.index < |batch| && r.vector == truth(batch[r.index]))
    && (forall i, j :: 0 <= i < j < |data| ==> data[i].index != data[j].index)
  }

  ghost predicate Honest(service: Service, truth: string -> Vector) {
    forall start, batch :: service(start, batch).Some? ==> HonestAnswer(batch, service(start, batch).value, truth)
  }

  lemma {:induction false} InsertKeepsDistinct(r: Record, s: seq<Record>)
    requires forall i, j :: 0 <= i < j < |s| ==> s[i].index != s[j].index
    requires forall x :: x in s ==> x.index != r.index
    ensures var t := Insert(r, s, ByIndex);
            && (forall i, j :: 0 <= i < j < |t| ==> t[i].index != t[j].index)
            && (forall x :: x in t <==> x == r || x in s)
  {
    if s != [] && ByIndex(r) > ByIndex(s[0]) {
      InsertKeepsDistinct(r, s[1..]);
      assert s == [s[0]] + s[1..];
      forall x | x in s[1..] ensures x.index != s[0].index {
        var i :| 0 <= i < |s| - 1 && s[1..][i] == x;
        assert s[i + 1] == x;
      }
    }
  }

  lemma {:induction false} SortKeepsDistinct(s: seq<Record>)
    requires forall i, j :: 0 <= i < j < |s| ==> s[i].index != s[j].index
    ensures var t := Sort(s, ByIndex);
            && (forall i, j :: 0 <= i < j < |t| ==> t[i].index != t[j].index)
            && (forall x :: x in t <==> x in s)
  {
    if s != [] {
      SortKeepsDistinct(s[1..]);
      assert s == [s[0]] + s[1..];
      forall x | x in s[1..] ensures x.index != s[0].index {
        var i :| 0 <= i < |s| - 1 && s[1..][i] == x;
        assert s[i + 1] == x;
      }
      InsertKeepsDistinct(s[0], Sort(s[1..], ByIndex));
    }
  }

  /** Distinct indices in ascending order leave no room before them. */
  lemma {:induction false} IndexAtLeast(s: seq<Record>, i: nat)
    requires Ascending(s, ByIndex) && i < |s|
    requires forall i, j :: 0 <= i < j < |s| ==> s[i].index != s[j].index
    ensures s[i].index >= i
  {
    if i > 0 {
      IndexAtLeast(s, i - 1);
      assert ByIndex(s[i - 1]) <= ByIndex(s[i]);
    }
  }

  lemma {:induction false} IndexAtMost(s: seq<Record>, i: nat)
    requires Ascending(s, ByIndex) && i < |s|
    requires forall i, j :: 0 <= i < j < |s| ==> s[i].index != s[j].index
    requires forall r :: r in s ==> r.index < |s|
    ensures s[i].index <= i
    decreases |s| - i
  {
    if i == |s| - 1 {
      assert s[i] in s;
    } else {
      IndexAtMost(s, i + 1);
      assert ByIndex(s[i]) <= ByIndex(s[i + 1]);
    }
  }

  /** An honest answer has at most one vector per text, and a full one, put in order, gives
      each text its own vector. */
  lemma FullAnswerIsAligned(batch: seq<string>, data: seq<Record>, truth: string -> Vector)
    requires HonestAnswer(batch, data, truth)
    ensures |Sort(data, ByIndex)| == |data| <= |batch|
    ensures |data| == |batch| ==>
              forall i :: 0 <= i < |batch| ==> VectorsOf(Sort(data, ByIndex))[i] == truth(batch[i])
  {
    var s := Sort(data, ByIndex);
    SortIsStable(data, ByIndex);
    SortKeepsDistinct(data);
    if s != [] {
      IndexAtLeast(s, |s| - 1);
      assert s[|s| - 1] in s;
    }
    if |data| == |batch| {
      forall i | 0 <= i < |batch| ensures s[i].vector == truth(batch[i]) {
        IndexAtLeast(s, i);
        IndexAtMost(s, i);
        assert s[i] in s;
      }
    }
  }

  /** Every request for the texts from `start` on is answered in full. */
  ghost predicate AllComplete(texts: seq<string>, start: nat, service: Service)
    decreases |texts| - start
  {
    start >= |texts| ||
    (var batch := BatchAt(texts, start);
     service(start, batch).Some? && |service(start, batch).value| == |batch|
     && AllComplete(texts, start + EMBED_BATCH_SIZE, service))
  }

  lemma {:induction false} AnswersAligned(texts: seq<string>, start: nat, service: Service, truth: string -> Vector)
    requires start <= |texts| && Honest(service, truth)
    ensures var r := Answered(texts, start, service);
            && (r.Some? ==> |r.value| <= |texts| - start)
            && (r.Some? && |r.value| == |texts| - start <==> AllComplete(texts, start, service))
            && (r.Some? && |r.value| == |texts| - start ==>
                  forall i :: 0 <= i < |r.value| ==> r.value[i] == truth(texts[start + i]))
    decreases |texts| - start
  {
    if start < |texts| {
      var batch := BatchAt(texts, start);
      var answer := service(start, batch);
      if answer.Some? {
        FullAnswerIsAligned(batch, answer.value, truth);
        SortIsStable(answer.value, ByIndex);
        if |answer.value| == |batch| {
          if start + EMBED_BATCH_SIZE <= |texts| {
            AnswersAligned(texts, start + EMBED_BATCH_SIZE, service, truth);
          } else {
            assert Answered(texts, start + EMBED_BATCH_SIZE, service) == Some([]);
          }
        }
      }
    }
  }

  /** The result is as long as the input exactly when embedding is configured, there is
      something to embed and every request is answered in full; then vector `i` is the
      vector of text `i`. */
  lemma FullResultIsAligned(configured: bool, texts: seq<string>, service: Service, truth: string -> Vector)
    requires Honest(service, truth)
    ensures var r := Embedded(configured, texts, service);
            && (r.Some? && |r.value| == |texts| <==> configured && texts != [] && AllComplete(texts, 0, service))
            && (r.Some? && |r.value| == |texts| ==>
                  forall i :: 0 <= i < |texts| ==> r.value[i] == truth(texts[i]))
  {
    AnswersAligned(texts, 0, service, truth);
  }

  // ----- without honesty -----

  /** The first `k` requests from `start` on are answered in full. */
  ghost predicate FullBefore(texts: seq<string>, start: nat, k: nat, service: Service)
    decreases k
  {
    k == 0 ||
    (start < |texts| &&
     (var batch := BatchAt(texts, start);
      service(start, batch).Some? && |service(start, batch).value| == |batch|
      && FullBefore(texts, start + EMBED_BATCH_SIZE, k - 1, service)))
  }

  /** After `k` full answers comes one that is longer than its batch and exactly as long as
      all the texts that remain: it hides that the later ones are never sent. */
  ghost predicate HidesAfter(texts: seq<string>, start: nat, k: nat, service: Service) {
    FullBefore(texts, start, k, service) &&
    var at := start + k * EMBED_BATCH_SIZE;
    at < |texts| && |BatchAt(texts, at)| < |texts| - at
    && service(at, BatchAt(texts, at)).Some? && |service(at, BatchAt(texts, at)).value| == |texts| - at
  }

  ghost predicate Hides(texts: seq<string>, start: nat, service: Service) {
    exists k: nat :: HidesAfter(texts, start, k, service)
  }

  /** The request that comes after `k` full answers. */
  function Request(texts: seq<string>, start: nat, k: nat): (b: seq<string>)
    requires start + 32 * k < |texts|
  {
    BatchAt(texts, start + 32 * k)
  }

  /** What is known of `r`, the result for the texts from `start` on, after `k` full answers:
      a failure then voids everything, an answer of another length is the last, and what the
      full answers of an honest service gave is aligned. */
  ghost predicate Stops(
    r: Option<seq<Vector>>, texts: seq<string>, start: nat, k: nat, service: Service, truth: string -> Vector)
    requires start + 32 * k < |texts|
  {
    var batch, answer := Request(texts, start, k), service(start + 32 * k, Request(texts, start, k));
    && (answer.None? ==> r.None?)
    && (answer.Some? && |answer.value| != |batch| ==> r.Some? && |r.value| == 32 * k + |answer.value|)
    && (r.Some? && Honest(service, truth) ==>
          |r.value| >= 32 * k && forall i :: 0 <= i < 32 * k ==> r.value[i] == truth(texts[start + i]))
  }

  lemma StopsAtOnce(texts: seq<string>, start: nat, service: Service, truth: string -> Vector)
    requires start < |texts|
    ensures Stops(Answered(texts, start, service), texts, start, 0, service, truth)
  {
    var answer := service(start, BatchAt(texts, start));
    if answer.Some? {
      SortIsStable(answer.value, ByIndex);
    }
  }

  lemma FullFirst(texts: seq<string>, start: nat, k: nat, service: Service, truth: string -> Vector) returns (v: seq<Vector>)
    requires FullBefore(texts, start, k + 1, service) && start + 32 < |texts|
    ensures |v| == 32 && Answered(texts, start, service) == Joined(v, Answered(texts, start + 32, service))
    ensures Honest(service, truth) ==> forall i :: 0 <= i < 32 ==> v[i] == truth(texts[start + i])
    ensures FullBefore(texts, start + 32, k, service)
  {
    var batch := BatchAt(texts, start);
    var data := service(start, batch).value;
    SortIsStable(data, ByIndex);
    v := VectorsOf(Sort(data, ByIndex));
    if Honest(service, truth) {
      FullAnswerIsAligned(batch, data, truth);
    }
  }

  lemma StopsLater(
    v: seq<Vector>, r: Option<seq<Vector>>, texts: seq<string>, start: nat, k: nat, service: Service, truth: string -> Vector)
    requires start + 32 * (k + 1) < |texts| && |v| == 32 && Stops(r, texts, start + 32, k, service, truth)
    requires Honest(service, truth) ==> forall i :: 0 <= i < 32 ==> v[i] == truth(texts[start + i])
    ensures Stops(Joined(v, r), texts, start, k + 1, service, truth)
  {
    assert start + 32 + 32 * k == start + 32 * (k + 1);
    var j := Joined(v, r);
    if j.Some? && Honest(service, truth) {
      forall i | 0 <= i < 32 * (k + 1) ensures j.value[i] == truth(texts[start + i]) {
        if i >= 32 {
          assert r.value[i - 32] == truth(texts[start + 32 + (i - 32)]);
        }
      }
    }
  }

  lemma {:induction false} StopsFrom(texts: seq<string>, start: nat, k: nat, service: Service, truth: string -> Vector)
    requires FullBefore(texts, start, k, service) && start + 32 * k < |texts|
    ensures Stops(Answered(texts, start, service), texts, start, k, service, truth)
    decreases k
  {
    if k == 0 {
      StopsAtOnce(texts, start, service, truth);
    } else {
      var v := FullFirst(texts, start, k - 1, service, truth);
      StopsFrom(texts, start + 32, k - 1, service, truth);
      StopsLater(v, Answered(texts, start + 32, service), texts, start, k - 1, service, truth);
    }
  }

  /** Where embedding ends early, for every service and every number of full answers. */
  lemma StopsEarly(texts: seq<string>, k: nat, service: Service, truth: string -> Vector)
    requires FullBefore(texts, 0, k, service) && 32 * k < |texts|
    ensures Stops(Embedded(true, texts, service), texts, 0, k, service, truth)
  {
    StopsFrom(texts, 0, k, service, truth);
  }

  lemma HidesStep(texts: seq<string>, start: nat, service: Service)
    requires start < |texts|
    ensures var batch := BatchAt(texts, start);
            var answer := service(start, batch);
            Hides(texts, start, service) <==>
              answer.Some? && if |answer.value| == |batch| then Hides(texts, start + EMBED_BATCH_SIZE, service)
                              else |batch| < |texts| - start == |answer.value|
  {
    if k: nat :| HidesAfter(texts, start, k, service) && k > 0 {
      assert start + EMBED_BATCH_SIZE + (k - 1) * EMBED_BATCH_SIZE == start + k * EMBED_BATCH_SIZE;
      assert HidesAfter(texts, start + EMBED_BATCH_SIZE, k - 1, service);
    }
    var batch, next := BatchAt(texts, start), start + EMBED_BATCH_SIZE;
    var answer := service(start, batch);
    if answer.Some? && |answer.value| == |batch| {
      if k: nat :| HidesAfter(texts, next, k, service) {
        assert next + k * EMBED_BATCH_SIZE == start + (k + 1) * EMBED_BATCH_SIZE;
        assert HidesAfter(texts, start, k + 1, service);
      }
    } else if answer.Some? && |batch| < |texts| - start == |answer.value| {
      assert HidesAfter(texts, start, 0, service);
    }
  }

  lemma {:induction false} AnsweredLengthIff(texts: seq<string>, start: nat, service: Service)
    requires start <= |texts|
    ensures var r := Answered(texts, start, service);
            r.Some? && |r.value| == |texts| - start <==> AllComplete(texts, start, service) || Hides(texts, start, service)
    decreases |texts| - start
  {
    if start < |texts| {
      var batch := BatchAt(texts, start);
      var answer := service(start, batch);
      HidesStep(texts, start, service);
      if answer.Some? {
        SortIsStable(answer.value, ByIndex);
        if |answer.value| == |batch| {
          if start + EMBED_BATCH_SIZE <= |texts| {
            AnsweredLengthIff(texts, start + EMBED_BATCH_SIZE, service);
          } else {
            NothingHides(texts, start + EMBED_BATCH_SIZE, service);
          }
        }
      }
    } else {
      NothingHides(texts, start, service);
    }
  }

  lemma NothingHides(texts: seq<string>, start: nat, service: Service)
    requires start >= |texts|
    ensures !Hides(texts, start, service)
  {
  }

  /** Whatever the service answers, the lengths agree exactly when every request was
      answered in full or an over-long answer hides texts that were never sent. */
  lemma LengthsAgreeIff(configured: bool, texts: seq<string>, service: Service)
    ensures var r := Embedded(configured, texts, service);
            r.Some? && |r.value| == |texts| <==>
              configured && texts != [] && (AllComplete(texts, 0, service) || Hides(texts, 0, service))
  {
    AnsweredLengthIff(texts, 0, service);
  }

  /** Such an answer: the first one, over-long by just the texts that are then never sent. */
  lemma OverlongAnswerHidesTexts(texts: seq<string>, data: seq<Record>, service: Service)
    requires |texts| > EMBED_BATCH_SIZE && |data| == |texts|
    requires service(0, BatchAt(texts, 0)) == Some(data)
    ensures Hides(texts, 0, service)
    ensures var r := Embedded(true, texts, service);
            r.Some? && |r.value| == |texts| && r.value == VectorsOf(Sort(data, ByIndex))
  {
    SortIsStable(data, ByIndex);
    assert HidesAfter(texts, 0, 0, service);
  }
}
