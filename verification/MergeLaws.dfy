/** What merging promises: comparable scores across workspaces, no dependence on the order
    in which workspaces answer, and a fair ranking within each of them. */
module MergeLaws {
  import opened Common
  import opened StableSort
  import opened EvidenceMerge

  // ----- the merged list is the stable top of the deduplicated union -----

  /** Row `e` stands at `i` and is the first of its key there. */
  ghost predicate FirstAt(batch: Batch, seen: set<string>, e: Evidence, i: nat) {
    i < |batch| && batch[i] == e && Key(e) !in seen && forall j :: 0 <= j < i ==> Key(batch[j]) != Key(e)
  }

  ghost predicate IsFirst(batch: Batch, seen: set<string>, e: Evidence) {
    exists i: nat :: FirstAt(batch, seen, e, i)
  }

  /** First wins: of the rows that share a key exactly the first is kept. */
  lemma {:induction false} FirstWinsExact(batch: Batch, seen: set<string>)
    ensures forall e :: e in FirstWins(batch, seen) <==> IsFirst(batch, seen, e)
    ensures forall i, j :: 0 <= i < j < |FirstWins(batch, seen)| ==>
              Key(FirstWins(batch, seen)[i]) != Key(FirstWins(batch, seen)[j])
  {
    if batch != [] {
      var k := Key(batch[0]);
      var seen' := seen + {k};
      FirstWinsExact(batch[1..], seen');
      if k in seen {
        assert seen' == seen;
      }
      forall e ensures e in FirstWins(batch, seen) <==> IsFirst(batch, seen, e) {
        if IsFirst(batch, seen, e) {
          var i: nat :| FirstAt(batch, seen, e, i);
          if i > 0 {
            assert FirstAt(batch[1..], seen', e, i - 1);
          }
        }
        if IsFirst(batch[1..], seen', e) {
          var i: nat :| FirstAt(batch[1..], seen', e, i);
          assert FirstAt(batch, seen, e, i + 1);
        }
        if k !in seen && e == batch[0] {
          assert FirstAt(batch, seen, e, 0);
        }
      }
      forall e | e in FirstWins(batch[1..], seen') ensures Key(e) != k {
        assert IsFirst(batch[1..], seen', e);
      }
    }
  }

  lemma KeySetHead(a: Batch)
    requires a != []
    ensures KeySet(a) == {Key(a[0])} + KeySet(a[1..])
  {
    assert a == [a[0]] + a[1..];
  }

  lemma FirstWinsHead(e: Evidence, rest: Batch, seen: set<string>)
    ensures FirstWins([e] + rest, seen)
            == if Key(e) in seen then FirstWins(rest, seen) else [e] + FirstWins(rest, seen + {Key(e)})
  {
    assert ([e] + rest)[0] == e && ([e] + rest)[1..] == rest;
  }

  lemma SeenAll(a: Batch, seen: set<string>)
    requires a != []
    ensures seen + KeySet(a) == (seen + {Key(a[0])}) + KeySet(a[1..])
    ensures Key(a[0]) in seen ==> seen + KeySet(a) == seen + KeySet(a[1..])
  {
    KeySetHead(a);
  }

  lemma {:induction false} FirstWinsAppend(a: Batch, b: Batch, seen: set<string>)
    ensures FirstWins(a + b, seen) == FirstWins(a, seen) + FirstWins(b, seen + KeySet(a))
  {
    if a == [] {
      assert a + b == b && seen + KeySet(a) == seen;
    } else {
      var e, rest := a[0], a[1..];
      HeadAndTail(a);
      Associate([e], rest, b);
      FirstWinsHead(e, rest, seen);
      FirstWinsHead(e, rest + b, seen);
      SeenAll(a, seen);
      var seen' := if Key(e) in seen then seen else seen + {Key(e)};
      FirstWinsAppend(rest, b, seen');
      Associate([e], FirstWins(rest, seen'), FirstWins(b, seen' + KeySet(rest)));
    }
  }

  /** A row without its score. */
  function Unscored(s: Batch): (r: Batch)
    ensures |r| == |s| && forall i :: 0 <= i < |s| ==> r[i] == s[i].(score := 0.0)
  {
    seq(|s|, i requires 0 <= i < |s| => s[i].(score := 0.0))
  }

  lemma UnscoredJoin(a: Batch, b: Batch)
    ensures Unscored(a + b) == Unscored(a) + Unscored(b)
  {
  }

  lemma UnscoredShares(s: Batch, top: real)
    requires top != 0.0
    ensures Unscored(Shares(s, top)) == Unscored(s)
  {
  }

  /** Deduplication runs over all batches together, in order; only scores change. */
  lemma {:induction false} UnionIsFirstWins(batches: seq<Batch>, seen: set<string>)
    ensures Unscored(Union(batches, seen)) == Unscored(FirstWins(Flatten(batches), seen))
  {
    if batches != [] {
      var b, rest, seen' := batches[0], batches[1..], seen + KeySet(batches[0]);
      var kept := FirstWins(b, seen);
      UnionIsFirstWins(rest, seen');
      assert FirstWins(Flatten(batches), seen) == kept + FirstWins(Flatten(rest), seen') by {
        FirstWinsAppend(b, Flatten(rest), seen);
      }
      UnscoredJoin(Shares(kept, Top(b)), Union(rest, seen'));
      UnscoredJoin(kept, FirstWins(Flatten(rest), seen'));
      UnscoredShares(kept, Top(b));
    }
  }

  /** Merging is determined by its specification: any list that is sorted by score, best
      first, and keeps the union's rows with ties in union order, cut at `topK`. */
  lemma MergeIsStableTop(batches: seq<Batch>, topK: int, full: Batch)
    requires Ascending(full, Descending) && SameByKey(full, Union(batches, {}), Descending)
    ensures Merged(batches, topK) == Cut(full, topK)
  {
    SortIsStable(Union(batches, {}), Descending);
    forall v ensures Filter(full, HasKey(Descending, v)) == Filter(Ranked(batches), HasKey(Descending, v)) {
      assert Filter(Ranked(batches), HasKey(Descending, v)) == Filter(Union(batches, {}), HasKey(Descending, v));
    }
    StableSortIsUnique(full, Ranked(batches), Descending);
  }

  // ----- scale invariance -----

  function Times(e: Evidence, c: real): Evidence {
    e.(score := c * e.score)
  }

  function Rescale(batch: Batch, c: real): (r: Batch)
    ensures |r| == |batch| && forall i :: 0 <= i < |r| ==> r[i] == Times(batch[i], c)
  {
    seq(|batch|, i requires 0 <= i < |batch| => Times(batch[i], c))
  }

  function MaxOf(a: real, b: real): real {
    if a >= b then a else b
  }

  lemma MaxOfProducts(a: real, b: real, c: real)
    requires c > 0.0
    ensures MaxOf(c * a, c * b) == c * MaxOf(a, b)
  {
    if a > b {
      assert c * (a - b) > 0.0;
    } else if a < b {
      assert c * (b - a) > 0.0;
    }
  }

  lemma MaxScoreStep(batch: Batch)
    requires |batch| > 1
    ensures MaxScore(batch) == MaxOf(batch[0].score, MaxScore(batch[1..]))
  {
  }

  lemma {:induction false} MaxOfRescaled(batch: Batch, c: real)
    requires batch != [] && c > 0.0
    ensures MaxScore(Rescale(batch, c)) == c * MaxScore(batch)
  {
    var scaled := Rescale(batch, c);
    if |batch| > 1 {
      assert scaled[1..] == Rescale(batch[1..], c);
      MaxOfRescaled(batch[1..], c);
      MaxScoreStep(batch);
      MaxScoreStep(scaled);
      MaxOfProducts(batch[0].score, MaxScore(batch[1..]), c);
    }
  }

  lemma {:induction false} FirstWinsOfRescaled(batch: Batch, c: real, seen: set<string>)
    ensures FirstWins(Rescale(batch, c), seen) == Rescale(FirstWins(batch, seen), c)
  {
    if batch != [] {
      var r := Rescale(batch, c);
      assert r[1..] == Rescale(batch[1..], c) && Key(r[0]) == Key(batch[0]);
      FirstWinsOfRescaled(batch[1..], c, seen);
      FirstWinsOfRescaled(batch[1..], c, seen + {Key(batch[0])});
    }
  }

  lemma KeysOfRescaled(batch: Batch, c: real)
    ensures KeySet(Rescale(batch, c)) == KeySet(batch)
  {
    var r := Rescale(batch, c);
    forall k ensures k in KeySet(r) <==> k in KeySet(batch) {
      if k in KeySet(batch) {
        var i :| 0 <= i < |batch| && Key(batch[i]) == k;
        assert Key(r[i]) == k && r[i] in r;
      }
      if k in KeySet(r) {
        var i :| 0 <= i < |r| && Key(r[i]) == k;
        assert Key(batch[i]) == k && batch[i] in batch;
      }
    }
  }

  /** The guard under which a batch's scale does not matter: a best score that is not
      zero, or nothing but zeros. Non-negative scores always meet it. */
  predicate ScaleFree(batch: Batch) {
    batch == [] || MaxScore(batch) != 0.0 || forall e :: e in batch ==> e.score == 0.0
  }

  lemma NonNegativeIsScaleFree(batch: Batch)
    requires forall e :: e in batch ==> e.score >= 0.0
    ensures ScaleFree(batch)
  {
    if batch != [] {
      MaxScoreIsMax(batch);
    }
  }

  lemma {:induction false} FirstWinsSubset(batch: Batch, seen: set<string>)
    ensures forall e :: e in FirstWins(batch, seen) ==> e in batch
  {
    FirstWinsExact(batch, seen);
    forall e | e in FirstWins(batch, seen) ensures e in batch {
      assert IsFirst(batch, seen, e);
    }
  }

  lemma Cancel(a: real, t: real, c: real)
    requires c > 0.0 && t != 0.0
    ensures c * t != 0.0 && (c * a) / (c * t) == a / t
  {
    var q := a / t;
    assert c * a == q * (c * t);
  }

  lemma ShareOfTimes(e: Evidence, t: real, c: real)
    requires c > 0.0 && t != 0.0
    ensures c * t != 0.0 && Share(Times(e, c), c * t) == Share(e, t)
    ensures e.score == 0.0 ==> Times(e, c) == e
  {
    Cancel(e.score, t, c);
  }

  lemma ProductIsZero(a: real, c: real)
    requires c > 0.0
    ensures c * a == 0.0 <==> a == 0.0
  {
  }

  lemma TopOfRescaled(batch: Batch, c: real)
    requires c > 0.0 && batch != []
    ensures Top(Rescale(batch, c)) == if MaxScore(batch) != 0.0 then c * Top(batch) else 1.0
  {
    MaxOfRescaled(batch, c);
    ProductIsZero(MaxScore(batch), c);
  }

  lemma SharesCancel(kept: Batch, t: real, c: real, top: real)
    requires c > 0.0 && t != 0.0 && top == c * t && top != 0.0
    ensures Shares(Rescale(kept, c), top) == Shares(kept, t)
  {
    forall i | 0 <= i < |kept| ensures Share(Rescale(kept, c)[i], top) == Share(kept[i], t) {
      ShareOfTimes(kept[i], t, c);
    }
  }

  lemma ZerosOfRescaled(kept: Batch, c: real)
    requires forall e :: e in kept ==> e.score == 0.0
    ensures Rescale(kept, c) == kept
  {
    forall i | 0 <= i < |kept| ensures Times(kept[i], c) == kept[i] {
      assert kept[i] in kept;
    }
  }

  lemma SharesOfRescaled(batch: Batch, c: real, kept: Batch)
    requires c > 0.0 && ScaleFree(batch) && forall e :: e in kept ==> e in batch
    ensures Shares(Rescale(kept, c), Top(Rescale(batch, c))) == Shares(kept, Top(batch))
  {
    if kept != [] {
      assert kept[0] in batch;
      var top := Top(Rescale(batch, c));
      if MaxScore(batch) != 0.0 {
        assert top == c * Top(batch) by { TopOfRescaled(batch, c); }
        SharesCancel(kept, Top(batch), c, top);
      } else {
        assert top == 1.0 by { TopOfRescaled(batch, c); }
        ZerosOfRescaled(kept, c);
      }
    }
  }

  /** Multiplying the scores of any one workspace by a positive constant changes nothing
      in the merged list: neither rows, nor order, nor normalised scores. */
  lemma ScaleInvariance(batches: seq<Batch>, b: nat, c: real, topK: int)
    requires b < |batches| && c > 0.0 && ScaleFree(batches[b])
    ensures Merged(batches[b := Rescale(batches[b], c)], topK) == Merged(batches, topK)
  {
    UnionOfRescaled(batches, b, c, {});
  }

  lemma {:induction false} UnionOfRescaled(batches: seq<Batch>, b: nat, c: real, seen: set<string>)
    requires b < |batches| && c > 0.0 && ScaleFree(batches[b])
    ensures Union(batches[b := Rescale(batches[b], c)], seen) == Union(batches, seen)
  {
    var changed := batches[b := Rescale(batches[b], c)];
    if b == 0 {
      FirstWinsOfRescaled(batches[0], c, seen);
      FirstWinsSubset(batches[0], seen);
      SharesOfRescaled(batches[0], c, FirstWins(batches[0], seen));
      KeysOfRescaled(batches[0], c);
      assert changed[1..] == batches[1..];
    } else {
      assert changed[1..] == batches[1..][b - 1 := Rescale(batches[b], c)];
      UnionOfRescaled(batches[1..], b - 1, c, seen + KeySet(batches[0]));
    }
  }

  /** The guard is exact: a batch is normalised alike at every positive scale if and only
      if it is scale free. */
  lemma ScaleFreeIsExact(batch: Batch)
    ensures ScaleFree(batch) <==>
            forall c :: c > 0.0 ==> Shares(Rescale(batch, c), Top(Rescale(batch, c))) == Shares(batch, Top(batch))
  {
    forall c | c > 0.0 && ScaleFree(batch)
      ensures Shares(Rescale(batch, c), Top(Rescale(batch, c))) == Shares(batch, Top(batch))
    {
      SharesOfRescaled(batch, c, batch);
    }
    if !ScaleFree(batch) {
      DoublingShows(batch);
    }
  }

  lemma DoublingShows(batch: Batch)
    requires !ScaleFree(batch)
    ensures Shares(Rescale(batch, 2.0), Top(Rescale(batch, 2.0))) != Shares(batch, Top(batch))
  {
    var e :| e in batch && e.score != 0.0;
    var i :| 0 <= i < |batch| && batch[i] == e;
    MaxOfRescaled(batch, 2.0);
    assert Share(Times(e, 2.0), 1.0).score != Share(e, 1.0).score;
    assert Shares(Rescale(batch, 2.0), 1.0)[i] == Share(Times(e, 2.0), 1.0);
    assert Shares(batch, 1.0)[i] == Share(e, 1.0);
  }
}
