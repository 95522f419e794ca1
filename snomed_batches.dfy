/**
 * How prewalkSnomedGraph groups its inserts into transactions: consecutive
 * runs of at most 20000 rows, a new one starting at every index divisible by
 * 20000. A batch reaches the table only if its commit succeeded.
 */
module Batching {
  const BatchSize: nat := 20000

  /** The batches of xs in order: full ones, then a final one holding the rest. */
  function Batches<T>(xs: seq<T>): seq<seq<T>>
    decreases |xs|
  {
    if xs == [] then []
    else if |xs| <= BatchSize then [xs]
    else [xs[..BatchSize]] + Batches(xs[BatchSize..])
  }

  function Flatten<T>(bs: seq<seq<T>>): seq<T>
    decreases |bs|
  {
    if bs == [] then [] else bs[0] + Flatten(bs[1..])
  }

  /** Batching loses, duplicates and reorders nothing. */
  lemma {:induction false} FlattenBatches<T>(xs: seq<T>)
    ensures Flatten(Batches(xs)) == xs
    decreases |xs|
  {
    if xs != [] {
      if |xs| <= BatchSize {
        assert Flatten([xs]) == xs + Flatten<T>([]);
      } else {
        FlattenBatches(xs[BatchSize..]);
        var bs := Batches(xs);
        assert bs[1..] == Batches(xs[BatchSize..]);
        assert xs == xs[..BatchSize] + xs[BatchSize..];
      }
    }
  }

  /** n rows make ceil(n / 20000) batches; each holds 1 to 20000 rows and all but the last are full. */
  lemma {:induction false} BatchesShape<T>(xs: seq<T>)
    ensures |Batches(xs)| == (|xs| + BatchSize - 1) / BatchSize
    ensures forall k :: 0 <= k < |Batches(xs)| ==> 1 <= |Batches(xs)[k]| <= BatchSize
    ensures forall k :: 0 <= k < |Batches(xs)| - 1 ==> |Batches(xs)[k]| == BatchSize
    decreases |xs|
  {
    if |xs| > BatchSize {
      var rest := xs[BatchSize..];
      BatchesShape(rest);
      var bs := Batches(xs);
      assert bs == [xs[..BatchSize]] + Batches(rest);
      assert forall k :: 1 <= k < |bs| ==> bs[k] == Batches(rest)[k - 1];
    }
  }

  /** Batch k starts at row 20000 k. */
  lemma {:induction false} BatchAt<T>(xs: seq<T>, k: nat)
    requires k < |Batches(xs)|
    ensures BatchSize * k < |xs|
    ensures Batches(xs)[k] == xs[BatchSize * k .. if |xs| < BatchSize * (k + 1) then |xs| else BatchSize * (k + 1)]
    decreases |xs|
  {
    if k > 0 {
      assert |xs| > BatchSize;
      var rest := xs[BatchSize..];
      assert Batches(xs) == [xs[..BatchSize]] + Batches(rest);
      BatchAt(rest, k - 1);
      var lo := BatchSize * (k - 1);
      var hi := if |rest| < BatchSize * k then |rest| else BatchSize * k;
      assert BatchSize + lo == BatchSize * k;
      assert BatchSize + hi == if |xs| < BatchSize * (k + 1) then |xs| else BatchSize * (k + 1);
      assert Batches(xs)[k] == rest[lo..hi] == xs[BatchSize + lo .. BatchSize + hi];
    }
  }

  /** A run of full batches followed by one more run of at most 20000 rows. */
  lemma {:induction false} BatchesSnoc<T>(xs: seq<T>, b: seq<T>)
    requires |xs| % BatchSize == 0
    requires 1 <= |b| <= BatchSize
    ensures Batches(xs + b) == Batches(xs) + [b]
    decreases |xs|
  {
    if xs == [] {
      assert xs + b == b;
    } else {
      var ys := xs + b;
      assert ys[..BatchSize] == xs[..BatchSize];
      assert ys[BatchSize..] == xs[BatchSize..] + b;
      BatchesSnoc(xs[BatchSize..], b);
    }
  }

  /** Inside a batch that began at a multiple of 20000, the next multiple is where the next one begins. */
  lemma BatchBoundary(upTo: nat, index: nat)
    requires upTo % BatchSize == 0 && upTo < index <= upTo + BatchSize
    ensures index % BatchSize == 0 <==> index == upTo + BatchSize
  {
    var q := upTo / 20000;
    assert upTo == 20000 * q;
    if index < upTo + BatchSize {
      assert index == 20000 * q + (index - upTo);
      assert index % 20000 == index - upTo;
    }
  }

  /** The batches whose commit succeeded, in order. */
  function Kept<T>(bs: seq<seq<T>>, oks: seq<bool>): (r: seq<seq<T>>)
    requires |oks| == |bs|
    ensures |r| <= |bs|
    decreases |bs|
  {
    if bs == [] then []
    else Kept(bs[..|bs| - 1], oks[..|oks| - 1]) + (if oks[|oks| - 1] then [bs[|bs| - 1]] else [])
  }

  lemma KeptSnoc<T>(bs: seq<seq<T>>, oks: seq<bool>, b: seq<T>, ok: bool)
    requires |oks| == |bs|
    ensures Kept(bs + [b], oks + [ok]) == Kept(bs, oks) + (if ok then [b] else [])
  {
    assert (bs + [b])[..|bs|] == bs;
    assert (oks + [ok])[..|oks|] == oks;
  }

  /**
   * Committing the open batch, which began at a multiple of 20000 and holds
   * the rows from there on: one more batch, kept exactly when its commit
   * succeeds.
   */
  lemma CommitNext<T>(xs: seq<T>, upTo: nat, oks: seq<bool>, ok: bool)
    requires upTo % BatchSize == 0 && upTo < |xs| <= upTo + BatchSize
    requires |oks| == |Batches(xs[..upTo])|
    ensures Batches(xs) == Batches(xs[..upTo]) + [xs[upTo..]]
    ensures |oks + [ok]| == |Batches(xs)|
    ensures Kept(Batches(xs), oks + [ok]) == Kept(Batches(xs[..upTo]), oks) + (if ok then [xs[upTo..]] else [])
  {
    BatchesSnoc(xs[..upTo], xs[upTo..]);
    assert xs[..upTo] + xs[upTo..] == xs;
    KeptSnoc(Batches(xs[..upTo]), oks, xs[upTo..], ok);
  }

  /** When every commit succeeds, every batch is kept. */
  lemma {:induction false} KeptAll<T>(bs: seq<seq<T>>, oks: seq<bool>)
    requires |oks| == |bs|
    requires forall k :: 0 <= k < |oks| ==> oks[k]
    ensures Kept(bs, oks) == bs
    decreases |bs|
  {
    if bs != [] {
      KeptAll(bs[..|bs| - 1], oks[..|oks| - 1]);
    }
  }

  /** A failed commit drops exactly its own batch: the kept batches are the successful ones. */
  lemma KeptMembers<T>(bs: seq<seq<T>>, oks: seq<bool>, b: seq<T>)
    requires |oks| == |bs|
    ensures b in Kept(bs, oks) <==> exists k :: 0 <= k < |bs| && oks[k] && bs[k] == b
  {
    if b in Kept(bs, oks) {
      KeptFrom(bs, oks, b);
    }
    if exists k :: 0 <= k < |bs| && oks[k] && bs[k] == b {
      var k :| 0 <= k < |bs| && oks[k] && bs[k] == b;
      KeptHas(bs, oks, k);
    }
  }

  /** Every kept batch is a batch whose commit succeeded. */
  lemma {:induction false} KeptFrom<T>(bs: seq<seq<T>>, oks: seq<bool>, b: seq<T>)
    requires |oks| == |bs| && b in Kept(bs, oks)
    ensures exists k :: 0 <= k < |bs| && oks[k] && bs[k] == b
    decreases |bs|
  {
    var n := |bs| - 1;
    if b in Kept(bs[..n], oks[..n]) {
      KeptFrom(bs[..n], oks[..n], b);
      var k :| 0 <= k < n && oks[..n][k] && bs[..n][k] == b;
      assert oks[k] && bs[k] == b;
    } else {
      assert oks[n] && bs[n] == b;
    }
  }

  /** A batch whose commit succeeded is kept. */
  lemma {:induction false} KeptHas<T>(bs: seq<seq<T>>, oks: seq<bool>, k: nat)
    requires |oks| == |bs| && k < |bs| && oks[k]
    ensures bs[k] in Kept(bs, oks)
    decreases |bs|
  {
    var n := |bs| - 1;
    if k < n {
      KeptHas(bs[..n], oks[..n], k);
      assert bs[..n][k] == bs[k];
    }
  }
}
