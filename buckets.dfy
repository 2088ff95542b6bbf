/** Summing the per-second increments into buckets of a fixed width
    (`resample(freq).sum()`): buckets are left-closed, labelled by their start,
    aligned to `origin`, and run from the bucket holding the first grid point
    to the bucket holding the last one. */
module Buckets {
  import opened Grid

  /** Position of the bucket holding time `t`, counted from `origin`. */
  function BucketIndex(t: int, width: int, origin: int): int
    requires width > 0
  {
    (t - origin) / width
  }

  /** Start time of bucket number `k`. */
  function BucketStart(k: int, width: int, origin: int): int
  {
    origin + k * width
  }

  /** Time `t` lies in bucket `k`. */
  ghost predicate InBucket(t: int, k: int, width: int, origin: int)
  {
    BucketStart(k, width, origin) <= t < BucketStart(k, width, origin) + width
  }

  lemma BucketIndexSpec(t: int, width: int, origin: int)
    requires width > 0
    ensures InBucket(t, BucketIndex(t, width, origin), width, origin)
  {
    var a := t - origin;
    assert a == (a / width) * width + a % width;
  }

  lemma {:induction false} MulAtLeast(x: int, w: int)
    requires w > 0
    ensures x >= 1 ==> x * w >= w
  {
    if x > 1 {
      MulAtLeast(x - 1, w);
      assert x * w == (x - 1) * w + w;
    }
  }

  lemma BucketIndexMonotone(s: int, t: int, width: int, origin: int)
    requires width > 0 && s <= t
    ensures BucketIndex(s, width, origin) <= BucketIndex(t, width, origin)
  {
    var a, b := s - origin, t - origin;
    var qa, qb := a / width, b / width;
    assert a == qa * width + a % width;
    assert b == qb * width + b % width;
    assert (qa - qb) * width == qa * width - qb * width;
    MulAtLeast(qa - qb, width);
  }

  lemma BucketStartStep(k: int, width: int, origin: int)
    ensures BucketStart(k + 1, width, origin) == BucketStart(k, width, origin) + width
  {
    assert (k + 1) * width == k * width + width;
  }

  /** Number of grid points of the `n`-point grid from `g0` lying before `x`. */
  function GridBelow(g0: int, n: nat, x: int): nat
  {
    var c := (x - g0 + Second - 1) / Second;
    if c < 0 then 0 else if c > n then n else c
  }

  /** Grid point `i` lies before `x` exactly when `i` is below GridBelow. */
  lemma GridBelowSpec(g0: int, n: nat, x: int, i: int)
    requires 0 <= i < n
    ensures i < GridBelow(g0, n, x) <==> g0 + Second * i < x
  {
  }

  lemma GridBelowMonotone(g0: int, n: nat, x: int, y: int)
    requires x <= y
    ensures GridBelow(g0, n, x) <= GridBelow(g0, n, y)
  {
  }

  /** Number of buckets spanned by the `n`-point grid from `g0`. */
  function BucketCount(g0: int, n: nat, width: int, origin: int): nat
    requires n > 0 && width > 0
  {
    BucketIndexMonotone(g0, g0 + Second * (n - 1), width, origin);
    BucketIndex(g0 + Second * (n - 1), width, origin) - BucketIndex(g0, width, origin) + 1
  }

  /** Start time of the `j`-th bucket of the output. */
  function NthStart(g0: int, width: int, origin: int, j: int): int
    requires width > 0
  {
    BucketStart(BucketIndex(g0, width, origin) + j, width, origin)
  }

  /** The bucket labels shared by every plotted player. */
  function Starts(g0: int, n: nat, width: int, origin: int): (r: seq<int>)
    requires n > 0 && width > 0
    ensures |r| == BucketCount(g0, n, width, origin)
  {
    seq(BucketCount(g0, n, width, origin), j requires 0 <= j => NthStart(g0, width, origin, j))
  }

  /** The sum of the increments of the `incs`-indexed grid in each bucket. */
  function BucketSums(incs: seq<int>, g0: int, width: int, origin: int): (r: seq<int>)
    requires |incs| > 0 && width > 0
    ensures |r| == BucketCount(g0, |incs|, width, origin)
  {
    var n := |incs|;
    seq(BucketCount(g0, n, width, origin), j requires 0 <= j =>
      var s := NthStart(g0, width, origin, j);
      GridBelowMonotone(g0, n, s, s + width);
      Sum(incs[GridBelow(g0, n, s)..GridBelow(g0, n, s + width)]))
  }

  /** The buckets are contiguous, non-overlapping and `width` long: the first
      holds the first grid point, the last holds the last grid point, and each
      starts where its predecessor ends. */
  lemma StartsContiguous(g0: int, n: nat, width: int, origin: int)
    requires n > 0 && width > 0
    ensures Starts(g0, n, width, origin)[0] <= g0 < Starts(g0, n, width, origin)[0] + width
    ensures var r := Starts(g0, n, width, origin);
      r[|r| - 1] <= g0 + Second * (n - 1) < r[|r| - 1] + width
    ensures var r := Starts(g0, n, width, origin);
      forall j :: 0 <= j < |r| - 1 ==> r[j + 1] == r[j] + width
  {
    var k0 := BucketIndex(g0, width, origin);
    BucketIndexSpec(g0, width, origin);
    BucketIndexSpec(g0 + Second * (n - 1), width, origin);
    var r := Starts(g0, n, width, origin);
    forall j | 0 <= j < |r| - 1 ensures r[j + 1] == r[j] + width {
      BucketStartStep(k0 + j, width, origin);
    }
  }

  /** Each bucket's value is the sum of exactly the increments whose grid points
      fall inside it. */
  lemma BucketHoldsItsPoints(incs: seq<int>, g0: int, width: int, origin: int, j: int)
    requires |incs| > 0 && width > 0
    requires 0 <= j < BucketCount(g0, |incs|, width, origin)
    ensures exists lo, hi :: (0 <= lo <= hi <= |incs| &&
      BucketSums(incs, g0, width, origin)[j] == Sum(incs[lo..hi]) &&
      forall i :: 0 <= i < |incs| ==>
        (lo <= i < hi <==> InBucket(g0 + Second * i, BucketIndex(g0, width, origin) + j, width, origin)))
  {
    var n := |incs|;
    var s := NthStart(g0, width, origin, j);
    var lo, hi := GridBelow(g0, n, s), GridBelow(g0, n, s + width);
    GridBelowMonotone(g0, n, s, s + width);
    forall i | 0 <= i < n
      ensures lo <= i < hi <==> InBucket(g0 + Second * i, BucketIndex(g0, width, origin) + j, width, origin)
    {
      GridBelowSpec(g0, n, s, i);
      GridBelowSpec(g0, n, s + width, i);
    }
    assert BucketSums(incs, g0, width, origin)[j] == Sum(incs[lo..hi]);
  }

  lemma GridBelowNone(g0: int, n: nat, x: int)
    requires x <= g0
    ensures GridBelow(g0, n, x) == 0
  {
  }

  lemma GridBelowAll(g0: int, n: nat, x: int)
    requires n > 0 && g0 + Second * (n - 1) < x
    ensures GridBelow(g0, n, x) == n
  {
  }

  /** The value of the `j`-th bucket, with its grid range named. */
  lemma BucketSumsAt(incs: seq<int>, g0: int, width: int, origin: int, j: int)
    requires |incs| > 0 && width > 0
    requires 0 <= j < BucketCount(g0, |incs|, width, origin)
    ensures GridBelow(g0, |incs|, NthStart(g0, width, origin, j)) <=
      GridBelow(g0, |incs|, NthStart(g0, width, origin, j + 1))
    ensures BucketSums(incs, g0, width, origin)[j] ==
      Sum(incs[GridBelow(g0, |incs|, NthStart(g0, width, origin, j))..
               GridBelow(g0, |incs|, NthStart(g0, width, origin, j + 1))])
  {
    var s := NthStart(g0, width, origin, j);
    BucketStartStep(BucketIndex(g0, width, origin) + j, width, origin);
    assert NthStart(g0, width, origin, j + 1) == s + width;
    GridBelowMonotone(g0, |incs|, s, s + width);
  }

  /** The first `k` buckets hold exactly the increments before the `k`-th bucket starts. */
  lemma {:induction false} BucketPrefixSum(incs: seq<int>, g0: int, width: int, origin: int, k: nat)
    requires |incs| > 0 && width > 0
    requires k <= BucketCount(g0, |incs|, width, origin)
    ensures Sum(BucketSums(incs, g0, width, origin)[..k]) ==
      Sum(incs[..GridBelow(g0, |incs|, NthStart(g0, width, origin, k))])
  {
    var n := |incs|;
    var b := BucketSums(incs, g0, width, origin);
    if k == 0 {
      BucketIndexSpec(g0, width, origin);
      GridBelowNone(g0, n, NthStart(g0, width, origin, 0));
      assert b[..0] == [] && incs[..0] == [];
    } else {
      BucketPrefixSum(incs, g0, width, origin, k - 1);
      BucketSumsAt(incs, g0, width, origin, k - 1);
      var lo := GridBelow(g0, n, NthStart(g0, width, origin, k - 1));
      var hi := GridBelow(g0, n, NthStart(g0, width, origin, k));
      SumPrefixStep(b, k);
      SumSplit(incs, lo, hi);
    }
  }

  /** The bucket after the last one starts after the last grid point. */
  lemma EndAfterGrid(g0: int, n: nat, width: int, origin: int)
    requires n > 0 && width > 0
    ensures g0 + Second * (n - 1) < NthStart(g0, width, origin, BucketCount(g0, n, width, origin))
  {
    var last := g0 + Second * (n - 1);
    var kN := BucketIndex(last, width, origin);
    BucketIndexSpec(last, width, origin);
    BucketStartStep(kN, width, origin);
    assert BucketIndex(g0, width, origin) + BucketCount(g0, n, width, origin) == kN + 1;
  }

  /** Bucketing loses and duplicates nothing: the buckets sum to the sum of
      all the per-second increments. */
  lemma BucketsPreserveSum(incs: seq<int>, g0: int, width: int, origin: int)
    requires |incs| > 0 && width > 0
    ensures Sum(BucketSums(incs, g0, width, origin)) == Sum(incs)
  {
    var n := |incs|;
    var m := BucketCount(g0, n, width, origin);
    var b := BucketSums(incs, g0, width, origin);
    BucketPrefixSum(incs, g0, width, origin, m);
    EndAfterGrid(g0, n, width, origin);
    GridBelowAll(g0, n, NthStart(g0, width, origin, m));
    assert b[..m] == b;
    assert incs[..n] == incs;
  }

  /** All-zero increments give all-zero buckets. */
  lemma BucketsOfZeros(incs: seq<int>, g0: int, width: int, origin: int)
    requires |incs| > 0 && width > 0
    requires forall i :: 0 <= i < |incs| ==> incs[i] == 0
    ensures forall j :: 0 <= j < BucketCount(g0, |incs|, width, origin) ==>
      BucketSums(incs, g0, width, origin)[j] == 0
  {
    var n := |incs|;
    forall j | 0 <= j < BucketCount(g0, n, width, origin)
      ensures BucketSums(incs, g0, width, origin)[j] == 0
    {
      var s := NthStart(g0, width, origin, j);
      GridBelowMonotone(g0, n, s, s + width);
      var lo, hi := GridBelow(g0, n, s), GridBelow(g0, n, s + width);
      assert forall i :: 0 <= i < hi - lo ==> incs[lo..hi][i] == incs[lo + i];
      SumZeros(incs[lo..hi]);
    }
  }
}
