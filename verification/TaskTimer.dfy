/**
 * The per-task timer (TaskTimer.h): duration statistics and a histogram over a rolling
 * window, and percentiles read off the histogram. Counters are 32 bits, times 64.
 */
module TaskTimers {
  import opened Modular

  const BUCKETS: nat := 8
  const WIDTH: nat := 512
  const COUNT: nat := 0x1_0000_0000
  const WORD: nat := 0x1_0000_0000_0000_0000

  function Bucket(d: nat): (b: nat)
    ensures b < BUCKETS
  {
    if d / WIDTH < BUCKETS then d / WIDTH else BUCKETS - 1
  }

  // ----- statistics of a window of samples -----

  /** The samples in bucket `b`. */
  function InBucket(w: seq<nat>, b: nat): nat {
    if w == [] then 0 else InBucket(w[..|w| - 1], b) + if Bucket(w[|w| - 1]) == b then 1 else 0
  }

  function Sum(w: seq<nat>): nat {
    if w == [] then 0 else Sum(w[..|w| - 1]) + w[|w| - 1]
  }

  /** The least sample; the largest time if there is none. */
  function Min(w: seq<nat>): nat {
    if w == [] then WORD - 1
    else if w[|w| - 1] < Min(w[..|w| - 1]) then w[|w| - 1] else Min(w[..|w| - 1])
  }

  function Max(w: seq<nat>): nat {
    if w == [] then 0
    else if w[|w| - 1] > Max(w[..|w| - 1]) then w[|w| - 1] else Max(w[..|w| - 1])
  }

  lemma Snoc(w: seq<nat>, d: nat, b: nat)
    ensures InBucket(w + [d], b) == InBucket(w, b) + if Bucket(d) == b then 1 else 0
    ensures Sum(w + [d]) == Sum(w) + d
    ensures Min(w + [d]) == if d < Min(w) then d else Min(w)
    ensures Max(w + [d]) == if d > Max(w) then d else Max(w)
  {
    assert (w + [d])[..|w|] == w;
  }

  lemma {:induction false} Between(w: seq<nat>)
    ensures forall i :: 0 <= i < |w| ==> Min(w) <= w[i] <= Max(w)
  {
    if w != [] {
      var n := |w| - 1;
      Between(w[..n]);
      assert forall i :: 0 <= i < n ==> w[..n][i] == w[i];
    }
  }

  lemma {:induction false} SumWithin(w: seq<nat>, low: nat, high: nat)
    requires forall i :: 0 <= i < |w| ==> low <= w[i] <= high
    ensures |w| * low <= Sum(w) <= |w| * high
  {
    if w != [] {
      var n := |w| - 1;
      SumWithin(w[..n], low, high);
      assert |w| * low == n * low + low && |w| * high == n * high + high;
    }
  }

  /** The average lies between the extremes, and every sample is in exactly one bucket. */
  lemma WindowTotals(w: seq<nat>)
    ensures |w| * Min(w) <= Sum(w) <= |w| * Max(w)
    ensures AtMost(w, BUCKETS) == |w|
  {
    Between(w);
    SumWithin(w, Min(w), Max(w));
    AllBuckets(w);
  }

  /** The samples in the first `b` buckets. */
  function AtMost(w: seq<nat>, b: nat): nat {
    if b == 0 then 0 else AtMost(w, b - 1) + InBucket(w, b - 1)
  }

  lemma {:induction false} AtMostSnoc(w: seq<nat>, d: nat, b: nat)
    ensures AtMost(w + [d], b) == AtMost(w, b) + if Bucket(d) < b then 1 else 0
  {
    hide InBucket, Bucket;
    if b > 0 {
      AtMostSnoc(w, d, b - 1);
      Snoc(w, d, b - 1);
    }
  }

  lemma {:induction false} AtMostNone(b: nat)
    ensures AtMost([], b) == 0
  {
    if b > 0 {
      AtMostNone(b - 1);
    }
  }

  lemma {:induction false} AllBuckets(w: seq<nat>)
    ensures AtMost(w, BUCKETS) == |w|
  {
    hide AtMost;
    if w == [] {
      AtMostNone(BUCKETS);
    } else {
      var n := |w| - 1;
      AllBuckets(w[..n]);
      AtMostSnoc(w[..n], w[n], BUCKETS);
      assert w == w[..n] + [w[n]];
    }
  }

  /** How many samples are at most `v`. */
  function NotAbove(w: seq<nat>, v: int): nat {
    if w == [] then 0 else NotAbove(w[..|w| - 1], v) + if w[|w| - 1] <= v then 1 else 0
  }

  /** `v` is the sample of nearest rank `r`: fewer than `r` are smaller, at least `r` are not larger. */
  ghost predicate HasRank(w: seq<nat>, v: nat, r: nat) {
    v in w && NotAbove(w, v - 1) < r <= NotAbove(w, v)
  }

  lemma {:induction false} NotAboveSplits(w: seq<nat>, v: nat, b: nat)
    requires b < BUCKETS
    ensures NotAbove(w, v - 1) <= NotAbove(w, v) <= |w|
    ensures NotAbove(w, v) > NotAbove(w, v - 1) ==> v in w
    ensures Bucket(v) <= b ==> NotAbove(w, v) <= AtMost(w, b + 1)
    ensures Bucket(v) >= b ==> NotAbove(w, v - 1) >= AtMost(w, b)
  {
    hide AtMost;
    if w == [] {
      AtMostNone(b);
      AtMostNone(b + 1);
    } else {
      var n := |w| - 1;
      var d := w[n];
      NotAboveSplits(w[..n], v, b);
      AtMostSnoc(w[..n], d, b);
      AtMostSnoc(w[..n], d, b + 1);
      assert w == w[..n] + [d];
      BucketMonotone(v, d);
    }
  }

  lemma BucketMonotone(v: nat, d: nat)
    ensures d <= v ==> Bucket(d) <= Bucket(v)
    ensures v <= d ==> Bucket(v) <= Bucket(d)
    ensures Bucket(v) < BUCKETS - 1 ==> Bucket(v) * WIDTH <= v < (Bucket(v) + 1) * WIDTH
    ensures Bucket(v) == BUCKETS - 1 ==> v >= (BUCKETS - 1) * WIDTH
  {
  }

  lemma {:induction false} NotAboveAll(w: seq<nat>, v: nat)
    requires forall i :: 0 <= i < |w| ==> w[i] <= v
    ensures NotAbove(w, v) == |w|
  {
    if w != [] {
      NotAboveAll(w[..|w| - 1], v);
    }
  }

  lemma {:induction false} NotAboveNegative(w: seq<nat>)
    ensures NotAbove(w, -1) == 0
  {
    if w != [] {
      NotAboveNegative(w[..|w| - 1]);
    }
  }

  /** Every rank up to the number of samples is some sample's. */
  lemma {:induction false} RankFrom(w: seq<nat>, r: nat, x: nat) returns (v: nat)
    requires 1 <= r <= NotAbove(w, x)
    ensures HasRank(w, v, r)
    decreases x
  {
    hide AtMost, NotAbove;
    NotAboveSplits(w, x, 0);
    NotAboveNegative(w);
    if NotAbove(w, x - 1) < r {
      v := x;
    } else {
      v := RankFrom(w, r, x - 1);
    }
  }

  lemma RankExists(w: seq<nat>, r: nat) returns (v: nat)
    requires 1 <= r <= |w|
    ensures HasRank(w, v, r)
  {
    Between(w);
    NotAboveAll(w, Max(w));
    v := RankFrom(w, r, Max(w));
  }

  /** A sample's rank lies within its bucket's share of the ranks, and in no other bucket's. */
  lemma RankBucket(w: seq<nat>, v: nat, r: nat, b: nat)
    requires HasRank(w, v, r) && b < BUCKETS
    ensures AtMost(w, b) < r <= AtMost(w, b + 1) <==> Bucket(v) == b
  {
    hide AtMost, NotAbove, Bucket;
    NotAboveSplits(w, v, b);
    NotAboveSplits(w, v, Bucket(v));
    if Bucket(v) > b {
      NotAboveSplits(w, v, b + 1);
    }
    if Bucket(v) < b {
      NotAboveSplits(w, v, b - 1);
    }
  }

  // ----- percentiles -----

  /** The histogram of a window, as 32-bit counters hold it. */
  function Histogram(w: seq<nat>): (h: seq<nat>)
    ensures |h| == BUCKETS
  {
    seq(BUCKETS, b requires 0 <= b < BUCKETS => InBucket(w, b) % COUNT)
  }

  function BucketHigh(b: nat, maxDur: nat): (high: nat)
    ensures high >= b * WIDTH
  {
    var high := if b < BUCKETS - 1 then (b + 1) * WIDTH else maxDur;
    if high < b * WIDTH then b * WIDTH else high
  }

  /** Linear interpolation in bucket `b`, which holds `count` samples after `before` earlier ones. */
  function Interpolate(b: nat, rank: real, before: nat, count: nat, maxDur: nat): int {
    var width := (BucketHigh(b, maxDur) - b * WIDTH) as real;
    b * WIDTH + if count > 0 then Share(rank - before as real, count as real, width).Floor else 0
  }

  function Walk(hist: seq<nat>, b: nat, cumulative: nat, rank: real, maxDur: nat): int
    requires b <= |hist|
    decreases |hist| - b
  {
    if b == |hist| then maxDur
    else
      var total := (cumulative + hist[b]) % COUNT;
      if total as real >= rank then Interpolate(b, rank, cumulative, hist[b], maxDur)
      else Walk(hist, b + 1, total, rank, maxDur)
  }

  /** The rank, in exact arithmetic. */
  function Rank(p: real, samples: nat): real {
    p * samples as real
  }

  function Percentile(hist: seq<nat>, samples: nat, maxDur: nat, p: real): int {
    if samples == 0 || p <= 0.0 then 0
    else if p >= 1.0 then maxDur
    else Walk(hist, 0, 0, Rank(p, samples), maxDur)
  }

  function PercentileOf(w: seq<nat>, p: real): int {
    Percentile(Histogram(w), |w|, Max(w), p)
  }

  lemma {:induction false} AtMostGrows(w: seq<nat>, a: nat, b: nat)
    requires a <= b
    ensures AtMost(w, a) <= AtMost(w, b)
    decreases b
  {
    if a < b {
      AtMostGrows(w, a, b - 1);
    }
  }

  lemma CountersExact(w: seq<nat>, b: nat)
    requires |w| < COUNT && b < BUCKETS
    ensures Histogram(w)[b] == InBucket(w, b)
    ensures (AtMost(w, b) + Histogram(w)[b]) % COUNT == AtMost(w, b + 1)
  {
    hide InBucket;
    AllBuckets(w);
    AtMostGrows(w, b + 1, BUCKETS);
    AtMostStep(w, b);
    hide AtMost;
  }

  lemma AtMostStep(w: seq<nat>, b: nat)
    ensures AtMost(w, b + 1) == AtMost(w, b) + InBucket(w, b)
  {
  }

  /** The walk stops in the bucket that holds rank `r`. */
  lemma {:induction false} WalkFinds(w: seq<nat>, i: nat, b: nat, rank: real, r: nat, maxDur: nat)
    requires |w| < COUNT && i <= b < BUCKETS && AtMost(w, b) < r <= AtMost(w, b + 1)
    requires (r - 1) as real < rank <= r as real
    ensures Walk(Histogram(w), i, AtMost(w, i), rank, maxDur) ==
            Interpolate(b, rank, AtMost(w, b), InBucket(w, b), maxDur)
    decreases b - i
  {
    hide AtMost, InBucket, Histogram, Interpolate;
    CountersExact(w, i);
    if i < b {
      AtMostGrows(w, i + 1, b);
      WalkFinds(w, i + 1, b, rank, r, maxDur);
    }
  }

  /** The part of a bucket's width that `x` of its `count` ranks make. */
  function Share(x: real, count: real, width: real): real
    requires count > 0.0
  {
    x / count * width
  }

  lemma ShareBounds(x: real, y: real, count: real, width: real)
    requires 0.0 <= x <= y <= count && count > 0.0 && width >= 0.0
    ensures 0.0 <= Share(x, count, width) <= Share(y, count, width) <= width
  {
    Divide(x, y, count);
    Multiply(0.0, x / count, width);
    Multiply(x / count, y / count, width);
    Multiply(y / count, 1.0, width);
  }

  lemma Divide(x: real, y: real, d: real)
    requires 0.0 <= x <= y <= d && d > 0.0
    ensures 0.0 <= x / d <= y / d <= 1.0
  {
  }

  lemma Multiply(a: real, b: real, width: real)
    requires a <= b && width >= 0.0
    ensures a * width <= b * width
  {
  }

  /** The interpolated value stays in its closed bucket and grows with the rank. */
  lemma InterpolateGrows(b: nat, low: real, high: real, before: nat, count: nat, maxDur: nat)
    requires before as real < low <= high <= (before + count) as real
    ensures b * WIDTH <= Interpolate(b, low, before, count, maxDur)
            <= Interpolate(b, high, before, count, maxDur) <= BucketHigh(b, maxDur)
  {
    hide BucketHigh, Share;
    var width := BucketHigh(b, maxDur) - b * WIDTH;
    var x, y, d := low - before as real, high - before as real, count as real;
    ShareBounds(x, y, d, width as real);
    FloorGrows(Share(x, d, width as real), Share(y, d, width as real), width);
  }

  lemma FloorGrows(x: real, y: real, n: int)
    requires 0.0 <= x <= y <= n as real
    ensures 0 <= x.Floor <= y.Floor <= n
  {
  }

  /** `r` is the rank `x` rounded up. */
  predicate Nearest(r: int, x: real) {
    (r - 1) as real < x <= r as real
  }

  lemma PercentileAt(w: seq<nat>, p: real, r: nat, b: nat)
    requires 0 < |w| < COUNT && 0.0 < p < 1.0 && b < BUCKETS && r >= 1
    ensures Nearest(r, Rank(p, |w|)) && AtMost(w, b) < r <= AtMost(w, b + 1) ==>
              && PercentileOf(w, p) == Interpolate(b, Rank(p, |w|), AtMost(w, b), InBucket(w, b), Max(w))
              && AtMost(w, b) as real < Rank(p, |w|) <= (AtMost(w, b) + InBucket(w, b)) as real
  {
    hide Interpolate, InBucket, Max, Walk, Rank;
    if Nearest(r, Rank(p, |w|)) && AtMost(w, b) < r <= AtMost(w, b + 1) {
      WalkFinds(w, 0, b, Rank(p, |w|), r, Max(w));
      AtMostStep(w, b);
    }
  }

  lemma MaxIsAbove(w: seq<nat>, v: nat)
    requires v in w
    ensures v <= Max(w)
  {
    Between(w);
  }

  /**
   * Percentile accuracy: in exact arithmetic the result lies in the closed bucket of the
   * nearest-rank sample, and so within one bucket width of it below the last bucket.
   */
  lemma PercentileAccurate(w: seq<nat>, p: real, r: nat, v: nat)
    requires 0 < |w| < COUNT && 0.0 < p < 1.0
    ensures Nearest(r, Rank(p, |w|)) && HasRank(w, v, r) ==>
              var b, x := Bucket(v), PercentileOf(w, p);
              && b * WIDTH <= x <= (if b < BUCKETS - 1 then (b + 1) * WIDTH else Max(w))
              && (b < BUCKETS - 1 ==> v - WIDTH <= x <= v + WIDTH)
  {
    if Nearest(r, Rank(p, |w|)) && HasRank(w, v, r) {
      InItsBucket(w, p, r, v);
    }
  }

  lemma InItsBucket(w: seq<nat>, p: real, r: nat, v: nat)
    requires 0 < |w| < COUNT && 0.0 < p < 1.0
    requires Nearest(r, Rank(p, |w|)) && HasRank(w, v, r)
    ensures var b, x := Bucket(v), PercentileOf(w, p);
            && b * WIDTH <= x <= (if b < BUCKETS - 1 then (b + 1) * WIDTH else Max(w))
            && (b < BUCKETS - 1 ==> v - WIDTH <= x <= v + WIDTH)
  {
    hide AtMost, InBucket, Max, NotAbove, Interpolate, PercentileOf, Bucket, Rank, Nearest;
    var b := Bucket(v);
    RankBucket(w, v, r, b);
    PercentileAt(w, p, r, b);
    var rank := Rank(p, |w|);
    InterpolateGrows(b, rank, rank, AtMost(w, b), InBucket(w, b), Max(w));
    MaxIsAbove(w, v);
    BucketMonotone(v, v);
  }

  /** The percentile never falls as `p` grows, up to but not including 1. */
  lemma PercentileMonotone(w: seq<nat>, p: real, q: real)
    requires |w| < COUNT && p <= q < 1.0
    ensures PercentileOf(w, p) <= PercentileOf(w, q)
  {
    hide AtMost, InBucket, Max, Interpolate, Walk, Histogram, Rank;
    if w != [] && q > 0.0 {
      if p > 0.0 {
        PercentileRises(w, p, q);
      } else {
        var s, b := RankOf(w, q);
        PercentileAt(w, q, s, b);
        var y := Rank(q, |w|);
        InterpolateGrows(b, y, y, AtMost(w, b), InBucket(w, b), Max(w));
      }
    }
  }

  lemma RankGrows(p: real, q: real, n: nat)
    requires p <= q
    ensures Rank(p, n) <= Rank(q, n)
  {
  }

  lemma PercentileRises(w: seq<nat>, p: real, q: real)
    requires 0 < |w| < COUNT && 0.0 < p <= q < 1.0
    ensures PercentileOf(w, p) <= PercentileOf(w, q)
  {
    hide AtMost, InBucket, Max, Interpolate, PercentileOf, BucketHigh, Rank;
    var x, y := Rank(p, |w|), Rank(q, |w|);
    RankGrows(p, q, |w|);
    var r, a := RankOf(w, p);
    var s, b := RankOf(w, q);
    PercentileAt(w, p, r, a);
    PercentileAt(w, q, s, b);
    if a == b {
      InterpolateGrows(a, x, y, AtMost(w, a), InBucket(w, a), Max(w));
    } else {
      RanksInOrder(r, x, y, s);
      BucketsInOrder(w, r, a, s, b);
      InterpolateGrows(a, x, x, AtMost(w, a), InBucket(w, a), Max(w));
      InterpolateGrows(b, y, y, AtMost(w, b), InBucket(w, b), Max(w));
      HighBelowLow(a, b, Max(w));
    }
  }

  lemma HighBelowLow(a: nat, b: nat, maxDur: nat)
    requires a < b < BUCKETS
    ensures BucketHigh(a, maxDur) <= b * WIDTH
  {
  }

  lemma BucketsInOrder(w: seq<nat>, r: nat, a: nat, s: nat, b: nat)
    requires r <= s && a != b
    requires AtMost(w, a) < r <= AtMost(w, a + 1) && AtMost(w, b) < s <= AtMost(w, b + 1)
    ensures a < b
  {
    hide AtMost;
    if b < a {
      AtMostGrows(w, b + 1, a);
    }
  }

  /** There is a sample of the nearest rank. */
  lemma NearestSample(w: seq<nat>, p: real) returns (r: nat, v: nat)
    requires 0 < |w| && 0.0 < p < 1.0
    ensures 1 <= r <= |w| && Nearest(r, Rank(p, |w|)) && HasRank(w, v, r)
  {
    hide AtMost, NotAbove, Bucket;
    var rank := Rank(p, |w|);
    Multiply(p, 1.0, |w| as real);
    Positive(p, |w| as real);
    assert 1.0 * |w| as real == |w| as real;
    r := Ceiling(rank, |w|);
    v := RankExists(w, r);
  }

  /** And it is in a bucket. */
  lemma RankOf(w: seq<nat>, p: real) returns (r: nat, b: nat)
    requires 0 < |w| < COUNT && 0.0 < p < 1.0
    ensures Nearest(r, Rank(p, |w|))
    ensures 1 <= r <= |w| && b < BUCKETS && AtMost(w, b) < r <= AtMost(w, b + 1)
  {
    hide AtMost, NotAbove, Bucket, Rank;
    var v;
    r, v := NearestSample(w, p);
    b := Bucket(v);
    RankBucket(w, v, r, b);
  }

  lemma Ceiling(x: real, n: nat) returns (r: nat)
    requires 0.0 < x <= n as real
    ensures 1 <= r <= n && Nearest(r, x)
  {
    r := if x.Floor as real == x then x.Floor else x.Floor + 1;
  }

  lemma RanksInOrder(r: nat, x: real, y: real, s: nat)
    requires (r - 1) as real < x <= y <= s as real
    ensures r <= s
  {
  }

  lemma Positive(a: real, b: real)
    requires a > 0.0 && b > 0.0
    ensures a * b > 0.0
  {
  }

  // ----- the percentile and the maximum -----

  lemma {:induction false} MaxIsSample(w: seq<nat>)
    requires w != []
    ensures Max(w) in w
  {
    var n := |w| - 1;
    assert w == w[..n] + [w[n]];
    if n > 0 {
      MaxIsSample(w[..n]);
    }
  }

  lemma {:induction false} SampleCounts(w: seq<nat>, v: nat)
    requires v in w
    ensures NotAbove(w, v - 1) < NotAbove(w, v)
  {
    var n := |w| - 1;
    assert w == w[..n] + [w[n]];
    if v in w[..n] {
      SampleCounts(w[..n], v);
    } else {
      NotAboveSplits(w[..n], v, 0);
    }
  }

  /** All samples lie up to the maximum's bucket, and one of them in it. */
  lemma TopBucket(w: seq<nat>)
    requires w != []
    ensures var b := Bucket(Max(w)); AtMost(w, b) < |w| == AtMost(w, b + 1)
  {
    hide AtMost, NotAbove, Bucket, Max;
    var m := Max(w);
    MaxIsSample(w);
    Between(w);
    NotAboveAll(w, m);
    SampleCounts(w, m);
    RankBucket(w, m, |w|, Bucket(m));
    AllBuckets(w);
    AtMostGrows(w, Bucket(m) + 1, BUCKETS);
  }

  lemma ShareBelow(x: real, count: real, width: real)
    requires 0.0 <= x < count && width > 0.0
    ensures Share(x, count, width) < width
  {
    assert x / count < 1.0;
    MultiplyStrict(x / count, 1.0, width);
  }

  lemma MultiplyStrict(a: real, b: real, width: real)
    requires a < b && width > 0.0
    ensures a * width < b * width
  {
  }

  lemma FloorBelow(x: real, n: int)
    requires x < n as real
    ensures x.Floor <= n - 1
  {
  }

  /** Below rank before + count the interpolated value stays a microsecond below the bucket's end. */
  lemma InterpolateBelow(b: nat, rank: real, before: nat, count: nat, maxDur: nat)
    requires before as real < rank < (before + count) as real && BucketHigh(b, maxDur) > b * WIDTH
    ensures Interpolate(b, rank, before, count, maxDur) <= BucketHigh(b, maxDur) - 1
  {
    hide BucketHigh, Share;
    var width := BucketHigh(b, maxDur) - b * WIDTH;
    ShareBelow(rank - before as real, count as real, width as real);
    FloorBelow(Share(rank - before as real, count as real, width as real), width);
  }

  /** The maximum reaches the last value its bucket can interpolate to. */
  predicate Capped(m: nat) {
    m >= (BUCKETS - 1) * WIDTH || m % WIDTH == WIDTH - 1
  }

  lemma CappedMeans(m: nat)
    ensures var b := Bucket(m);
            && b * WIDTH <= m
            && (Capped(m) <==> BucketHigh(b, m) - 1 <= m)
            && (b < BUCKETS - 1 ==> BucketHigh(b, m) == b * WIDTH + WIDTH)
            && (b == BUCKETS - 1 ==> BucketHigh(b, m) == m && Capped(m))
  {
  }

  lemma RankBelow(p: real, n: nat)
    requires p < 1.0 && n > 0
    ensures Rank(p, n) < n as real
  {
    MultiplyStrict(p, 1.0, n as real);
  }

  lemma CappedBounds(w: seq<nat>, p: real)
    requires 0 < |w| < COUNT && 0.0 < p < 1.0 && Capped(Max(w))
    ensures PercentileOf(w, p) <= Max(w)
  {
    hide AtMost, InBucket, Max, Interpolate, PercentileOf, BucketHigh, Rank, Capped, Bucket;
    var m, x := Max(w), Rank(p, |w|);
    var top := Bucket(m);
    var r, b := RankOf(w, p);
    PercentileAt(w, p, r, b);
    TopBucket(w);
    CappedMeans(m);
    RankBelow(p, |w|);
    if b > top {
      AtMostGrows(w, top + 1, b);
      assert false;
    } else if b < top {
      InterpolateGrows(b, x, x, AtMost(w, b), InBucket(w, b), m);
      HighBelowLow(b, top, m);
    } else if BucketHigh(b, m) > b * WIDTH {
      AtMostStep(w, b);
      InterpolateBelow(b, x, AtMost(w, b), InBucket(w, b), m);
    } else {
      InterpolateGrows(b, x, x, AtMost(w, b), InBucket(w, b), m);
    }
  }

  /** The rank `n` less a 1024th of `count`, as a percentile. */
  lemma JustBelowOne(count: nat, n: nat) returns (p: real)
    requires 0 < count <= n
    ensures 0.0 < p < 1.0 && Rank(p, n) == n as real - count as real / 1024.0
  {
    var c, d := count as real, n as real;
    var q := c / (1024.0 * d);
    p := 1.0 - q;
    assert q * (1024.0 * d) == c;
    assert q * d == c / 1024.0;
    assert q > 0.0;
    SmallFraction(q, c, d);
  }

  lemma SmallFraction(q: real, c: real, d: real)
    requires 0.0 < c <= d && q * d == c / 1024.0
    ensures q < 1.0
  {
    if q >= 1.0 {
      Multiply(1.0, q, d);
    }
  }

  lemma NearlyFull(count: nat, before: nat, rank: real, b: nat, maxDur: nat)
    requires count > 0 && b < BUCKETS - 1
    requires rank == (before + count) as real - count as real / 1024.0
    ensures Interpolate(b, rank, before, count, maxDur) == b * WIDTH + WIDTH - 1
  {
    var c := count as real;
    assert rank - before as real == c - c / 1024.0;
    assert (c - c / 1024.0) / c == 1.0 - 1.0 / 1024.0;
    assert Share(rank - before as real, c, 512.0) == 511.5;
    assert 511.5.Floor == 511;
  }

  lemma UncappedExceeds(w: seq<nat>) returns (p: real)
    requires 0 < |w| < COUNT && !Capped(Max(w))
    ensures 0.0 < p < 1.0 && PercentileOf(w, p) > Max(w)
  {
    hide AtMost, InBucket, Max, Interpolate, PercentileOf, BucketHigh, Rank, Capped, Bucket;
    var m := Max(w);
    var b := Bucket(m);
    TopBucket(w);
    CappedMeans(m);
    AtMostStep(w, b);
    var count := InBucket(w, b);
    p := JustBelowOne(count, |w|);
    var x := Rank(p, |w|);
    var r := Ceiling(x, |w|);
    RanksAbove(AtMost(w, b), count, x, r);
    PercentileAt(w, p, r, b);
    NearlyFull(count, AtMost(w, b), x, b, m);
  }

  lemma RanksAbove(before: nat, count: nat, x: real, r: nat)
    requires count > 0 && x == (before + count) as real - count as real / 1024.0 && x <= r as real
    ensures before < r
  {
  }

  /**
   * No percentile exceeds the window's maximum if and only if the maximum is in the last
   * bucket, or is the last value of its own: interpolation runs to the end of the bucket,
   * wherever its samples lie.
   */
  lemma WithinMaxExactly(w: seq<nat>)
    requires 0 < |w| < COUNT
    ensures (forall p :: 0.0 < p < 1.0 ==> PercentileOf(w, p) <= Max(w)) <==> Capped(Max(w))
  {
    hide PercentileOf, Capped, Max;
    if Capped(Max(w)) {
      forall p | 0.0 < p < 1.0
        ensures PercentileOf(w, p) <= Max(w)
      {
        CappedBounds(w, p);
      }
    } else {
      var p := UncappedExceeds(w);
    }
  }

  /** So the percentile is monotone up to and including 1 under the same condition. */
  lemma MonotoneToOneExactly(w: seq<nat>)
    requires 0 < |w| < COUNT
    ensures (forall p, q :: p <= q <= 1.0 ==> PercentileOf(w, p) <= PercentileOf(w, q)) <==> Capped(Max(w))
  {
    hide PercentileOf, Capped, Max;
    WithinMaxExactly(w);
    forall p
      ensures PercentileOf(w, 1.0) == Max(w) && (p <= 0.0 ==> PercentileOf(w, p) == 0)
    {
      PercentileEnds(w, p);
    }
    if Capped(Max(w)) {
      forall p, q | p <= q <= 1.0
        ensures PercentileOf(w, p) <= PercentileOf(w, q)
      {
        if q < 1.0 {
          PercentileMonotone(w, p, q);
        }
      }
    } else {
      var p := UncappedExceeds(w);
      assert p <= 1.0 <= 1.0;
    }
  }

  lemma PercentileEnds(w: seq<nat>, p: real)
    requires w != []
    ensures PercentileOf(w, 1.0) == Max(w) && (p <= 0.0 ==> PercentileOf(w, p) == 0)
  {
  }

  /** One sample of 0 has a median of 256. */
  lemma MedianAboveMax()
    ensures PercentileOf([0], 0.5) == 256 && Max([0]) == 0
  {
    assert InBucket([0], 0) == 1 by { assert [0][..0] == []; }
    assert AtMost([0], 1) == 1;
    PercentileAt([0], 0.5, 1, 0);
    assert Share(0.5, 1.0, 512.0) == 256.0;
  }

  // ----- the timer object -----

  function Flatten(windows: seq<seq<nat>>): seq<nat> {
    if windows == [] then [] else Flatten(windows[..|windows| - 1]) + windows[|windows| - 1]
  }

  function Last(windows: seq<seq<nat>>): seq<nat> {
    if windows == [] then [] else windows[|windows| - 1]
  }

  /** The accumulators of one window. */
  datatype Accumulators = Accumulators(min: nat, max: nat, count: nat, hist: seq<nat>)

  function Of(w: seq<nat>): Accumulators {
    Accumulators(Min(w), Max(w), |w| % COUNT, Histogram(w))
  }

  /** The average as the counters give it, in exact arithmetic. */
  function Average(w: seq<nat>): real {
    if |w| % COUNT > 0 then (Sum(w) % WORD) as real / (|w| % COUNT) as real else 0.0
  }

  /**
   * What a window reports, unless its counters wrapped: its smallest and its largest sample, and
   * between them the average, which times their number is their sum.
   */
  lemma ReportsExactly(w: seq<nat>)
    requires 0 < |w| < COUNT && Sum(w) < WORD && forall i :: 0 <= i < |w| ==> w[i] < WORD
    ensures Min(w) in w && Max(w) in w && forall i :: 0 <= i < |w| ==> Min(w) <= w[i] <= Max(w)
    ensures Average(w) * |w| as real == Sum(w) as real
    ensures Min(w) as real <= Average(w) <= Max(w) as real
  {
    hide Sum, Min, Max, Average;
    MinIsSample(w);
    MaxIsSample(w);
    Between(w);
    AverageBetween(w);
    AverageTimes(w);
  }

  lemma AverageBetween(w: seq<nat>)
    requires 0 < |w| < COUNT && Sum(w) < WORD
    ensures Min(w) as real <= Average(w) <= Max(w) as real
  {
    hide Sum, Min, Max, Average;
    WindowTotals(w);
    UnwrappedAverage(w);
    QuotientBetween(Sum(w), |w|, Min(w), Max(w));
  }

  lemma AverageTimes(w: seq<nat>)
    requires 0 < |w| < COUNT && Sum(w) < WORD
    ensures Average(w) * |w| as real == Sum(w) as real
  {
    hide Sum, Average;
    UnwrappedAverage(w);
    QuotientTimes(Sum(w) as real, |w| as real);
  }

  lemma {:induction false} MinIsSample(w: seq<nat>)
    requires w != [] && forall i :: 0 <= i < |w| ==> w[i] < WORD
    ensures Min(w) in w
  {
    var n := |w| - 1;
    assert w == w[..n] + [w[n]];
    if n > 0 {
      MinIsSample(w[..n]);
    }
  }

  lemma QuotientTimes(s: real, n: real)
    requires n > 0.0
    ensures s / n * n == s
  {
  }

  /** The eight buckets: 512 microseconds each, the last one open. */
  lemma BucketsExactly(d: nat, b: nat)
    ensures Bucket(d) == b <==> b < 8 && b * 512 <= d && (b < 7 ==> d < (b + 1) * 512)
  {
  }

  /** The ends: nothing at or below 0, or without samples; the maximum from 1 on. */
  lemma PercentileLimits(w: seq<nat>, p: real)
    ensures p <= 0.0 || w == [] ==> PercentileOf(w, p) == 0
    ensures p >= 1.0 && w != [] ==> PercentileOf(w, p) == Max(w)
  {
    hide Histogram, Walk;
  }

  lemma UnwrappedAverage(w: seq<nat>)
    requires 0 < |w| < COUNT && Sum(w) < WORD
    ensures Average(w) == Sum(w) as real / |w| as real
  {
    hide Sum;
    Remainder(Sum(w), 0, Sum(w), WORD);
    Remainder(|w|, 0, |w|, COUNT);
  }

  lemma QuotientBetween(s: nat, n: nat, low: nat, high: nat)
    requires n > 0 && n * low <= s <= n * high
    ensures low as real <= s as real / n as real <= high as real
  {
    RealTimes(n, low);
    RealTimes(n, high);
    Quotients(s as real, n as real, low as real, high as real);
  }

  lemma RealTimes(a: nat, b: nat)
    ensures (a * b) as real == a as real * b as real
  {
  }

  lemma Quotients(s: real, n: real, low: real, high: real)
    requires n > 0.0 && n * low <= s <= n * high
    ensures low <= s / n <= high
  {
  }

  function Extend(a: Accumulators, d: nat): Accumulators
    requires |a.hist| == BUCKETS
  {
    Accumulators(if d < a.min then d else a.min, if d > a.max then d else a.max, (a.count + 1) % COUNT,
                 a.hist[Bucket(d) := (a.hist[Bucket(d)] + 1) % COUNT])
  }

  class TaskTimer {
    var windowUs: nat
    var start: nat
    var windowStart: nat
    var lastDuration: nat
    var minDuration: nat
    var maxDuration: nat
    var sumDuration: nat
    var sampleCount: nat
    const histogram: array<nat>
    var reportedMin: nat
    var reportedMax: nat
    var reportedCount: nat
    var reportedAvg: real
    var overruns: nat
    var misses: nat
    var reportedOverruns: nat
    var reportedMisses: nat
    const reportedHistogram: array<nat>

    ghost var all: seq<nat>              // every sample since the last reset
    ghost var windows: seq<seq<nat>>     // the completed windows
    ghost var current: seq<nat>          // the one in progress

    ghost predicate Valid()
      reads this, histogram, reportedHistogram
    {
      && histogram.Length == reportedHistogram.Length == BUCKETS && histogram != reportedHistogram
      && CurrentOk() && ReportedOk() && all == Flatten(windows) + current
    }

    /** The accumulators are those of the window in progress. */
    ghost predicate CurrentOk()
      reads this`minDuration, this`maxDuration, this`sampleCount, this`sumDuration, this`current, histogram
    {
      && Accumulators(minDuration, maxDuration, sampleCount, histogram[..]) == Of(current)
      && sumDuration == Sum(current) % WORD
    }

    /** The reported ones are those of the last completed window. */
    ghost predicate ReportedOk()
      reads this`reportedMin, this`reportedMax, this`reportedCount, this`reportedAvg, this`windows, reportedHistogram
    {
      && Accumulators(reportedMin, reportedMax, reportedCount, reportedHistogram[..]) == Of(Last(windows))
      && reportedAvg == Average(Last(windows))
    }

    /** The window that the queries report on. */
    ghost function Shown(): seq<nat>
      reads this
    {
      if |Last(windows)| % COUNT > 0 then Last(windows) else current
    }

    constructor (windowUs: nat)
      ensures Valid() && fresh(histogram) && fresh(reportedHistogram) && this.windowUs == windowUs
      ensures all == [] && windows == [] && current == [] && windowStart == 0
      ensures overruns == misses == reportedOverruns == reportedMisses == 0
    {
      this.windowUs := windowUs;
      overruns, misses, reportedOverruns, reportedMisses, reportedAvg := 0, 0, 0, 0, 0.0;
      start, windowStart, lastDuration, sumDuration, sampleCount, reportedCount := 0, 0, 0, 0, 0, 0;
      minDuration, maxDuration, reportedMin, reportedMax := WORD - 1, 0, WORD - 1, 0;
      histogram := new nat[BUCKETS](_ => 0);
      reportedHistogram := new nat[BUCKETS](_ => 0);
      all, windows, current := [], [], [];
      new;
      EmptyHistogram();
    }

    method Start(now: nat)
      requires Valid()
      modifies this`start
      ensures Valid() && start == now
    {
      start := now;
    }

    /** One sample more; the window is closed once it has lasted long enough. */
    method Stop(now: nat)
      requires Valid() && now < WORD
      modifies this, histogram, reportedHistogram
      ensures Valid() && windowUs == old(windowUs) && start == old(start)
      ensures var elapsed := if now >= old(start) then now - old(start) else 0;
              var full := windowUs > 0 && now >= old(windowStart) && now - old(windowStart) >= windowUs;
              && lastDuration == elapsed && all == old(all) + [elapsed]
              && windows == (if full then old(windows) + [old(current) + [elapsed]] else old(windows))
              && current == (if full then [] else old(current) + [elapsed])
              && windowStart == (if full then now else old(windowStart))
              && (overruns, misses) == (if full then (0, 0) else (old(overruns), old(misses)))
              && (reportedOverruns, reportedMisses) ==
                 if full then (old(overruns), old(misses)) else (old(reportedOverruns), old(reportedMisses))
    {
      hide InBucket, Sum, Min, Max, Flatten, Last;
      var elapsed := if now >= start then now - start else 0;
      AddSample(elapsed);
      if windowUs > 0 && now >= windowStart && now - windowStart >= windowUs {
        RotateWindow(now);
      }
    }

    method AddSample(elapsed: nat)
      requires Valid()
      modifies this`lastDuration, this`maxDuration, this`minDuration, this`sumDuration, this`sampleCount,
               this`all, this`current, histogram
      ensures Valid() && lastDuration == elapsed
      ensures all == old(all) + [elapsed] && current == old(current) + [elapsed]
    {
      hide InBucket, Sum, Min, Max, Flatten, Last, Histogram, Of, Bucket, ReportedOk, CurrentOk, Extend;
      lastDuration := elapsed;
      Accumulate(elapsed);
      all := all + [elapsed];
    }

    method Accumulate(elapsed: nat)
      requires histogram.Length == BUCKETS && CurrentOk()
      modifies this`maxDuration, this`minDuration, this`sumDuration, this`sampleCount, this`current, histogram
      ensures CurrentOk() && current == old(current) + [elapsed]
    {
      hide InBucket, Sum, Min, Max, Histogram, Of, Bucket;
      OfSnoc(current, elapsed);
      Wraps(Sum(current), elapsed, WORD);
      if elapsed > maxDuration {
        maxDuration := elapsed;
      }
      if elapsed < minDuration {
        minDuration := elapsed;
      }
      sumDuration := (sumDuration + elapsed) % WORD;
      sampleCount := (sampleCount + 1) % COUNT;
      CountSample(elapsed);
      current := current + [elapsed];
    }

    /** The last bucket also takes everything beyond it. */
    method CountSample(elapsed: nat)
      requires histogram.Length == BUCKETS
      modifies histogram
      ensures histogram[..] == old(histogram[..])[Bucket(elapsed) := (old(histogram[..])[Bucket(elapsed)] + 1) % COUNT]
    {
      var bucket := elapsed / WIDTH;
      if bucket >= BUCKETS {
        bucket := BUCKETS - 1;
      }
      histogram[bucket] := (histogram[bucket] + 1) % COUNT;
    }

    method SnapshotHistogram()
      requires histogram.Length == reportedHistogram.Length == BUCKETS && histogram != reportedHistogram
      modifies histogram, reportedHistogram
      ensures reportedHistogram[..] == old(histogram[..]) && histogram[..] == seq(BUCKETS, _ => 0)
    {
      for i := 0 to BUCKETS
        invariant forall k :: 0 <= k < i ==> reportedHistogram[k] == old(histogram[k]) && histogram[k] == 0
        invariant forall k :: i <= k < BUCKETS ==> histogram[k] == old(histogram[k])
      {
        reportedHistogram[i] := histogram[i];
        histogram[i] := 0;
      }
    }

    method RotateWindow(now: nat)
      requires Valid() && current != []
      modifies this`windowStart, this`minDuration, this`maxDuration, this`sumDuration, this`sampleCount,
               this`reportedMin, this`reportedMax, this`reportedCount, this`reportedAvg, this`windows, this`current,
               this`overruns, this`misses, this`reportedOverruns, this`reportedMisses, histogram, reportedHistogram
      ensures Valid() && windowStart == now
      ensures windows == old(windows) + [old(current)] && current == []
      ensures reportedOverruns == old(overruns) && reportedMisses == old(misses) && overruns == misses == 0
    {
      hide InBucket, Sum, Min, Max, Histogram, Of, Flatten, Last, ReportedOk, CurrentOk;
      FlattenSnoc(windows, current);
      Report();
      reportedOverruns, reportedMisses := overruns, misses;
      ClearAccumulators();
      overruns, misses := 0, 0;
      windowStart := now;
      assert all + [] == all;
    }

    method Report()
      requires histogram.Length == reportedHistogram.Length == BUCKETS && histogram != reportedHistogram && CurrentOk()
      modifies this`reportedMin, this`reportedMax, this`reportedCount, this`reportedAvg, this`windows,
               histogram, reportedHistogram
      ensures ReportedOk() && windows == old(windows) + [current] && histogram[..] == seq(BUCKETS, _ => 0)
    {
      hide InBucket, Sum, Min, Max, Histogram, Of, Flatten, Last;
      FlattenSnoc(windows, current);
      OfCounts(current);
      reportedCount, reportedMin, reportedMax := sampleCount, minDuration, maxDuration;
      reportedAvg := if sampleCount > 0 then sumDuration as real / sampleCount as real else 0.0;
      SnapshotHistogram();
      windows := windows + [current];
    }

    method ClearAccumulators()
      requires histogram.Length == BUCKETS && histogram[..] == seq(BUCKETS, _ => 0)
      modifies this`minDuration, this`maxDuration, this`sumDuration, this`sampleCount, this`current
      ensures CurrentOk() && current == []
    {
      hide InBucket, Sum, Min, Max, Histogram, Of;
      EmptyHistogram();
      minDuration, maxDuration, sumDuration, sampleCount := WORD - 1, 0, 0, 0;
      current := [];
    }

    method RecordOverrun()
      requires Valid()
      modifies this`overruns
      ensures Valid() && overruns == (old(overruns) + 1) % COUNT
    {
      overruns := (overruns + 1) % COUNT;
    }

    method RecordDeadlineMiss()
      requires Valid()
      modifies this`misses
      ensures Valid() && misses == (old(misses) + 1) % COUNT
    {
      misses := (misses + 1) % COUNT;
    }

    method SampleCount() returns (n: nat)
      requires Valid()
      ensures n == |Shown()| % COUNT
    {
      hide Histogram, Min, Max, Sum, Flatten;
      n := if reportedCount > 0 then reportedCount else sampleCount;
    }

    /** The percentile of the shown window. */
    method PercentileUs(p: real) returns (r: int)
      requires Valid()
      ensures |Shown()| < COUNT ==> r == PercentileOf(Shown(), p)
    {
      hide Histogram, Min, Max, Sum, Flatten, Interpolate, Last, Rank;
      var samples := SampleCount();
      var maxDur := if reportedCount > 0 then reportedMax else maxDuration;
      var hist := if reportedCount > 0 then reportedHistogram else histogram;
      assert hist[..] == Histogram(Shown()) && maxDur == Max(Shown());
      if samples == 0 || p <= 0.0 {
        return 0;
      }
      if p >= 1.0 {
        return maxDur;
      }
      var targetRank := Rank(p, samples);
      var cumulative: nat := 0;
      for i := 0 to BUCKETS
        invariant Walk(hist[..], 0, 0, targetRank, maxDur) == Walk(hist[..], i, cumulative, targetRank, maxDur)
      {
        var before: nat := cumulative;
        cumulative := (cumulative + hist[i]) % COUNT;
        if cumulative as real >= targetRank {
          return Interpolate(i, targetRank, before, hist[i], maxDur);
        }
      }
      r := maxDur;
    }
  }

  lemma EmptyHistogram()
    ensures Histogram([]) == seq(BUCKETS, _ => 0)
    ensures Of([]) == Accumulators(WORD - 1, 0, 0, seq(BUCKETS, _ => 0)) && Sum([]) == 0
  {
  }

  lemma HistogramSnoc(w: seq<nat>, d: nat)
    ensures Histogram(w + [d]) == Histogram(w)[Bucket(d) := (Histogram(w)[Bucket(d)] + 1) % COUNT]
  {
    hide InBucket, Bucket;
    forall b | 0 <= b < BUCKETS
      ensures Histogram(w + [d])[b] == if b == Bucket(d) then (Histogram(w)[b] + 1) % COUNT else Histogram(w)[b]
    {
      Snoc(w, d, b);
      Wraps(InBucket(w, b), 1, COUNT);
    }
  }

  lemma OfCounts(w: seq<nat>)
    ensures Of(w).count == |w| % COUNT
  {
  }

  lemma OfSnoc(w: seq<nat>, d: nat)
    ensures |Of(w).hist| == BUCKETS
    ensures Of(w + [d]) == Extend(Of(w), d) && Sum(w + [d]) == Sum(w) + d
  {
    hide InBucket, Sum, Min, Max, Histogram, Bucket;
    Snoc(w, d, 0);
    HistogramSnoc(w, d);
    Wraps(|w|, 1, COUNT);
  }

  lemma FlattenSnoc(windows: seq<seq<nat>>, w: seq<nat>)
    ensures Flatten(windows + [w]) == Flatten(windows) + w && Last(windows + [w]) == w
  {
    assert (windows + [w])[..|windows|] == windows;
  }
}
