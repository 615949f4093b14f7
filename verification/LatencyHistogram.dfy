/**
 The latency histogram: 256 buckets of one nanosecond, then 16 buckets per power of two.
 */
module LatencyHistogram {
  import opened Words

  const LINEAR: nat := 256
  const TOTAL: nat := 512

  // ----- Buckets -----

  /** The position of the highest set bit. */
  function Msb(n: nat): (m: nat)
    requires n > 0
    ensures Pow2(m) <= n < Pow2(m + 1)
  {
    if n == 1 then 0 else Msb(n / 2) + 1
  }

  /** The index of a bucket; it may lie outside the array. */
  function BucketFor(ns: nat): (b: nat) {
    if ns < LINEAR then ns
    else
      var msb := Msb(ns);
      if msb >= 32 then TOTAL - 1
      else
        MsbAtLeast(ns, 8);
        LINEAR + (msb - 7) * 16 + (ns / Pow2(msb - 4)) % 16
  }

  function BucketLower(b: nat): (ns: nat) {
    if b < LINEAR then b
    else
      var octave, sub := (b - LINEAR) / 16, (b - LINEAR) % 16;
      Pow2(octave + 7) + sub * Pow2(octave + 3)
  }

  // ----- Powers and quotients -----

  lemma {:induction false} Pow2Grows(a: nat, b: nat)
    requires a <= b
    ensures Pow2(a) <= Pow2(b)
    decreases b
  {
    if a < b {
      Pow2Grows(a, b - 1);
    }
  }

  lemma MsbAtLeast(n: nat, k: nat)
    requires n > 0 && n >= Pow2(k)
    ensures Msb(n) >= k
  {
    if Msb(n) < k {
      Pow2Grows(Msb(n) + 1, k);
    }
  }

  lemma MsbBelow(n: nat, k: nat)
    requires 0 < n < Pow2(k)
    ensures Msb(n) < k
  {
    if Msb(n) >= k {
      Pow2Grows(k, Msb(n));
    }
  }

  lemma MsbMonotone(a: nat, b: nat)
    requires 0 < a <= b
    ensures Msb(a) <= Msb(b)
  {
    if Msb(b) < Msb(a) {
      Pow2Grows(Msb(b) + 1, Msb(a));
    }
  }

  lemma Limits()
    ensures Pow2(8) == 256 && Pow2(23) == 0x80_0000 && Pow2(32) == 0x1_0000_0000
  {
    assert Pow2(8) == 256;
    Pow2Add(8, 8);
    assert Pow2(16) == 0x1_0000;
    assert Pow2(7) == 128;
    Pow2Add(16, 7);
    Pow2Add(16, 16);
  }

  lemma UnitSizes(msb: nat)
    requires msb >= 4
    ensures Pow2(msb) == 16 * Pow2(msb - 4) && Pow2(msb + 1) == 32 * Pow2(msb - 4)
  {
    assert Pow2(msb + 1) == 2 * Pow2(msb);
    assert Pow2(msb) == 4 * Pow2(msb - 2);
    assert Pow2(msb - 2) == 4 * Pow2(msb - 4);
  }

  lemma UnitsOf(ns: nat, u: nat)
    requires u > 0 && 16 * u <= ns < 32 * u
    ensures 16 <= ns / u < 32 && (ns / u) % 16 == ns / u - 16
    ensures ns == (ns / u) * u + ns % u && ns % u < u
  {
    DivMod(ns, u);
    QuotientBetween(ns, u, ns / u, 16, 32);
  }

  /** Above the linear range, a value is 16 to 31 units of its sub-bucket size. */
  lemma Units(ns: nat)
    requires ns >= LINEAR
    ensures var msb := Msb(ns);
            && msb >= 8
            && var u := Pow2(msb - 4);
               && Pow2(msb) == 16 * u
               && 16 <= ns / u < 32
               && (ns / u) % 16 == ns / u - 16
               && ns == (ns / u) * u + ns % u && ns % u < u
  {
    Limits();
    MsbAtLeast(ns, 8);
    var msb := Msb(ns);
    UnitSizes(msb);
    UnitsOf(ns, Pow2(msb - 4));
  }

  lemma MulNonNegative(d: nat, n: nat)
    ensures d * n >= 0
  {
  }

  lemma QuotientBetween(n: nat, u: nat, q: int, lo: nat, hi: nat)
    requires u > 0 && lo * u <= n < hi * u && q * u <= n < q * u + u
    ensures lo <= q < hi
  {
    if q < lo {
      MulAtLeast(lo - q, u);
      MulDistributes(lo, q, u);
    }
    if q >= hi {
      MulDistributes(q, hi, u);
      MulNonNegative(q - hi, u);
    }
  }

  // ----- What a bucket says of its values -----

  /** The index is inside the array if and only if the latency is below 2^23 ns, or so large that it is capped. */
  lemma BucketInRangeIff(ns: nat)
    ensures BucketFor(ns) < TOTAL <==> ns < 0x80_0000 || ns >= 0x1_0000_0000
  {
    Limits();
    if ns >= LINEAR {
      Units(ns);
      if ns >= 0x1_0000_0000 {
        MsbAtLeast(ns, 32);
      } else {
        MsbBelow(ns, 32);
        if ns < 0x80_0000 {
          MsbBelow(ns, 23);
        } else {
          MsbAtLeast(ns, 23);
        }
      }
    }
  }

  /** The floor of a value's bucket: exact below 256 ns, and less than a sixteenth of it away above. */
  lemma FloorIsClose(ns: nat)
    requires ns < 0x1_0000_0000
    ensures BucketLower(BucketFor(ns)) <= ns
    ensures if ns < LINEAR then BucketLower(BucketFor(ns)) == ns
            else 16 * (ns - BucketLower(BucketFor(ns))) < ns
  {
    if ns >= LINEAR {
      Units(ns);
      Limits();
      MsbBelow(ns, 32);
      var msb := Msb(ns);
      var u := Pow2(msb - 4);
      var q := ns / u;
      var b := BucketFor(ns);
      assert b - LINEAR == (msb - 7) * 16 + (q - 16);
      assert (b - LINEAR) / 16 == msb - 7 && (b - LINEAR) % 16 == q - 16;
      MulDistributes(q, 16, u);
      assert BucketLower(b) == q * u;
    }
  }

  lemma SameOctave(a: nat, b: nat, u: nat)
    requires u > 0 && a <= b
    ensures a / u <= b / u
  {
    DivMod(a, u);
    DivMod(b, u);
    var p, q := a / u, b / u;
    if p > q {
      MulAtLeast(p - q, u);
      MulDistributes(p, q, u);
    }
  }

  /** The latencies whose bucket lies inside the array (`BucketInRangeIff`). */
  predicate InRange(ns: nat) {
    ns < 0x80_0000 || ns >= 0x1_0000_0000
  }

  /** Larger latencies go to the same or a later bucket. */
  lemma BucketMonotone(a: nat, b: nat)
    requires a <= b && InRange(a) && InRange(b)
    ensures BucketFor(a) <= BucketFor(b)
  {
    BucketInRangeIff(a);
    if b >= LINEAR {
      Limits();
      Units(b);
      if b >= 0x1_0000_0000 {
        MsbAtLeast(b, 32);
      } else {
        MsbBelow(b, 32);
        if a >= LINEAR {
          LaterBucket(a, b);
        }
      }
    }
  }

  lemma LaterBucket(a: nat, b: nat)
    requires LINEAR <= a <= b && Msb(b) < 32
    ensures BucketFor(a) <= BucketFor(b)
  {
    Units(a);
    Units(b);
    MsbMonotone(a, b);
    if Msb(a) == Msb(b) {
      SameOctave(a, b, Pow2(Msb(a) - 4));
    }
  }

  lemma MsbIs(n: nat, m: nat)
    requires Pow2(m) <= n < Pow2(m + 1) && n > 0
    ensures Msb(n) == m
  {
    MsbAtLeast(n, m);
    MsbBelow(n, m + 1);
  }

  /** The sixteen sub-buckets of an octave, each of size `u`, in front of the next octave. */
  lemma OctaveSizes(octave: nat, u: nat)
    requires 1 <= octave <= 15 && u == Pow2(octave + 3)
    ensures u > 0 && 256 <= Pow2(octave + 7) == 16 * u && Pow2(octave + 8) == 32 * u <= 0x80_0000
  {
    UnitSizes(octave + 7);
    Limits();
    Pow2Grows(8, octave + 7);
    Pow2Grows(octave + 8, 23);
  }

  lemma UnitSum(sub: nat, u: nat, n: nat)
    requires sub < 16 && u > 0 && n == 16 * u + sub * u
    ensures 16 * u <= n < 32 * u && n / u == 16 + sub
  {
    MulAtLeast(16 - sub, u);
    MulDistributes(16, sub, u);
    MulDistributes(16 + sub, 16, u);
    DivMod(n, u);
    QuotientBetween(n, u, n / u, 16 + sub, 17 + sub);
  }

  /** The bucket of a latency of `16 + sub` sub-buckets and less than one more. */
  lemma BucketOf(n: nat, octave: nat, sub: nat, u: nat)
    requires 1 <= octave <= 15 && sub < 16 && u == Pow2(octave + 3) > 0
    requires Pow2(octave + 7) <= n < Pow2(octave + 8) && n >= 256 && n / u == 16 + sub
    ensures BucketFor(n) == LINEAR + octave * 16 + sub
  {
    MsbIs(n, octave + 7);
    Units(n);
    var msb := Msb(n);
    assert Pow2(msb - 4) == u;
    assert (n / u) % 16 == sub;
  }

  lemma FloorFallsIn(b: nat, octave: nat, sub: nat)
    requires 1 <= octave <= 15 && sub < 16 && b == LINEAR + 16 * octave + sub
    ensures BucketFor(BucketLower(b)) == b && BucketLower(b) < 0x80_0000
  {
    assert (b - LINEAR) / 16 == octave && (b - LINEAR) % 16 == sub;
    var u := Pow2(octave + 3);
    OctaveSizes(octave, u);
    UnitSum(sub, u, BucketLower(b));
    BucketOf(BucketLower(b), octave, sub, u);
  }

  /** The floor of a bucket that is in use is the least latency that falls into it. */
  lemma FloorIsLeast(b: nat, ns: nat)
    requires b < 256 || 272 <= b < 512
    ensures BucketFor(BucketLower(b)) == b
    ensures BucketFor(ns) == b ==> BucketLower(b) <= ns
    ensures ns < BucketLower(b) ==> BucketFor(ns) < b
  {
    if b >= 272 {
      FloorFallsIn(b, (b - LINEAR) / 16, (b - LINEAR) % 16);
    }
    if ns < BucketLower(b) {
      BucketMonotone(ns, BucketLower(b));
      FloorIsClose(ns);
    }
  }

  /** Those are the only buckets in use: the sixteen from 256 on stay empty. */
  lemma BucketsInUse(ns: nat)
    ensures BucketFor(ns) < 256 || BucketFor(ns) >= 272
  {
    if ns >= LINEAR {
      Units(ns);
    }
  }

  // ----- Percentiles -----

  /** The number of values in buckets up to `b`. */
  function CountUpTo(h: seq<nat>, b: int): (n: nat) {
    if h == [] then 0 else CountUpTo(h[..|h| - 1], b) + if BucketFor(h[|h| - 1]) <= b then 1 else 0
  }

  /** The number of values in bucket `b`. */
  function CountIn(h: seq<nat>, b: nat): (n: nat) {
    if h == [] then 0 else CountIn(h[..|h| - 1], b) + if BucketFor(h[|h| - 1]) == b then 1 else 0
  }

  /** The number of values below `v`. */
  function Below(h: seq<nat>, v: nat): (n: nat) {
    if h == [] then 0 else Below(h[..|h| - 1], v) + if h[|h| - 1] < v then 1 else 0
  }

  /** `v` is the value at position `rank`, from 0, when `h` is put in order. */
  predicate IsRanked(h: seq<nat>, rank: nat, v: nat) {
    Below(h, v) <= rank < Below(h, v + 1)
  }

  ghost predicate Recordable(h: seq<nat>) {
    forall i :: 0 <= i < |h| ==> InRange(h[i])
  }

  lemma {:induction false} CountUpToNext(h: seq<nat>, b: nat)
    ensures CountUpTo(h, b) == CountUpTo(h, b - 1) + CountIn(h, b)
  {
    if h != [] {
      CountUpToNext(h[..|h| - 1], b);
    }
  }

  /** No more values lie in earlier buckets than lie below `v`, and its own bucket covers all up to `v`. */
  lemma {:induction false} BucketsFollowRanks(h: seq<nat>, v: nat)
    requires Recordable(h) && InRange(v)
    ensures CountUpTo(h, BucketFor(v) - 1) <= Below(h, v)
    ensures Below(h, v + 1) <= CountUpTo(h, BucketFor(v))
  {
    if h != [] {
      BucketsFollowRanks(h[..|h| - 1], v);
      var x := h[|h| - 1];
      if x <= v {
        BucketMonotone(x, v);
      } else {
        BucketMonotone(v, x);
      }
    }
  }

  lemma {:induction false} CountUpToGrows(h: seq<nat>, a: int, b: int)
    requires a <= b
    ensures CountUpTo(h, a) <= CountUpTo(h, b)
  {
    if h != [] {
      CountUpToGrows(h[..|h| - 1], a, b);
    }
  }

  lemma {:induction false} AllCounted(h: seq<nat>)
    requires Recordable(h)
    ensures CountUpTo(h, TOTAL - 1) == |h| && CountUpTo(h, -1) == 0
  {
    if h != [] {
      AllCounted(h[..|h| - 1]);
      BucketInRangeIff(h[|h| - 1]);
    }
  }

  /** A ranked value is one of the values. */
  lemma {:induction false} RankedIsRecorded(h: seq<nat>, v: nat)
    requires Below(h, v) < Below(h, v + 1)
    ensures v in h
  {
    if h[|h| - 1] != v {
      RankedIsRecorded(h[..|h| - 1], v);
    }
  }

  /** Only one bucket takes the running count past a rank. */
  lemma StopsOnce(h: seq<nat>, rank: nat, a: nat, b: nat)
    requires CountUpTo(h, a - 1) <= rank < CountUpTo(h, a)
    requires CountUpTo(h, b - 1) <= rank < CountUpTo(h, b)
    ensures a == b
  {
    CountUpToGrows(h, if a < b then a else b, (if a < b then b else a) - (if a == b then 0 else 1));
  }

  /** The scan stops at the bucket of the ranked value. */
  lemma ScanStopsAt(h: seq<nat>, rank: nat, v: nat, b: nat)
    requires Recordable(h) && IsRanked(h, rank, v)
    requires CountUpTo(h, b - 1) <= rank < CountUpTo(h, b)
    ensures b == BucketFor(v)
  {
    RankedIsRecorded(h, v);
    BucketsFollowRanks(h, v);
    StopsOnce(h, rank, b, BucketFor(v));
  }

  function MaxOf(h: seq<nat>): (m: nat)
    ensures forall i :: 0 <= i < |h| ==> h[i] <= m
    ensures h == [] || m in h
  {
    if h == [] then 0
    else
      var m := MaxOf(h[..|h| - 1]);
      if |h| == 1 || h[|h| - 1] > m then h[|h| - 1] else m
  }

  lemma {:induction false} BelowBounds(h: seq<nat>, limit: nat)
    requires forall i :: 0 <= i < |h| ==> h[i] < limit
    ensures Below(h, 0) == 0 && Below(h, limit) == |h|
  {
    if h != [] {
      BelowBounds(h[..|h| - 1], limit);
    }
  }

  lemma {:induction false} RankedBelow(h: seq<nat>, rank: nat, limit: nat) returns (v: nat)
    requires Below(h, 0) <= rank < Below(h, limit)
    ensures IsRanked(h, rank, v)
  {
    if rank < Below(h, limit - 1) {
      v := RankedBelow(h, rank, limit - 1);
    } else {
      v := limit - 1;
    }
  }

  /** Every rank below the count has its value. */
  lemma RankExists(h: seq<nat>, rank: nat) returns (v: nat)
    requires rank < |h|
    ensures IsRanked(h, rank, v)
  {
    BelowBounds(h, MaxOf(h) + 1);
    v := RankedBelow(h, rank, MaxOf(h) + 1);
  }

  // ----- The histogram as it runs -----

  /** The rank that percentile `p` of `total` values asks for. */
  function Target(total: nat, p: real): (t: nat)
    requires p >= 0.0
    ensures t < total <==> total > 0 && p < 100.0
  {
    ShareBelow(total as real, p);
    (total as real * p / 100.0).Floor
  }

  /** The asked rank is the whole part of that share of the values. */
  lemma TargetIs(total: nat, p: real, t: nat)
    requires p >= 0.0
    ensures t == Target(total, p) <==> 100.0 * t as real <= total as real * p < 100.0 * (t + 1) as real
  {
    var x := total as real * p / 100.0;
    assert x.Floor as real <= x < (x.Floor + 1) as real;
  }

  lemma ShareBelow(n: real, p: real)
    requires n >= 0.0 && p >= 0.0
    ensures n * p / 100.0 >= 0.0
    ensures n * p / 100.0 < n <==> n > 0.0 && p < 100.0
  {
    assert n * p - n * 100.0 == n * (p - 100.0);
  }

  /** `r` is the floor of the bucket of the value at the rank that is the whole part of `p` per cent of the count. */
  ghost predicate Answers(h: seq<nat>, p: real, r: nat) {
    forall t: nat, v: nat ::
      IsRanked(h, t, v) && 100.0 * t as real <= |h| as real * p < 100.0 * (t + 1) as real ==> r == BucketLower(BucketFor(v))
  }

  lemma StopAnswers(h: seq<nat>, p: real, rank: nat, b: nat)
    requires Recordable(h) && p >= 0.0 && rank == Target(|h|, p)
    requires CountUpTo(h, b - 1) <= rank < CountUpTo(h, b)
    ensures Answers(h, p, BucketLower(b))
  {
    forall t: nat, v: nat | IsRanked(h, t, v) && 100.0 * t as real <= |h| as real * p < 100.0 * (t + 1) as real
      ensures b == BucketFor(v)
    {
      TargetIs(|h|, p, t);
      ScanStopsAt(h, rank, v, b);
    }
  }

  /** There is always such a value to ask for. */
  lemma AskedValue(h: seq<nat>, p: real) returns (t: nat, v: nat)
    requires h != [] && 0.0 <= p < 100.0
    ensures IsRanked(h, t, v) && 100.0 * t as real <= |h| as real * p < 100.0 * (t + 1) as real
  {
    t := Target(|h|, p);
    TargetIs(|h|, p, t);
    v := RankExists(h, t);
  }

  lemma NothingRanked(p: real)
    ensures Answers([], p, 0)
  {
  }

  class Histogram {
    const buckets: array<nat>
    var count: nat
    var max: nat
    /** Every latency recorded since the last reset. */
    ghost var history: seq<nat>

    ghost predicate Valid()
      reads this, buckets
    {
      && buckets.Length == TOTAL && Recordable(history)
      && count == |history| && max == MaxOf(history)
      && forall b :: 0 <= b < TOTAL ==> buckets[b] == CountIn(history, b)
    }

    constructor ()
      ensures Valid() && history == [] && fresh(buckets)
    {
      buckets := new nat[TOTAL](_ => 0);
      count, max, history := 0, 0, [];
    }

    method Record(ns: nat)
      requires Valid() && InRange(ns)
      modifies this, buckets
      ensures Valid() && history == old(history) + [ns]
    {
      BucketInRangeIff(ns);
      var b := BucketFor(ns);
      buckets[b] := buckets[b] + 1;
      count := count + 1;
      if ns > max {
        max := ns;
      }
      history := history + [ns];
      assert history[..|history| - 1] == old(history);
    }

    /**
     The floor of the bucket of the latency at the asked position of the ordered history; the
     largest latency from 100 on, and 0 for an empty history.
     */
    method Percentile(p: real) returns (r: nat)
      requires Valid() && p >= 0.0
      ensures history == [] ==> r == 0
      ensures history != [] && p >= 100.0 ==> r in history && forall x :: x in history ==> x <= r
      ensures p < 100.0 ==> Answers(history, p, r)
    {
      if count == 0 {
        NothingRanked(p);
        return 0;
      }
      var target := Target(count, p);
      AllCounted(history);
      var cumulative := 0;
      for i := 0 to TOTAL
        invariant cumulative == CountUpTo(history, i - 1) <= target
      {
        CountUpToNext(history, i);
        cumulative := cumulative + buckets[i];
        if cumulative > target {
          CountUpToGrows(history, i, TOTAL - 1);
          StopAnswers(history, p, target, i);
          return BucketLower(i);
        }
      }
      return max;
    }

    method Reset()
      requires Valid()
      modifies this, buckets
      ensures Valid() && history == []
    {
      for i := 0 to TOTAL
        invariant forall b :: 0 <= b < i ==> buckets[b] == 0
      {
        buckets[i] := 0;
      }
      count, max, history := 0, 0, [];
    }
  }
}
