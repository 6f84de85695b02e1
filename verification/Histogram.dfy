/** The exponential histogram written for retention. */
module Histogram {
  import opened RealPowers

  /** Bucket settings. `base` is the real number `minimumBase ^ (2 ^ compression)`, see `Configured`. */
  datatype Buckets = Buckets(
    minimumBase: real, compression: int, base: real, exponentOffset: int, saveMaxOnly: bool)

  /** The largest value, or minus infinity when there is none. */
  datatype MaxValue = MinusInfinity | Finite(value: real)

  datatype ExponentialHistogram = ExponentialHistogram(
    base: real, baseScale: int, exponentOffset: int, zeroCount: nat, maxValue: MaxValue, counts: seq<nat>)

  function ToInt32(n: int): int { (n + 0x8000_0000) % 0x1_0000_0000 - 0x8000_0000 }

  /** Start bound of bucket `i`, which is also the end bound of bucket `i - 1`. */
  function Bound(cfg: Buckets, i: int): real
    requires cfg.base > 1.0
  {
    PowZ(cfg.base, i + cfg.exponentOffset)
  }

  // ---------------------------------------------------------------- the base

  function TwoTo(n: nat): nat { if n == 0 then 1 else 2 * TwoTo(n - 1) }

  /** `base` is `min ^ (2 ^ compression)`, the positive root being taken when compression is negative. */
  ghost predicate IsBase(min: real, compression: int, base: real)
    requires min > 0.0
  {
    && base > 0.0
    && if compression >= 0 then base == PowZ(min, TwoTo(compression)) else min == PowZ(base, TwoTo(-compression))
  }

  /** Settings with a minimum base above one, the base being the one their compression asks for. */
  ghost predicate Configured(cfg: Buckets) {
    cfg.minimumBase > 1.0 && IsBase(cfg.minimumBase, cfg.compression, cfg.base)
  }

  /** `x` squared `n` times over. */
  ghost function Squarings(x: real, n: nat): real
    decreases n
  {
    if n == 0 then x else Squarings(x * x, n - 1)
  }

  lemma BaseBySquaring(min: real, compression: int, base: real)
    requires min > 0.0 && base > 0.0
    ensures IsBase(min, compression, base) <==>
            if compression >= 0 then base == Squarings(min, compression) else min == Squarings(base, -compression)
  {
    if compression >= 0 {
      SquaringsIsPower(min, compression);
    } else {
      SquaringsIsPower(base, -compression);
    }
  }

  /** Repeated squaring is raising to a power of two. */
  lemma {:induction false} SquaringsIsPower(x: real, n: nat)
    requires x > 0.0
    ensures Squarings(x, n) == PowZ(x, TwoTo(n))
    decreases n
  {
    if n == 0 {
      PowZStep(x, 0);
    } else {
      var square := x * x;
      SquarePositive(x, square);
      SquaringsIsPower(square, n - 1);
      PowZSquare(x, square, TwoTo(n - 1));
    }
  }

  lemma SquarePositive(x: real, square: real)
    requires x > 0.0 && square == x * x
    ensures square > 0.0
  {
    assert Product(x, x) > 0.0;
  }

  lemma SquareGrows(x: real, y: real, xx: real, yy: real)
    requires 0.0 < x < y && xx == x * x && yy == y * y
    ensures 0.0 < xx < yy
  {
    SquarePositive(x, xx);
    assert Product(y - x, y + x) > 0.0;
    assert (y - x) * (y + x) == yy - xx;
  }

  /** Squaring keeps the order of positive numbers, so a positive root is unique. */
  lemma {:induction false} SquaringsGrow(x: real, y: real, n: nat)
    requires 0.0 < x < y
    ensures Squarings(x, n) < Squarings(y, n)
    decreases n
  {
    if n > 0 {
      var xx, yy := x * x, y * y;
      SquareGrows(x, y, xx, yy);
      SquaringsGrow(xx, yy, n - 1);
    }
  }

  lemma {:induction false} SquaringsOfOne(n: nat)
    ensures Squarings(1.0, n) == 1.0
  {
    if n > 0 {
      SquaringsOfOne(n - 1);
      assert 1.0 * 1.0 == 1.0;
    }
  }

  lemma {:induction false} OneMoreSquaring(x: real, n: nat)
    ensures Squarings(x, n + 1) == Squarings(x, n) * Squarings(x, n)
    decreases n
  {
    if n > 0 {
      OneMoreSquaring(x * x, n - 1);
    }
  }

  /** There is only one base for a minimum and a compression. */
  lemma {:induction false} BaseIsUnique(min: real, compression: int, base: real, base': real)
    requires min > 0.0 && IsBase(min, compression, base) && IsBase(min, compression, base')
    ensures base == base'
  {
    BaseBySquaring(min, compression, base);
    BaseBySquaring(min, compression, base');
    if compression < 0 {
      if base < base' { SquaringsGrow(base, base', -compression); }
      if base' < base { SquaringsGrow(base', base, -compression); }
    }
  }

  lemma SquaredBase(min: real, compression: int, base: real, square: real)
    requires min > 0.0 && IsBase(min, compression, base) && square == base * base
    ensures IsBase(min, compression + 1, square)
  {
    SquarePositive(base, square);
    BaseBySquaring(min, compression, base);
    BaseBySquaring(min, compression + 1, square);
    if compression >= 0 {
      OneMoreSquaring(min, compression);
    } else {
      assert Squarings(base, -compression) == Squarings(square, -compression - 1);
    }
  }

  /** Raising the compression by one squares the base, whatever the sign of the compression. */
  lemma {:induction false} CompressionSquaresBase(min: real, compression: int, base: real, base': real)
    requires min > 0.0 && IsBase(min, compression, base)
    ensures IsBase(min, compression + 1, base') <==> base' == base * base
  {
    var square := base * base;
    SquaredBase(min, compression, base, square);
    if IsBase(min, compression + 1, base') {
      BaseIsUnique(min, compression + 1, base', square);
    }
  }

  /** A minimum above one gives a base above one. */
  lemma {:induction false} BaseAboveOne(min: real, compression: int, base: real)
    requires min > 1.0 && IsBase(min, compression, base)
    ensures base > 1.0
  {
    BaseBySquaring(min, compression, base);
    if compression >= 0 {
      SquaringsOfOne(compression);
      SquaringsGrow(1.0, min, compression);
    } else {
      SquaringsOfOne(-compression);
      if base < 1.0 { SquaringsGrow(base, 1.0, -compression); }
    }
  }

  // ---------------------------------------------------------------- counting

  /** How many values lie in `[lo, hi)`. */
  ghost function CountIn(vs: seq<real>, lo: real, hi: real): nat {
    if vs == [] then 0
    else CountIn(vs[..|vs| - 1], lo, hi) + if lo <= vs[|vs| - 1] < hi then 1 else 0
  }

  /** How many values lie below `hi`. */
  ghost function CountBelow(vs: seq<real>, hi: real): nat {
    if vs == [] then 0
    else CountBelow(vs[..|vs| - 1], hi) + if vs[|vs| - 1] < hi then 1 else 0
  }

  lemma {:induction false} CountSplits(vs: seq<real>, lo: real, mid: real, hi: real)
    requires lo <= mid <= hi
    ensures CountIn(vs, lo, hi) == CountIn(vs, lo, mid) + CountIn(vs, mid, hi)
    ensures CountBelow(vs, hi) == CountBelow(vs, mid) + CountIn(vs, mid, hi)
  {
    if vs != [] {
      CountSplits(vs[..|vs| - 1], lo, mid, hi);
    }
  }

  lemma {:induction false} CountBelowAll(vs: seq<real>, hi: real)
    ensures CountBelow(vs, hi) <= |vs|
    ensures CountBelow(vs, hi) == |vs| <==> forall j :: 0 <= j < |vs| ==> vs[j] < hi
  {
    if vs != [] {
      var n := |vs| - 1;
      CountBelowAll(vs[..n], hi);
      assert forall j :: 0 <= j < n ==> vs[..n][j] == vs[j];
    }
  }

  lemma {:induction false} CountWitness(vs: seq<real>, lo: real, hi: real)
    ensures CountIn(vs, lo, hi) > 0 <==> exists j :: 0 <= j < |vs| && lo <= vs[j] < hi
  {
    if vs != [] {
      var n := |vs| - 1;
      CountWitness(vs[..n], lo, hi);
      assert forall j :: 0 <= j < n ==> vs[..n][j] == vs[j];
    }
  }

  // ---------------------------------------------------------------- specification

  ghost predicate IsMax(m: MaxValue, vs: seq<real>) {
    match m
    case MinusInfinity => vs == []
    case Finite(x) => x in vs && forall j :: 0 <= j < |vs| ==> vs[j] <= x
  }

  /** Every count of `counts` is the number of values between its bucket's bounds. */
  ghost predicate CountsBuckets(cfg: Buckets, vs: seq<real>, counts: seq<nat>)
    requires cfg.base > 1.0
  {
    forall i :: 0 <= i < |counts| ==> counts[i] == CountIn(vs, Bound(cfg, i), Bound(cfg, i + 1))
  }

  /** Every value lies below the end bound of the last bucket. */
  ghost predicate Covered(cfg: Buckets, vs: seq<real>, n: nat)
    requires cfg.base > 1.0
  {
    forall j :: 0 <= j < |vs| ==> vs[j] < Bound(cfg, n)
  }

  /** `h` is the histogram of `vs`. */
  ghost predicate Describes(h: ExponentialHistogram, cfg: Buckets, vs: seq<real>) {
    && cfg.base > 1.0 && h.base == cfg.base
    && h.baseScale == ToInt32(cfg.compression)
    && h.exponentOffset == ToInt32(cfg.exponentOffset)
    && h.zeroCount == CountBelow(vs, Bound(cfg, 0))
    && IsMax(h.maxValue, vs)
    && (cfg.saveMaxOnly ==> h.counts == [])
    && (!cfg.saveMaxOnly ==>
          && CountsBuckets(cfg, vs, h.counts)
          && Covered(cfg, vs, |h.counts|)
          && (h.counts != [] ==> h.counts[|h.counts| - 1] > 0))
  }

  // ---------------------------------------------------------------- the code

  /** First pass: the number of values below the lower bound, and the largest value. */
  method ZeroCountAndMax(lowerBound: real, vs: seq<real>) returns (zeroCount: nat, maxVal: MaxValue)
    ensures zeroCount == CountBelow(vs, lowerBound) && IsMax(maxVal, vs)
  {
    zeroCount, maxVal := 0, MinusInfinity;
    for i := 0 to |vs|
      invariant zeroCount == CountBelow(vs[..i], lowerBound) && IsMax(maxVal, vs[..i])
    {
      assert vs[..i + 1][..i] == vs[..i];
      if vs[i] < lowerBound {
        zeroCount := zeroCount + 1;
      }
      if maxVal.MinusInfinity? || maxVal.value < vs[i] {
        maxVal := Finite(vs[i]);
      }
      assert vs[..i + 1] == vs[..i] + [vs[i]];
    }
    assert vs[..|vs|] == vs;
  }

  /** A value at or above the lower bound falls in the bucket of its exponent and in no other. */
  lemma OneBucket(cfg: Buckets, v: real, j: nat)
    requires cfg.base > 1.0 && Bound(cfg, 0) <= v
    ensures Bound(cfg, j) <= v < Bound(cfg, j + 1)
            <==> j == LogUp(cfg.base, v, cfg.exponentOffset) - cfg.exponentOffset
  {
    var e := LogUp(cfg.base, v, cfg.exponentOffset);
    FloorLogAtLeast(cfg.base, v, e, j + cfg.exponentOffset);
    FloorLogAtLeast(cfg.base, v, e, j + 1 + cfg.exponentOffset);
  }

  /** Values below the lower bound are in no bucket. */
  lemma NoBucket(cfg: Buckets, v: real, j: nat)
    requires cfg.base > 1.0 && v < Bound(cfg, 0)
    ensures v < Bound(cfg, j)
  {
    PowZMonotone(cfg.base, cfg.exponentOffset, j + cfg.exponentOffset);
  }

  /** Second pass: one counter per bucket, incremented for every value it receives. */
  method FillBuckets(cfg: Buckets, vs: seq<real>, maxVal: real) returns (counts: seq<nat>)
    requires cfg.base > 1.0 && Bound(cfg, 0) <= maxVal && IsMax(Finite(maxVal), vs)
    ensures counts != [] && counts[|counts| - 1] > 0
    ensures CountsBuckets(cfg, vs, counts) && Covered(cfg, vs, |counts|)
  {
    var maxIndex := LogUp(cfg.base, maxVal, cfg.exponentOffset) - cfg.exponentOffset;
    var bucketCounts := new nat[maxIndex + 1](_ => 0);
    for i := 0 to |vs|
      invariant CountsBuckets(cfg, vs[..i], bucketCounts[..])
    {
      assert vs[..i + 1][..i] == vs[..i];
      var val := vs[i];
      if val < Bound(cfg, 0) {
        forall j | 0 <= j <= maxIndex ensures val < Bound(cfg, j) { NoBucket(cfg, val, j); }
        continue;
      }
      var e := LogUp(cfg.base, val, cfg.exponentOffset);
      FloorLogOrdered(cfg.base, val, e, maxVal, maxIndex + cfg.exponentOffset);
      var index := e - cfg.exponentOffset;
      ghost var before := bucketCounts[..];
      bucketCounts[index] := bucketCounts[index] + 1;
      forall j | 0 <= j <= maxIndex
        ensures bucketCounts[j] == CountIn(vs[..i + 1], Bound(cfg, j), Bound(cfg, j + 1))
      {
        assert before[j] == CountIn(vs[..i], Bound(cfg, j), Bound(cfg, j + 1));
        OneBucket(cfg, val, j);
      }
    }
    assert vs[..|vs|] == vs;
    counts := bucketCounts[..];
    OneBucket(cfg, maxVal, maxIndex);
    CountWitness(vs, Bound(cfg, maxIndex), Bound(cfg, maxIndex + 1));
  }

  method AddHistogramValues(cfg: Buckets, vs: seq<real>) returns (h: ExponentialHistogram)
    requires Configured(cfg)
    ensures Describes(h, cfg, vs)
  {
    BaseAboveOne(cfg.minimumBase, cfg.compression, cfg.base);
    var lowerBound := PowZ(cfg.base, cfg.exponentOffset);
    var zeroCount, maxVal := ZeroCountAndMax(lowerBound, vs);
    h := ExponentialHistogram(
      cfg.base, ToInt32(cfg.compression), ToInt32(cfg.exponentOffset), zeroCount, maxVal, []);
    if cfg.saveMaxOnly || maxVal.MinusInfinity? || maxVal.value < lowerBound {
      return;
    }
    var counts := FillBuckets(cfg, vs, maxVal.value);
    h := h.(counts := counts);
  }

  /** `stored` is what a signed 32-bit field holds of the setting `n`. */
  ghost predicate StoredAs(stored: int, n: int) {
    && -0x8000_0000 <= stored < 0x8000_0000 && (stored - n) % 0x1_0000_0000 == 0
    && (-0x8000_0000 <= n < 0x8000_0000 ==> stored == n)
  }

  lemma ToInt32Stores(n: int)
    ensures StoredAs(ToInt32(n), n)
  {
    var m := n + 0x8000_0000;
    var q := m / 0x1_0000_0000;
    assert ToInt32(n) - n == -q * 0x1_0000_0000;
  }

  /** The histogram carries its settings: as they are when they fit 32 bits, modulo 2^32 otherwise. */
  lemma StoredSettings(h: ExponentialHistogram, cfg: Buckets, vs: seq<real>)
    requires Describes(h, cfg, vs)
    ensures h.base == cfg.base
    ensures StoredAs(h.baseScale, cfg.compression) && StoredAs(h.exponentOffset, cfg.exponentOffset)
  {
    ToInt32Stores(cfg.compression);
    ToInt32Stores(cfg.exponentOffset);
  }

  // ---------------------------------------------------------------- accounting

  ghost function Total(counts: seq<nat>): nat {
    if counts == [] then 0 else Total(counts[..|counts| - 1]) + counts[|counts| - 1]
  }

  lemma {:induction false} BucketsAddUp(cfg: Buckets, vs: seq<real>, counts: seq<nat>)
    requires cfg.base > 1.0 && CountsBuckets(cfg, vs, counts)
    ensures CountBelow(vs, Bound(cfg, 0)) + Total(counts) == CountBelow(vs, Bound(cfg, |counts|))
  {
    if counts != [] {
      var n := |counts| - 1;
      BucketsAddUp(cfg, vs, counts[..n]);
      PowZMonotone(cfg.base, n + cfg.exponentOffset, n + 1 + cfg.exponentOffset);
      CountSplits(vs, Bound(cfg, n), Bound(cfg, n), Bound(cfg, n + 1));
    }
  }

  /** Nothing is lost and nothing is counted twice: zeros and buckets together are all the values. */
  lemma EveryValueCountedOnce(h: ExponentialHistogram, cfg: Buckets, vs: seq<real>)
    requires Describes(h, cfg, vs) && !cfg.saveMaxOnly
    ensures h.zeroCount + Total(h.counts) == |vs|
    ensures h.counts == [] <==> h.zeroCount == |vs|
  {
    BucketsAddUp(cfg, vs, h.counts);
    CountBelowAll(vs, Bound(cfg, |h.counts|));
    if h.counts != [] {
      assert h.counts == h.counts[..|h.counts| - 1] + [h.counts[|h.counts| - 1]];
    }
  }

  // ---------------------------------------------------------------- compression

  /** Bucket `i`, zero beyond the stored ones. */
  ghost function At(counts: seq<nat>, i: nat): nat {
    if i < |counts| then counts[i] else 0
  }

  /** A stored or missing bucket counts the values between its bounds. */
  lemma BucketMeaning(h: ExponentialHistogram, cfg: Buckets, vs: seq<real>, i: nat)
    requires Describes(h, cfg, vs) && !cfg.saveMaxOnly
    ensures At(h.counts, i) == CountIn(vs, Bound(cfg, i), Bound(cfg, i + 1))
  {
    if i >= |h.counts| {
      PowZMonotone(cfg.base, |h.counts| + cfg.exponentOffset, i + cfg.exponentOffset);
      CountWitness(vs, Bound(cfg, i), Bound(cfg, i + 1));
    }
  }

  /** `x` doubled `k` times over. */
  function Doublings(x: int, k: nat): int { if k == 0 then x else 2 * Doublings(x, k - 1) }

  lemma {:induction false} DoublingsIs(x: int, k: nat)
    ensures Doublings(x, k) == TwoTo(k) * x
  {
    if k > 0 {
      DoublingsIs(x, k - 1);
      Doubled(TwoTo(k - 1), x);
    }
  }

  /** `coarse` compresses `k` times more than `fine`, and starts at the same bound. */
  ghost predicate Coarser(fine: Buckets, coarse: Buckets, k: nat) {
    && Configured(fine) && Configured(coarse)
    && coarse.minimumBase == fine.minimumBase
    && coarse.compression == fine.compression + k
    && fine.exponentOffset == Doublings(coarse.exponentOffset, k)
    && fine.saveMaxOnly == coarse.saveMaxOnly
  }

  /** The settings one compression up from `fine`, with a given offset. */
  function OneUp(fine: Buckets, square: real, offset: int): Buckets {
    fine.(compression := fine.compression + 1, base := square, exponentOffset := offset)
  }

  lemma OneUpConfigured(fine: Buckets, square: real, offset: int)
    requires Configured(fine) && square == fine.base * fine.base
    ensures fine.base > 1.0 && square > 1.0 && Configured(OneUp(fine, square, offset))
  {
    CompressionSquaresBase(fine.minimumBase, fine.compression, fine.base, square);
    BaseAboveOne(fine.minimumBase, fine.compression, fine.base);
    BaseAboveOne(fine.minimumBase, fine.compression + 1, square);
  }

  /** One compression up every other bound is left. */
  lemma OneUpBound(fine: Buckets, square: real, offset: int, i: int)
    requires fine.base > 1.0 && square > 1.0 && square == fine.base * fine.base && fine.exponentOffset == 2 * offset
    ensures Bound(OneUp(fine, square, offset), i) == Bound(fine, 2 * i)
  {
    PowZSquare(fine.base, square, i + offset);
    assert 2 * (i + offset) == 2 * i + fine.exponentOffset;
  }

  /** `k` compressions up every `2^k`-th bound is left. */
  lemma {:induction false} CoarseBound(fine: Buckets, coarse: Buckets, k: nat, i: int)
    requires Coarser(fine, coarse, k) && fine.base > 1.0 && coarse.base > 1.0
    ensures Bound(coarse, i) == Bound(fine, TwoTo(k) * i)
    decreases k
  {
    if k == 0 {
      BaseIsUnique(fine.minimumBase, fine.compression, fine.base, coarse.base);
    } else {
      var run := TwoTo(k - 1);
      var square, offset := fine.base * fine.base, Doublings(coarse.exponentOffset, k - 1);
      OneUpConfigured(fine, square, offset);
      CoarseBound(OneUp(fine, square, offset), coarse, k - 1, i);
      OneUpBound(fine, square, offset, run * i);
      Doubled(run, i);
    }
  }

  lemma Doubled(n: nat, x: int)
    ensures 2 * n * x == 2 * (n * x)
  {
  }

  /** `n` buckets from bucket `from` on, added up; missing ones count zero. */
  ghost function RunTotal(counts: seq<nat>, from: nat, n: nat): nat {
    if n == 0 then 0 else RunTotal(counts, from, n - 1) + At(counts, from + n - 1)
  }

  /** Adjacent buckets together count the values between the outer bounds. */
  lemma {:induction false} RunMeaning(h: ExponentialHistogram, cfg: Buckets, vs: seq<real>, from: nat, n: nat)
    requires Describes(h, cfg, vs) && !cfg.saveMaxOnly
    ensures CountIn(vs, Bound(cfg, from), Bound(cfg, from + n)) == RunTotal(h.counts, from, n)
  {
    if n == 0 {
      CountSplits(vs, Bound(cfg, from), Bound(cfg, from), Bound(cfg, from));
    } else {
      var last := from + n - 1;
      RunMeaning(h, cfg, vs, from, n - 1);
      BucketMeaning(h, cfg, vs, last);
      PowZMonotone(cfg.base, from + cfg.exponentOffset, last + cfg.exponentOffset);
      PowZMonotone(cfg.base, last + cfg.exponentOffset, last + 1 + cfg.exponentOffset);
      CountSplits(vs, Bound(cfg, from), Bound(cfg, last), Bound(cfg, last + 1));
    }
  }

  lemma MergedBucket(
      fine: Buckets, coarse: Buckets, k: nat, f: ExponentialHistogram, c: ExponentialHistogram, vs: seq<real>, i: nat)
    requires Coarser(fine, coarse, k) && !fine.saveMaxOnly
    requires Describes(f, fine, vs) && Describes(c, coarse, vs)
    ensures At(c.counts, i) == RunTotal(f.counts, TwoTo(k) * i, TwoTo(k))
  {
    BucketMeaning(c, coarse, vs, i);
    CoarseBound(fine, coarse, k, i);
    CoarseBound(fine, coarse, k, i + 1);
    NextRun(TwoTo(k), i);
    RunMeaning(f, fine, vs, TwoTo(k) * i, TwoTo(k));
  }

  lemma NextRun(run: nat, i: nat)
    ensures run * (i + 1) == run * i + run && run * i >= 0
  {
  }

  /** COMPRESSION MERGES RUNS. The histograms of the same values at compressions `c` and `c + k`: every bucket of
      the second is the sum of a run of `2^k` buckets of the first, and nothing else changes. */
  lemma {:induction false} CompressionMergesRuns(
      fine: Buckets, coarse: Buckets, k: nat, f: ExponentialHistogram, c: ExponentialHistogram, vs: seq<real>)
    requires Coarser(fine, coarse, k)
    requires Describes(f, fine, vs) && Describes(c, coarse, vs)
    ensures fine.exponentOffset == TwoTo(k) * coarse.exponentOffset
    ensures c.zeroCount == f.zeroCount && c.maxValue == f.maxValue
    ensures forall i: nat :: At(c.counts, i) == RunTotal(f.counts, TwoTo(k) * i, TwoTo(k))
  {
    DoublingsIs(coarse.exponentOffset, k);
    CoarseBound(fine, coarse, k, 0);
    assert TwoTo(k) * 0 == 0;
    MaxIsUnique(f.maxValue, c.maxValue, vs);
    if fine.saveMaxOnly {
      forall i: nat ensures RunTotal(f.counts, TwoTo(k) * i, TwoTo(k)) == 0 { EmptyRun(TwoTo(k) * i, TwoTo(k)); }
    } else {
      forall i: nat ensures At(c.counts, i) == RunTotal(f.counts, TwoTo(k) * i, TwoTo(k)) {
        MergedBucket(fine, coarse, k, f, c, vs, i);
      }
    }
  }

  lemma {:induction false} EmptyRun(from: nat, n: nat)
    ensures RunTotal([], from, n) == 0
  {
    if n > 0 {
      EmptyRun(from, n - 1);
    }
  }

  /** `coarse` compresses once more than `fine`, and starts at the same bound. */
  ghost predicate OneStepCoarser(fine: Buckets, coarse: Buckets) {
    && Configured(fine) && Configured(coarse)
    && coarse.minimumBase == fine.minimumBase
    && coarse.compression == fine.compression + 1
    && fine.exponentOffset == 2 * coarse.exponentOffset
    && fine.saveMaxOnly == coarse.saveMaxOnly
  }

  lemma OneStep(fine: Buckets, coarse: Buckets)
    requires OneStepCoarser(fine, coarse)
    ensures Coarser(fine, coarse, 1)
  {
    assert Doublings(coarse.exponentOffset, 1) == 2 * Doublings(coarse.exponentOffset, 0);
  }

  /** One more compression merges the buckets in pairs. */
  lemma CompressionMergesPairs(
      fine: Buckets, coarse: Buckets, f: ExponentialHistogram, c: ExponentialHistogram, vs: seq<real>)
    requires OneStepCoarser(fine, coarse)
    requires Describes(f, fine, vs) && Describes(c, coarse, vs)
    ensures c.zeroCount == f.zeroCount && c.maxValue == f.maxValue
    ensures forall i: nat :: At(c.counts, i) == At(f.counts, 2 * i) + At(f.counts, 2 * i + 1)
  {
    OneStep(fine, coarse);
    CompressionMergesRuns(fine, coarse, 1, f, c, vs);
    assert TwoTo(1) == 2;
    forall i: nat ensures At(c.counts, i) == At(f.counts, 2 * i) + At(f.counts, 2 * i + 1) {
      assert At(c.counts, i) == RunTotal(f.counts, TwoTo(1) * i, TwoTo(1));
      RunOfTwo(f.counts, 2 * i);
    }
  }

  lemma RunOfTwo(counts: seq<nat>, from: nat)
    ensures RunTotal(counts, from, 2) == At(counts, from) + At(counts, from + 1)
  {
    assert RunTotal(counts, from, 1) == RunTotal(counts, from, 0) + At(counts, from);
  }

  lemma MaxIsUnique(m: MaxValue, m': MaxValue, vs: seq<real>)
    requires IsMax(m, vs) && IsMax(m', vs)
    ensures m == m'
  {
  }

  /** Half as many buckets, rounded up. */
  lemma CompressionHalvesBuckets(
      fine: Buckets, coarse: Buckets, f: ExponentialHistogram, c: ExponentialHistogram, vs: seq<real>)
    requires OneStepCoarser(fine, coarse)
    requires Describes(f, fine, vs) && Describes(c, coarse, vs)
    ensures |c.counts| == (|f.counts| + 1) / 2
  {
    CompressionMergesPairs(fine, coarse, f, c, vs);
    MergedLength(f.counts, c.counts);
  }

  lemma MergedLength(f: seq<nat>, c: seq<nat>)
    requires f != [] ==> f[|f| - 1] > 0
    requires c != [] ==> c[|c| - 1] > 0
    requires forall i: nat :: At(c, i) == At(f, 2 * i) + At(f, 2 * i + 1)
    ensures |c| == (|f| + 1) / 2
  {
    var n, m := |c|, |f|;
    if n > 0 {
      assert At(c, n - 1) == At(f, 2 * (n - 1)) + At(f, 2 * (n - 1) + 1);
    }
    if m > 0 {
      var i := (m - 1) / 2;
      assert At(c, i) == At(f, 2 * i) + At(f, 2 * i + 1);
    }
  }
}
