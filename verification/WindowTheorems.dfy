/** Laws of the sliding window, for every run of polls. */
module WindowTheorems {
  import opened Words
  import opened SampleSpec

  // ---------------------------------------------------------------- full windows

  /** A window that loses nothing to the filter holds the series in every poll. */
  lemma {:induction false} FullWindowHasNoGap(cfg: Config, polls: seq<Poll>, k: SeriesKey)
    requires |Survivors(cfg, polls, k)| == |polls|
    ensures forall i :: 0 <= i < |polls| ==> k in polls[i] && Survivors(cfg, polls, k)[i] == polls[i][k]
  {
    if polls != [] {
      var n := |polls| - 1;
      FullWindowHasNoGap(cfg, polls[..n], k);
      assert forall i :: 0 <= i < n ==> polls[..n][i] == polls[i];
    }
  }

  /** Sample `s` carries rates derived against sample `last`. */
  ghost predicate Follows(cfg: Config, last: Instant, s: Instant) {
    && s == ComputeDelta(cfg, last, Raw(s.counters))
    && last.counters.time < s.counters.time
  }

  /** Consecutive kept samples, each derived against the one before. */
  ghost predicate Unbroken(cfg: Config, v: seq<Instant>) {
    && (forall i :: 0 <= i < |v| ==> Keep(cfg, v[i]))
    && (forall i :: 1 <= i < |v| ==> Follows(cfg, v[i - 1], v[i]))
  }

  /** Two adjacent polls that both hold `k`. */
  lemma NeighboursFollow(cfg: Config, polls: seq<Poll>, k: SeriesKey, j: nat)
    requires Chained(cfg, polls) && TimesIncrease(polls, k)
    requires 1 <= j < |polls| && k in polls[j - 1] && k in polls[j]
    ensures Follows(cfg, polls[j - 1][k], polls[j][k])
  {
    var before := polls[..j];
    assert before[|before| - 1] == polls[j - 1];
    assert Linked(cfg, polls, j);
  }

  /** Every sample of `k` follows the one of the previous poll, where there is one. */
  ghost predicate RunFollows(cfg: Config, polls: seq<Poll>, k: SeriesKey) {
    forall j :: 1 <= j < |polls| && k in polls[j - 1] && k in polls[j] ==> Follows(cfg, polls[j - 1][k], polls[j][k])
  }

  lemma ChainedRunFollows(cfg: Config, polls: seq<Poll>, k: SeriesKey)
    requires Chained(cfg, polls) && TimesIncrease(polls, k)
    ensures RunFollows(cfg, polls, k)
  {
    forall j | 1 <= j < |polls| && k in polls[j - 1] && k in polls[j]
      ensures Follows(cfg, polls[j - 1][k], polls[j][k])
    {
      NeighboursFollow(cfg, polls, k, j);
    }
  }

  /** In a full window of a derived run every sample follows its neighbour. */
  lemma FullWindowUnbroken(cfg: Config, polls: seq<Poll>, k: SeriesKey)
    requires RunFollows(cfg, polls, k)
    requires |Survivors(cfg, Window(cfg, polls), k)| == |Window(cfg, polls)|
    ensures Unbroken(cfg, Survivors(cfg, Window(cfg, polls), k))
  {
    var w := Window(cfg, polls);
    var v := Survivors(cfg, w, k);
    FullWindowHasNoGap(cfg, w, k);
    var off := |polls| - |w|;
    forall i | 1 <= i < |v| ensures Follows(cfg, v[i - 1], v[i]) {
      assert w[i] == polls[off + i] && w[i - 1] == polls[off + i - 1];
    }
  }

  lemma ChainedWindowUnbroken(cfg: Config, polls: seq<Poll>, k: SeriesKey)
    requires Chained(cfg, polls) && TimesIncrease(polls, k)
    requires |Survivors(cfg, Window(cfg, polls), k)| == |Window(cfg, polls)|
    ensures Unbroken(cfg, Survivors(cfg, Window(cfg, polls), k))
  {
    ChainedRunFollows(cfg, polls, k);
    FullWindowUnbroken(cfg, polls, k);
  }

  // ---------------------------------------------------------------- telescoping

  /** A kept rate brackets the growth of its counter since the previous sample. */
  lemma RateBrackets(cfg: Config, f: Field, last: Instant, s: Instant)
    requires cfg.max < cfg.outOfRange
    requires Follows(cfg, last, s) && Keep(cfg, s)
    ensures last.counters.time > 0
    ensures var dt := s.counters.time - last.counters.time;
            var d := Sub64(Counter(f, s), Counter(f, last));
            RateOf(f, s) * dt <= d * NANOS < (RateOf(f, s) + 1) * dt
  {
    var dt := s.counters.time - last.counters.time;
    var d := Sub64(Counter(f, s), Counter(f, last));
    assert RateOf(f, s) == d * NANOS / dt;
    DivisionBrackets(d * NANOS, dt);
  }

  lemma DivisionBrackets(n: nat, d: nat)
    requires d > 0
    ensures n / d * d <= n < (n / d + 1) * d
  {
  }

  /** Sums of bracketed quantities are bracketed by the lowest and the highest rate. */
  lemma Mediant(x: int, t: nat, lo: nat, hi: nat, d: int, dt: nat, r: nat, lo': nat, hi': nat)
    requires lo * t <= x < (hi + 1) * t
    requires r * dt <= d < (r + 1) * dt
    requires lo' <= lo && lo' <= r && hi <= hi' && r <= hi'
    ensures lo' * (t + dt) <= x + d < (hi' + 1) * (t + dt)
  {
    MulMonotone(t, lo', lo);
    MulMonotone(dt, lo', r);
    MulMonotone(t, hi + 1, hi' + 1);
    MulMonotone(dt, r + 1, hi' + 1);
  }

  /** The span of `v` is short enough that a counter running at the accepted maximum cannot wrap in it. */
  ghost predicate SpanFits(cfg: Config, v: seq<Instant>) {
    v != [] ==> (cfg.max + 1) * (v[|v| - 1].counters.time - v[0].counters.time) <= TWO64 * NANOS
  }

  /** How much a counter grew from the first sample to sample `n`, step by step. */
  ghost function Growth(f: Field, v: seq<Instant>, n: nat): nat
    requires n < |v|
  {
    if n == 0 then 0 else Growth(f, v, n - 1) + Sub64(Counter(f, v[n]), Counter(f, v[n - 1]))
  }

  /** The growth in units of a billionth. */
  ghost function NanoGrowth(f: Field, v: seq<Instant>, n: nat): nat
    requires n < |v|
  {
    if n == 0 then 0 else NanoGrowth(f, v, n - 1) + Sub64(Counter(f, v[n]), Counter(f, v[n - 1])) * NANOS
  }

  lemma {:induction false} NanoGrowthIs(f: Field, v: seq<Instant>, n: nat)
    requires n < |v|
    ensures NanoGrowth(f, v, n) == Growth(f, v, n) * NANOS
  {
    if n > 0 {
      NanoGrowthIs(f, v, n - 1);
      Distribute(Growth(f, v, n - 1), Sub64(Counter(f, v[n]), Counter(f, v[n - 1])), NANOS);
    }
  }

  lemma Distribute(a: int, b: int, c: int)
    ensures (a + b) * c == a * c + b * c
  {
  }

  /** The rate of `s` brackets the growth since `last`. */
  ghost predicate Bracketed(f: Field, last: Instant, s: Instant) {
    var dt := s.counters.time - last.counters.time;
    var d := Sub64(Counter(f, s), Counter(f, last)) * NANOS;
    0 < last.counters.time < s.counters.time && RateOf(f, s) * dt <= d < (RateOf(f, s) + 1) * dt
  }

  ghost predicate AllBracketed(f: Field, v: seq<Instant>) {
    forall i :: 1 <= i < |v| ==> Bracketed(f, v[i - 1], v[i])
  }

  lemma UnbrokenBracketed(cfg: Config, f: Field, v: seq<Instant>)
    requires cfg.max < cfg.outOfRange && Unbroken(cfg, v)
    ensures AllBracketed(f, v)
  {
    forall i | 1 <= i < |v| ensures Bracketed(f, v[i - 1], v[i]) {
      RateBrackets(cfg, f, v[i - 1], v[i]);
    }
  }

  lemma BracketStep(x: nat, t: nat, lo: nat, hi: nat, d: nat, dt: nat, r: nat) returns (lo': nat, hi': nat)
    requires lo * t <= x < (hi + 1) * t && r * dt <= d < (r + 1) * dt
    ensures lo' == (if lo <= r then lo else r) && hi' == (if r <= hi then hi else r)
    ensures lo' * (t + dt) <= x + d < (hi' + 1) * (t + dt)
  {
    lo', hi' := if lo <= r then lo else r, if r <= hi then hi else r;
    Mediant(x, t, lo, hi, d, dt, r, lo', hi');
  }

  /** The growth since the first sample is bracketed by the rates of two of the later samples. */
  lemma {:induction false} GrowthBrackets(f: Field, v: seq<Instant>, n: nat) returns (lo: nat, hi: nat)
    requires AllBracketed(f, v) && 1 <= n < |v|
    ensures 1 <= lo <= n && 1 <= hi <= n
    ensures 0 < v[0].counters.time < v[n].counters.time
    ensures var t := v[n].counters.time - v[0].counters.time;
            RateOf(f, v[lo]) * t <= NanoGrowth(f, v, n) < (RateOf(f, v[hi]) + 1) * t
  {
    assert Bracketed(f, v[n - 1], v[n]);
    if n == 1 {
      lo, hi := 1, 1;
      assert NanoGrowth(f, v, 0) == 0;
    } else {
      var lo0, hi0 := GrowthBrackets(f, v, n - 1);
      var t0 := v[n - 1].counters.time - v[0].counters.time;
      var t1 := v[n].counters.time - v[n - 1].counters.time;
      var rlo, rhi := BracketStep(
        NanoGrowth(f, v, n - 1), t0, RateOf(f, v[lo0]), RateOf(f, v[hi0]),
        Sub64(Counter(f, v[n]), Counter(f, v[n - 1])) * NANOS, t1, RateOf(f, v[n]));
      lo := if RateOf(f, v[lo0]) <= RateOf(f, v[n]) then lo0 else n;
      hi := if RateOf(f, v[n]) <= RateOf(f, v[hi0]) then hi0 else n;
      assert RateOf(f, v[lo]) == rlo && RateOf(f, v[hi]) == rhi;
    }
  }

  /** Whatever the counter did in between, the wrapping difference of two samples is the growth modulo 2^64. */
  lemma {:induction false} WrappedGrowth(f: Field, v: seq<Instant>, n: nat)
    requires n < |v|
    ensures Sub64(Counter(f, v[n]), Counter(f, v[0])) == Growth(f, v, n) % TWO64
  {
    if n > 0 {
      WrappedGrowth(f, v, n - 1);
      Add64OfSum(Growth(f, v, n - 1), Sub64(Counter(f, v[n]), Counter(f, v[n - 1])));
    }
  }

  /** TELESCOPING: for any samples the wrapping difference of last and first is the growth exactly when the
      growth fits a word. */
  lemma {:induction false} Telescopes(f: Field, v: seq<Instant>, n: nat)
    requires n < |v|
    ensures Sub64(Counter(f, v[n]), Counter(f, v[0])) == Growth(f, v, n) <==> Growth(f, v, n) < TWO64
  {
    WrappedGrowth(f, v, n);
    SmallModulus(Growth(f, v, n));
  }

  lemma SmallModulus(n: nat)
    ensures n % TWO64 == n <==> n < TWO64
  {
  }

  /** A full window grows by less than 2^64 in total. */
  ghost predicate GrowthFits(cfg: Config, f: Field, v: seq<Instant>) {
    |v| == cfg.size >= 2 ==> Growth(f, v, |v| - 1) < TWO64
  }

  lemma ShortSpanGrowth(cfg: Config, f: Field, v: seq<Instant>)
    requires cfg.max < cfg.outOfRange && Unbroken(cfg, v) && SpanFits(cfg, v) && |v| >= 2
    ensures Growth(f, v, |v| - 1) < TWO64
  {
    var n := |v| - 1;
    UnbrokenBracketed(cfg, f, v);
    var lo, hi := GrowthBrackets(f, v, n);
    NanoGrowthIs(f, v, n);
    NoWrap(cfg, Growth(f, v, n), v[n].counters.time - v[0].counters.time, RateOf(f, v[hi]));
  }

  lemma NoWrap(cfg: Config, d: nat, t: nat, rate: u64)
    requires d * NANOS < (rate + 1) * t && rate <= cfg.max
    requires (cfg.max + 1) * t <= TWO64 * NANOS
    ensures d < TWO64
  {
    MulMonotone(t, rate + 1, cfg.max + 1);
  }

  /** The quotient as a word, zero if it is none. */
  function Div64Of(x: nat, t: int): u64 {
    if t > 0 && x / t < TWO64 then x / t else 0
  }

  /** Without wrap-around the last-minus-first rate of unbroken samples is their growth per second, and lies
      between the rates of two later samples. */
  lemma WholeRate(cfg: Config, f: Field, v: seq<Instant>) returns (lo: nat, hi: nat)
    requires cfg.max < cfg.outOfRange && Unbroken(cfg, v) && |v| >= 2 && Growth(f, v, |v| - 1) < TWO64
    ensures 1 <= lo < |v| && 1 <= hi < |v|
    ensures var n := |v| - 1;
            var t := v[n].counters.time - v[0].counters.time;
            var whole := RateOf(f, ComputeDelta(cfg, v[0], v[n]));
            t > 0 && whole == Div64Of(Growth(f, v, n) * NANOS, t)
            && RateOf(f, v[lo]) <= whole <= RateOf(f, v[hi]) <= cfg.max
  {
    var n := |v| - 1;
    UnbrokenBracketed(cfg, f, v);
    lo, hi := GrowthBrackets(f, v, n);
    NanoGrowthIs(f, v, n);
    Telescopes(f, v, n);
    var t := v[n].counters.time - v[0].counters.time;
    BracketedQuotient(Growth(f, v, n) * NANOS, t, RateOf(f, v[lo]), RateOf(f, v[hi]));
  }

  lemma WholeRateBetween(cfg: Config, f: Field, v: seq<Instant>)
    requires cfg.max < cfg.outOfRange && Unbroken(cfg, v) && |v| >= 2 && Growth(f, v, |v| - 1) < TWO64
    ensures Between(RateOf(f, ComputeDelta(cfg, v[0], v[|v| - 1])), Column(f, Published(cfg, v)))
  {
    var lo, hi := WholeRate(cfg, f, v);
    var pub := Published(cfg, v);
    var shift := |v| - |pub|;
    assert pub[lo - shift] == v[lo] && pub[hi - shift] == v[hi];
    assert Column(f, pub)[lo - shift] == RateOf(f, v[lo]);
    assert Column(f, pub)[hi - shift] == RateOf(f, v[hi]);
  }

  lemma BracketedQuotient(x: nat, t: nat, lo: nat, hi: nat)
    requires t > 0 && lo * t <= x < (hi + 1) * t
    ensures lo <= x / t <= hi
  {
    var q := x / t;
    DivisionBrackets(x, t);
    if q < lo { MulMonotone(t, q + 1, lo); }
    if q > hi { MulMonotone(t, hi + 1, q); }
  }

  /** THE WINDOW LAW. For every run of polls derived one from the other, with resets, wraps and gaps, the
      published average of either rate lies between two published samples, unless the counter of a full window
      grew by 2^64 or more. */
  lemma {:induction false} AverageWithinPublished(cfg: Config, f: Field, polls: seq<Poll>, k: SeriesKey)
    requires cfg.max < cfg.outOfRange && cfg.size * cfg.max < TWO64
    requires Chained(cfg, polls) && TimesIncrease(polls, k)
    requires GrowthFits(cfg, f, Survivors(cfg, Window(cfg, polls), k))
    requires |Survivors(cfg, Window(cfg, polls), k)| >= 2
    ensures var v := Survivors(cfg, Window(cfg, polls), k);
            Between(RateOf(f, Summary(cfg, v)), Column(f, Published(cfg, v)))
  {
    var v := Survivors(cfg, Window(cfg, polls), k);
    var whole := RateOf(f, ComputeDelta(cfg, v[0], v[|v| - 1]));
    AverageIs(cfg, f, v);
    if Anomalous(cfg, |v|, whole) {
      MeanOfKept(cfg, f, v);
    } else {
      ChainedWindowUnbroken(cfg, polls, k);
      WholeRateBetween(cfg, f, v);
    }
  }

  lemma AverageIs(cfg: Config, f: Field, v: seq<Instant>)
    requires |v| >= 2
    ensures RateOf(f, Summary(cfg, v)) == Average(cfg, f, v)
  {
  }

  /** The conditions of the window law, for one series. */
  ghost predicate LawApplies(cfg: Config, polls: seq<Poll>, k: SeriesKey) {
    && cfg.max < cfg.outOfRange && cfg.size * cfg.max < TWO64
    && Chained(cfg, polls) && TimesIncrease(polls, k)
    && |Survivors(cfg, Window(cfg, polls), k)| >= 2
    && forall f :: GrowthFits(cfg, f, Survivors(cfg, Window(cfg, polls), k))
  }

  /** No counter can grow that much while the span of the window is short enough. */
  lemma ShortSpanFits(cfg: Config, f: Field, polls: seq<Poll>, k: SeriesKey)
    requires cfg.max < cfg.outOfRange
    requires Chained(cfg, polls) && TimesIncrease(polls, k)
    requires SpanFits(cfg, Survivors(cfg, Window(cfg, polls), k))
    ensures GrowthFits(cfg, f, Survivors(cfg, Window(cfg, polls), k))
  {
    var v := Survivors(cfg, Window(cfg, polls), k);
    if |v| == cfg.size >= 2 {
      ChainedWindowUnbroken(cfg, polls, k);
      ShortSpanGrowth(cfg, f, v);
    }
  }

  /** Without wrap-around the fallback is the exact integer mean of the published samples. */
  lemma MeanOfKept(cfg: Config, f: Field, v: seq<Instant>)
    requires 2 <= |v| <= cfg.size && cfg.size * cfg.max < TWO64
    requires forall i :: 0 <= i < |v| ==> Keep(cfg, v[i])
    ensures var xs := Column(f, Published(cfg, v));
            Mean64(xs) == Sum(xs) / |xs| && Between(Mean64(xs), xs)
  {
    var xs := Column(f, Published(cfg, v));
    SmallSum(xs, cfg.max, cfg.size);
    ExactMean(xs);
    MeanBetween(xs);
  }

  lemma ExactMean(xs: seq<u64>)
    requires xs != [] && Sum(xs) < TWO64
    ensures Mean64(xs) == Sum(xs) / |xs|
  {
    SmallModulus(Sum(xs));
  }

  lemma SmallSum(xs: seq<u64>, max: nat, size: nat)
    requires |xs| <= size && size * max < TWO64
    requires forall i :: 0 <= i < |xs| ==> xs[i] <= max
    ensures Sum(xs) < TWO64
  {
    SumBounds(xs, 0, max);
    MulMonotone(max, |xs|, size);
  }

  /** The average is the growth per second from the first sample to the last, if that is acceptable. */
  ghost predicate PublishesGrowth(cfg: Config, f: Field, v: seq<Instant>)
    requires |v| >= 2
  {
    var n := |v| - 1;
    var rate := Div64Of(Growth(f, v, n) * NANOS, v[n].counters.time - v[0].counters.time);
    ToInt64(rate) >= cfg.min ==> RateOf(f, Summary(cfg, v)) == rate
  }

  /** A full window publishes its exact growth per second, unless that is below the accepted minimum. */
  lemma {:induction false} FullWindowAverage(cfg: Config, f: Field, polls: seq<Poll>, k: SeriesKey)
    requires cfg.max < cfg.outOfRange
    requires Chained(cfg, polls) && TimesIncrease(polls, k)
    requires GrowthFits(cfg, f, Survivors(cfg, Window(cfg, polls), k))
    requires |Survivors(cfg, Window(cfg, polls), k)| == cfg.size >= 2
    ensures PublishesGrowth(cfg, f, Survivors(cfg, Window(cfg, polls), k))
  {
    ChainedWindowUnbroken(cfg, polls, k);
    UnbrokenAverage(cfg, f, Survivors(cfg, Window(cfg, polls), k));
  }

  lemma UnbrokenAverage(cfg: Config, f: Field, v: seq<Instant>)
    requires cfg.max < cfg.outOfRange && Unbroken(cfg, v) && GrowthFits(cfg, f, v) && |v| == cfg.size >= 2
    ensures PublishesGrowth(cfg, f, v)
  {
    var lo, hi := WholeRate(cfg, f, v);
    WholeIsAverage(cfg, f, v);
  }

  /** Over any span below 2^64 seconds the last-minus-first rate of unbroken samples is their growth per second
      exactly when the growth fits a word. */
  lemma {:induction false} WholeRateIff(cfg: Config, f: Field, v: seq<Instant>)
    requires cfg.max < cfg.outOfRange && Unbroken(cfg, v) && |v| >= 2
    requires v[|v| - 1].counters.time - v[0].counters.time <= TWO64 * NANOS
    ensures var n := |v| - 1;
            var t := v[n].counters.time - v[0].counters.time;
            && t > 0
            && (RateOf(f, ComputeDelta(cfg, v[0], v[n])) == Growth(f, v, n) * NANOS / t <==> Growth(f, v, n) < TWO64)
  {
    var n := |v| - 1;
    var g, t := Growth(f, v, n), v[n].counters.time - v[0].counters.time;
    UnbrokenBracketed(cfg, f, v);
    var lo, hi := GrowthBrackets(f, v, n);
    NanoGrowthIs(f, v, n);
    BracketedQuotient(g * NANOS, t, RateOf(f, v[lo]), RateOf(f, v[hi]));
    WrappedGrowth(f, v, n);
    Wrapping(g, t, cfg.max);
  }

  /** Losing a multiple of 2^64 lowers the rate. */
  lemma Wrapping(g: nat, t: nat, max: u64)
    requires 0 < t <= TWO64 * NANOS && g * NANOS / t <= max
    ensures g % TWO64 * NANOS / t <= max
    ensures g % TWO64 * NANOS / t == g * NANOS / t <==> g < TWO64
  {
    if g < TWO64 {
      SmallModulus(g);
    } else {
      var q := g * NANOS / t;
      DivisionBrackets(g * NANOS, t);
      assert g % TWO64 <= g - TWO64;
      assert g % TWO64 * NANOS <= g * NANOS - TWO64 * NANOS;
      assert (q + 1) * t == q * t + t;
      BelowQuotient(g % TWO64 * NANOS, t, q);
    }
  }

  lemma BelowQuotient(x: nat, t: nat, q: nat)
    requires t > 0 && x < q * t
    ensures x / t < q
  {
    DivisionBrackets(x, t);
    if x / t >= q { MulMonotone(t, q, x / t); }
  }

  lemma WholeIsAverage(cfg: Config, f: Field, v: seq<Instant>)
    requires |v| == cfg.size >= 2
    ensures var whole := RateOf(f, ComputeDelta(cfg, v[0], v[|v| - 1]));
            whole <= cfg.max && ToInt64(whole) >= cfg.min ==> RateOf(f, Summary(cfg, v)) == whole
  {
  }

  /** A series with a gap publishes the mean of its published samples. */
  lemma ShortWindowAverage(cfg: Config, f: Field, v: seq<Instant>)
    requires 2 <= |v| < cfg.size && cfg.size * cfg.max < TWO64
    requires forall i :: 0 <= i < |v| ==> Keep(cfg, v[i])
    ensures var xs := Column(f, Published(cfg, v));
            RateOf(f, Summary(cfg, v)) == Sum(xs) / |xs|
  {
    MeanOfKept(cfg, f, v);
  }

  /** So does a full window whose last-minus-first rate is out of range. */
  lemma RefusedWindowAverage(cfg: Config, f: Field, v: seq<Instant>)
    requires 2 <= |v| <= cfg.size && cfg.size * cfg.max < TWO64
    requires forall i :: 0 <= i < |v| ==> Keep(cfg, v[i])
    requires var whole := RateOf(f, ComputeDelta(cfg, v[0], v[|v| - 1])); whole > cfg.max || ToInt64(whole) < cfg.min
    ensures var xs := Column(f, Published(cfg, v));
            RateOf(f, Summary(cfg, v)) == Sum(xs) / |xs|
  {
    AverageIs(cfg, f, v);
    MeanOfKept(cfg, f, v);
  }

  /** All samples are published, or all but the first. */
  lemma PublishedSuffix(cfg: Config, v: seq<Instant>)
    requires v != []
    ensures |Published(cfg, v)| == |v| - if cfg.dropFirst then 1 else 0
    ensures Published(cfg, v) == v[|v| - |Published(cfg, v)|..]
  {
  }

  /** The other fields of the summary: the mean of the published memory samples, and the out-of-memory events
      between the first and the last sample. Below two samples everything is zero. */
  lemma SummaryFields(cfg: Config, v: seq<Instant>)
    requires forall i :: 0 <= i < |v| ==> v[i].counters.time > 0
    ensures var s, n := Summary(cfg, v), |v| - 1;
            if n < 1 then s.cpuRate == s.throttleRate == s.memory == s.oomDelta == s.oomKillDelta == 0
            else
              && s.counters == v[n].counters
              && Add64(v[0].counters.oom, s.oomDelta) == v[n].counters.oom
              && Add64(v[0].counters.oomKill, s.oomKillDelta) == v[n].counters.oomKill
    ensures var xs := MemoryColumn(Published(cfg, v));
            |v| >= 2 && Sum(xs) < TWO64 ==>
              Summary(cfg, v).memory == Sum(xs) / |xs| && Between(Summary(cfg, v).memory, xs)
  {
    var xs := MemoryColumn(Published(cfg, v));
    if |v| >= 2 && Sum(xs) < TWO64 {
      ExactMean(xs);
      MeanBetween(xs);
    }
  }

  /** The fields of a derived sample that are neither filtered nor averaged. */
  lemma DerivedFields(cfg: Config, last: Instant, s: Instant)
    requires last.counters.time > 0 && s == ComputeDelta(cfg, last, Raw(s.counters))
    ensures Add64(last.counters.oom, s.oomDelta) == s.counters.oom
    ensures Add64(last.counters.oomKill, s.oomKillDelta) == s.counters.oomKill
    ensures s.memory == s.counters.memory
    ensures var a, b := last.counters, s.counters;
            if a.periods == b.periods then s.percentThrottled == 0.0
            else
              s.percentThrottled * (b.periods - a.periods) as real == (b.throttledPeriods - a.throttledPeriods) as real
  {
    var a, b := last.counters, s.counters;
    if a.periods != b.periods {
      RatioUndone((b.throttledPeriods - a.throttledPeriods) as real, (b.periods - a.periods) as real);
    }
  }

  lemma RatioUndone(x: real, y: real)
    requires y != 0.0
    ensures x / y * y == x
  {
  }

  /** `rate` is what a growth of `d` over `dt` nanoseconds is per second, rounded down, if that fits a word. */
  ghost predicate Floored(d: u64, dt: int, rate: u64) {
    dt > 0 && d * NANOS < TWO64 * dt ==> rate * dt <= d * NANOS < (rate + 1) * dt
  }

  lemma NormalizedFloor(cfg: Config, before: u64, after: u64, dt: int)
    ensures Floored(Sub64(after, before), dt, NormalizeSeconds(cfg, before, after, dt))
  {
    var n := Sub64(after, before) * NANOS;
    if dt > 0 && n < TWO64 * dt {
      DivisionBrackets(n, dt);
      BelowQuotient(n, dt, TWO64);
    }
  }

  /** The scheduling periods per second are rounded down like the other rates. */
  lemma PeriodsRate(cfg: Config, last: Instant, s: Instant)
    requires last.counters.time > 0 && s == ComputeDelta(cfg, last, Raw(s.counters))
    ensures var a, b := last.counters, s.counters;
            && Floored(Sub64(b.periods, a.periods), b.time - a.time, s.periodsRate)
            && Floored(Sub64(b.throttledPeriods, a.throttledPeriods), b.time - a.time, s.throttledPeriodsRate)
  {
    var a, b := last.counters, s.counters;
    NormalizedFloor(cfg, a.periods, b.periods, b.time - a.time);
    NormalizedFloor(cfg, a.throttledPeriods, b.throttledPeriods, b.time - a.time);
  }

  // ---------------------------------------------------------------- unconditional bound

  /** Whatever the counters, times and configuration, a published average never exceeds the maximum. */
  lemma AverageNeverExceedsMax(cfg: Config, f: Field, v: seq<Instant>)
    requires forall i :: 0 <= i < |v| ==> Keep(cfg, v[i])
    ensures RateOf(f, Summary(cfg, v)) <= cfg.max
  {
    if |v| >= 2 {
      AverageIs(cfg, f, v);
      MeanAtMost(Column(f, Published(cfg, v)), cfg.max);
    }
  }

  /** A wrapped sum is not above the exact one, so the mean stays below the largest entry. */
  lemma MeanAtMost(xs: seq<u64>, max: u64)
    requires xs != [] && forall i :: 0 <= i < |xs| ==> xs[i] <= max
    ensures Mean64(xs) <= max
  {
    SumBounds(xs, 0, max);
    QuotientBetween(Sum(xs) % TWO64, |xs|, 0, max);
  }

  // ---------------------------------------------------------------- lifetime of a sample

  lemma {:induction false} SurvivorsAre(cfg: Config, polls: seq<Poll>, k: SeriesKey, s: Instant)
    ensures s in Survivors(cfg, polls, k) <==>
            Keep(cfg, s) && exists j :: 0 <= j < |polls| && k in polls[j] && polls[j][k] == s
  {
    if polls != [] {
      var n := |polls| - 1;
      SurvivorsAre(cfg, polls[..n], k, s);
      assert forall j :: 0 <= j < n ==> polls[..n][j] == polls[j];
    }
  }

  /** Poll `j` holds an acceptable sample of `k`. */
  predicate Accepts(cfg: Config, polls: seq<Poll>, k: SeriesKey, j: nat)
    requires j < |polls|
  {
    k in polls[j] && Keep(cfg, polls[j][k])
  }

  /** `v` holds the acceptable samples of the series, each once and in poll order; `at` says from which polls. */
  ghost predicate PicksAccepted(cfg: Config, polls: seq<Poll>, k: SeriesKey, v: seq<Instant>, at: seq<nat>) {
    && |at| == |v|
    && (forall i :: 0 <= i < |at| ==> at[i] < |polls| && Accepts(cfg, polls, k, at[i]) && v[i] == polls[at[i]][k])
    && (forall i, j :: 0 <= i < j < |at| ==> at[i] < at[j])
    && (forall j: nat :: j < |polls| && Accepts(cfg, polls, k, j) ==> j in at)
  }

  lemma PickOneMore(cfg: Config, polls: seq<Poll>, p: Poll, k: SeriesKey, v: seq<Instant>, at: seq<nat>)
    requires PicksAccepted(cfg, polls, k, v, at)
    ensures if k in p && Keep(cfg, p[k]) then PicksAccepted(cfg, polls + [p], k, v + [p[k]], at + [|polls|])
            else PicksAccepted(cfg, polls + [p], k, v, at)
  {
    var more: seq<Poll> := polls + [p];
    forall j: nat | j < |polls|
      ensures more[j] == polls[j] && (Accepts(cfg, more, k, j) <==> Accepts(cfg, polls, k, j))
    {
    }
    assert more[|polls|] == p;
    if k in p && Keep(cfg, p[k]) {
      var at' := at + [|polls|];
      forall j: nat | j < |more| && Accepts(cfg, more, k, j) ensures j in at' {
        if j == |polls| { assert at'[|at|] == j; } else { assert j in at; }
      }
    }
  }

  lemma {:induction false} SurvivorsInOrder(cfg: Config, polls: seq<Poll>, k: SeriesKey) returns (at: seq<nat>)
    ensures PicksAccepted(cfg, polls, k, Survivors(cfg, polls, k), at)
  {
    at := [];
    if polls != [] {
      var n := |polls| - 1;
      var before := SurvivorsInOrder(cfg, polls[..n], k);
      PickOneMore(cfg, polls[..n], polls[n], k, Survivors(cfg, polls[..n], k), before);
      at := if Accepts(cfg, polls, k, n) then before + [n] else before;
      assert polls == polls[..n] + [polls[n]];
    }
  }

  /** The growth of a counter from `last` to `s` is at most the accepted maximum per second. */
  ghost predicate StepAccepted(cfg: Config, f: Field, last: Instant, s: Instant) {
    Sub64(Counter(f, s), Counter(f, last)) * NANOS < (cfg.max + 1) * (s.counters.time - last.counters.time)
  }

  lemma NormalizedAccepted(cfg: Config, before: u64, after: u64, dt: int)
    requires cfg.max < cfg.outOfRange
    ensures NormalizeSeconds(cfg, before, after, dt) <= cfg.max <==>
            dt < 0 || Sub64(after, before) * NANOS < (cfg.max + 1) * dt
  {
    if dt > 0 {
      var n := Sub64(after, before) * NANOS;
      DivisionBrackets(n, dt);
      var q := n / dt;
      if q <= cfg.max {
        MulMonotone(dt, q + 1, cfg.max + 1);
      } else {
        MulMonotone(dt, cfg.max + 1, q);
      }
    }
  }

  /** Both counters grew by an accepted step from `last` to `s`, or time ran backwards. */
  ghost predicate BothAccepted(cfg: Config, last: Instant, s: Instant) {
    s.counters.time < last.counters.time || forall f :: StepAccepted(cfg, f, last, s)
  }

  lemma DerivedKept(cfg: Config, last: Instant, s: Instant)
    requires cfg.max < cfg.outOfRange && s == ComputeDelta(cfg, last, Raw(s.counters))
    ensures Keep(cfg, s) <==> last.counters.time > 0 && BothAccepted(cfg, last, s)
  {
    var dt := s.counters.time - last.counters.time;
    NormalizedAccepted(cfg, last.counters.cpu, s.counters.cpu, dt);
    NormalizedAccepted(cfg, last.counters.throttled, s.counters.throttled, dt);
    assert StepAccepted(cfg, Cpu, last, s) <==> Sub64(s.counters.cpu, last.counters.cpu) * NANOS < (cfg.max + 1) * dt;
    assert StepAccepted(cfg, Throttle, last, s) <==>
           Sub64(s.counters.throttled, last.counters.throttled) * NANOS < (cfg.max + 1) * dt;
  }

  /** Poll `i` of a derived run has a predecessor to derive its sample from, and the step is accepted. */
  ghost predicate Reportable(cfg: Config, polls: seq<Poll>, k: SeriesKey, i: nat)
    requires i < |polls| && k in polls[i]
  {
    i > 0 && k in polls[i - 1] && polls[i - 1][k].counters.time > 0 && BothAccepted(cfg, polls[i - 1][k], polls[i][k])
  }

  lemma KeptWhen(cfg: Config, polls: seq<Poll>, k: SeriesKey, i: nat)
    requires cfg.max < cfg.outOfRange && Chained(cfg, polls) && i < |polls| && k in polls[i]
    ensures Keep(cfg, polls[i][k]) <==> Reportable(cfg, polls, k, i)
  {
    var last := LastSample(polls[..i], k);
    assert Linked(cfg, polls, i);
    DerivedKept(cfg, last, polls[i][k]);
  }

  /** WHAT IS REPORTED. In every run of derived polls a sample is left by the filter exactly when the poll before
      has one of the same series, and from there both counters grew by at most the maximum per second, or time ran
      backwards. It is then in the report for as long as its poll is in the window. */
  lemma ReportedIff(cfg: Config, polls: seq<Poll>, k: SeriesKey, i: nat)
    requires cfg.max < cfg.outOfRange && Chained(cfg, polls) && i < |polls| && k in polls[i]
    ensures polls[i][k] in Survivors(cfg, polls, k) <==> Reportable(cfg, polls, k, i)
    ensures i + cfg.size >= |polls| ==>
              (polls[i][k] in Survivors(cfg, Window(cfg, polls), k) <==> Reportable(cfg, polls, k, i))
  {
    KeptWhen(cfg, polls, k, i);
    SurvivorsAre(cfg, polls, k, polls[i][k]);
    var w := Window(cfg, polls);
    SurvivorsAre(cfg, w, k, polls[i][k]);
    if i + cfg.size >= |polls| {
      assert w[i - (|polls| - |w|)] == polls[i];
    }
  }

  /** Poll `i` is in the window after poll `m` exactly while `m` is among the `size` polls that start with it. */
  lemma WindowHolds(cfg: Config, polls: seq<Poll>, k: SeriesKey, i: nat, m: nat)
    requires TimesIncrease(polls, k) && i < |polls| && m <= |polls| && k in polls[i]
    ensures var w := Window(cfg, polls[..m]);
            (exists j :: 0 <= j < |w| && k in w[j] && w[j][k] == polls[i][k]) <==> i < m <= i + cfg.size
  {
    var w := Window(cfg, polls[..m]);
    var off := m - |w|;
    assert forall j :: 0 <= j < |w| ==> w[j] == polls[off + j];
    if i < m <= i + cfg.size {
      assert w[i - off] == polls[i];
    }
  }

  /** A kept sample taken in poll `i` is reported after poll `m` exactly while `m` is among
      the `size` polls that start with its own. */
  lemma SampleLifetime(cfg: Config, polls: seq<Poll>, k: SeriesKey, i: nat, m: nat)
    requires TimesIncrease(polls, k)
    requires i < |polls| && m <= |polls| && k in polls[i] && Keep(cfg, polls[i][k])
    ensures polls[i][k] in Survivors(cfg, Window(cfg, polls[..m]), k) <==> i < m <= i + cfg.size
  {
    WindowHolds(cfg, polls, k, i, m);
    SurvivorsAre(cfg, Window(cfg, polls[..m]), k, polls[i][k]);
  }

  // ---------------------------------------------------------------- resets

  /** A counter reset by at most 2^63 makes the next sample unacceptable, so it leaves a gap. */
  lemma ResetIsDropped(cfg: Config, f: Field, last: Instant, s: Instant)
    requires cfg.max < cfg.outOfRange
    requires Follows(cfg, last, s) && last.counters.time > 0
    requires 0 < Counter(f, last) - Counter(f, s) <= TWO63
    requires (cfg.max + 1) * (s.counters.time - last.counters.time) <= TWO63 * NANOS
    ensures !Keep(cfg, s)
  {
    if Keep(cfg, s) {
      RateBrackets(cfg, f, last, s);
      SmallGrowth(Sub64(Counter(f, s), Counter(f, last)), s.counters.time - last.counters.time, RateOf(f, s), cfg.max);
    }
  }

  lemma SmallGrowth(d: nat, dt: nat, rate: nat, max: nat)
    requires d * NANOS < (rate + 1) * dt && rate <= max && (max + 1) * dt <= TWO63 * NANOS
    ensures d < TWO63
  {
    MulMonotone(dt, rate + 1, max + 1);
  }
}
