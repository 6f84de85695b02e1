/** How far the window law reaches: runs built from given readings, and the exact condition on poll times. */
module WindowLimits {
  import opened Words
  import opened SampleSpec
  import opened WindowTheorems

  // ---------------------------------------------------------------- runs from readings

  /** The sample of reading `i`, derived against the reading before it. */
  function SampleAt(cfg: Config, rs: seq<Reading>, i: nat): Instant
    requires i < |rs|
  {
    if i == 0 then Raw(rs[0]) else ComputeDelta(cfg, Raw(rs[i - 1]), Raw(rs[i]))
  }

  /** The samples of the readings, in order. */
  function Samples(cfg: Config, rs: seq<Reading>): (ss: seq<Instant>)
    ensures |ss| == |rs|
  {
    if rs == [] then [] else Samples(cfg, rs[..|rs| - 1]) + [SampleAt(cfg, rs, |rs| - 1)]
  }

  lemma {:induction false} SamplesAt(cfg: Config, rs: seq<Reading>, i: nat)
    requires i < |rs|
    ensures Samples(cfg, rs)[i] == SampleAt(cfg, rs, i)
  {
    if i < |rs| - 1 {
      SamplesAt(cfg, rs[..|rs| - 1], i);
    }
  }

  lemma SamplesCounters(cfg: Config, rs: seq<Reading>)
    ensures forall i :: 0 <= i < |rs| ==> Samples(cfg, rs)[i].counters == rs[i]
  {
    forall i | 0 <= i < |rs| ensures Samples(cfg, rs)[i].counters == rs[i] {
      SamplesAt(cfg, rs, i);
    }
  }

  /** The run that polls the one series `k` and reads `rs`. */
  function Polled(cfg: Config, k: SeriesKey, rs: seq<Reading>): (polls: seq<Poll>)
    ensures |polls| == |rs|
    ensures forall i :: 0 <= i < |rs| ==> polls[i] == map[k := Samples(cfg, rs)[i]]
  {
    var ss := Samples(cfg, rs);
    seq(|rs|, i requires 0 <= i < |rs| => map[k := ss[i]])
  }

  ghost predicate Increasing(times: seq<nat>) {
    && (forall i :: 0 <= i < |times| ==> times[i] > 0)
    && (forall i, j :: 0 <= i < j < |times| ==> times[i] < times[j])
  }

  function TimesOf(rs: seq<Reading>): (times: seq<nat>)
    ensures |times| == |rs|
    ensures forall i :: 0 <= i < |rs| ==> times[i] == rs[i].time
  {
    seq(|rs|, i requires 0 <= i < |rs| => rs[i].time)
  }

  lemma PolledLinked(cfg: Config, k: SeriesKey, rs: seq<Reading>, i: nat)
    requires i < |rs|
    ensures Linked(cfg, Polled(cfg, k, rs), i)
  {
    var polls := Polled(cfg, k, rs);
    var last := LastSample(polls[..i], k);
    SamplesAt(cfg, rs, i);
    if i > 0 {
      assert polls[..i][i - 1] == polls[i - 1];
      SamplesAt(cfg, rs, i - 1);
      OnlyCountersMatter(cfg, last, Raw(rs[i - 1]), Raw(rs[i]));
    } else {
      assert last == NO_INSTANT;
    }
  }

  lemma OnlyCountersMatter(cfg: Config, last: Instant, last': Instant, s: Instant)
    requires last.counters == last'.counters
    ensures ComputeDelta(cfg, last, s) == ComputeDelta(cfg, last', s)
  {
  }

  lemma PolledChained(cfg: Config, k: SeriesKey, rs: seq<Reading>)
    requires Increasing(TimesOf(rs))
    ensures Chained(cfg, Polled(cfg, k, rs)) && TimesIncrease(Polled(cfg, k, rs), k)
  {
    var polls := Polled(cfg, k, rs);
    forall i: nat | i < |polls| ensures Linked(cfg, polls, i) {
      PolledLinked(cfg, k, rs, i);
    }
    SamplesCounters(cfg, rs);
    forall i, j | 0 <= i < j < |polls| ensures polls[i][k].counters.time < polls[j][k].counters.time {
      assert TimesOf(rs)[i] < TimesOf(rs)[j];
    }
  }

  /** Polls that all hold an acceptable sample of `k` lose nothing. */
  lemma {:induction false} AllSurvive(cfg: Config, polls: seq<Poll>, k: SeriesKey)
    requires forall i :: 0 <= i < |polls| ==> k in polls[i] && Keep(cfg, polls[i][k])
    ensures |Survivors(cfg, polls, k)| == |polls|
  {
    if polls != [] {
      AllSurvive(cfg, polls[..|polls| - 1], k);
    }
  }

  /** A full window of acceptable samples after more polls than the ring has slots. */
  lemma PolledWindow(cfg: Config, k: SeriesKey, rs: seq<Reading>) returns (v: seq<Instant>)
    requires |rs| > cfg.size
    requires forall i :: 1 <= i < |rs| ==> Keep(cfg, Samples(cfg, rs)[i])
    ensures v == Survivors(cfg, Window(cfg, Polled(cfg, k, rs)), k)
    ensures v == Samples(cfg, rs)[|rs| - cfg.size..]
  {
    var w := Window(cfg, Polled(cfg, k, rs));
    var ss := Samples(cfg, rs);
    forall i | 0 <= i < |w| ensures w[i] == map[k := ss[|rs| - cfg.size + i]] {
    }
    AllSurvive(cfg, w, k);
    FullWindowHasNoGap(cfg, w, k);
    v := Survivors(cfg, w, k);
  }

  // ---------------------------------------------------------------- facts behind a name

  // `AtStep`, `AtRate` and `AtAverage` hold of every number. A predicate that says something about every number so
  // named is looked into only where a number is named.

  ghost predicate AtStep(i: nat) { true }

  ghost predicate AtRate(i: nat) { true }

  ghost predicate AtAverage(i: nat) { true }

  /** A growth of `x` over `t` nanoseconds is `r` per second, rounded down. */
  ghost predicate IsRate(x: nat, t: nat, r: nat) {
    forall i: nat {:trigger AtRate(i)} :: AtRate(i) ==> r * t <= x * NANOS < (r + 1) * t
  }

  lemma RateIs(x: nat, t: nat, r: nat)
    ensures IsRate(x, t, r) <==> r * t <= x * NANOS < (r + 1) * t
  {
    assert AtRate(0);
  }

  /** `whole` is the last-minus-first rate of `v`. */
  ghost predicate WholeIs(cfg: Config, f: Field, v: seq<Instant>, whole: u64)
    requires v != []
  {
    forall i: nat {:trigger AtAverage(i)} :: AtAverage(i) ==> whole == RateOf(f, ComputeDelta(cfg, v[0], v[|v| - 1]))
  }

  /** `r` is the published CPU average of `v`. */
  ghost predicate AverageOf(cfg: Config, v: seq<Instant>, r: nat) {
    forall i: nat {:trigger AtAverage(i)} :: AtAverage(i) ==> RateOf(Cpu, Summary(cfg, v)) == r
  }

  // ---------------------------------------------------------------- the law and its failure

  /** The average of either rate lies between two published samples, where there is an average. */
  ghost predicate LawHolds(cfg: Config, polls: seq<Poll>, k: SeriesKey) {
    var v := Survivors(cfg, Window(cfg, polls), k);
    |v| >= 2 ==> forall f :: Between(RateOf(f, Summary(cfg, v)), Column(f, Published(cfg, v)))
  }

  /** The CPU average is below every published sample. */
  ghost predicate AverageBelowAll(cfg: Config, v: seq<Instant>) {
    |v| >= 2 && forall x :: x in Column(Cpu, Published(cfg, v)) ==> RateOf(Cpu, Summary(cfg, v)) < x
  }

  lemma BelowAllBreaks(cfg: Config, polls: seq<Poll>, k: SeriesKey)
    requires AverageBelowAll(cfg, Survivors(cfg, Window(cfg, polls), k))
    ensures !LawHolds(cfg, polls, k)
  {
    var v := Survivors(cfg, Window(cfg, polls), k);
    var xs := Column(Cpu, Published(cfg, v));
    assert forall i :: 0 <= i < |xs| ==> xs[i] in xs;
    assert !Between(RateOf(Cpu, Summary(cfg, v)), xs);
  }

  /** Any two counters `x` apart show the rate `r` over `t` nanoseconds. */
  ghost predicate Yields(cfg: Config, x: u64, t: nat, r: u64) {
    forall a: u64, b: u64 {:trigger NormalizeSeconds(cfg, a, b, t)} ::
      Sub64(b, a) == x ==> NormalizeSeconds(cfg, a, b, t) == r
  }

  lemma RateYields(cfg: Config, x: u64, t: nat, r: u64)
    requires t > 0 && IsRate(x, t, r)
    ensures Yields(cfg, x, t, r)
  {
    RateIs(x, t, r);
    BracketedQuotient(x * NANOS, t, r, r);
  }

  /** The last-minus-first rate is published as it is when it is acceptable. */
  lemma WholeIsPublished(cfg: Config, v: seq<Instant>, t: nat, r: u64)
    requires |v| == cfg.size >= 2 && r <= cfg.max && cfg.min <= r < TWO63
    requires 0 < v[0].counters.time && v[|v| - 1].counters.time == v[0].counters.time + t && t > 0
    requires Yields(cfg, Sub64(v[|v| - 1].counters.cpu, v[0].counters.cpu), t, r)
    ensures RateOf(Cpu, Summary(cfg, v)) == r
  {
  }

  /** Every published sample of `v` shows more than `r`. */
  ghost predicate AllAbove(cfg: Config, v: seq<Instant>, r: nat) {
    |v| >= 2 && forall s :: s in Published(cfg, v) ==> s.cpuRate > r
  }

  /** `AverageBelowAll`, behind a name. */
  ghost predicate Below(cfg: Config, v: seq<Instant>) {
    forall i: nat {:trigger AtAverage(i)} :: AtAverage(i) ==> AverageBelowAll(cfg, v)
  }

  lemma BelowIs(cfg: Config, v: seq<Instant>)
    requires Below(cfg, v)
    ensures AverageBelowAll(cfg, v)
  {
    assert AtAverage(0);
  }

  lemma AverageBelow(cfg: Config, v: seq<Instant>, r: nat)
    requires AllAbove(cfg, v, r) && AverageOf(cfg, v, r)
    ensures Below(cfg, v)
  {
    assert AtAverage(0);
    var pub := Published(cfg, v);
    assert forall i :: 0 <= i < |pub| ==> pub[i] in pub;
  }

  // ---------------------------------------------------------------- readings that step

  function CpuReading(time: nat, cpu: u64): Reading {
    Reading(time, cpu, 0, 0, 0, 0, 0, 0)
  }

  /** Reading `r` comes `dt` nanoseconds after `before`, and only the CPU counter moved, by `d`. */
  ghost predicate StepsBy(before: Reading, r: Reading, dt: nat, d: u64) {
    0 < before.time && r.time == before.time + dt && Sub64(r.cpu, before.cpu) == d && r.throttled == before.throttled
  }

  /** A step of `d` over `dt` nanoseconds is acceptable and shows as a rate of at least `least`. */
  ghost predicate Acceptable(cfg: Config, dt: nat, d: nat, least: nat) {
    0 < dt && least * dt <= d * NANOS < (cfg.max + 1) * dt
  }

  lemma IdleRate(cfg: Config, c: u64, dt: nat)
    requires dt > 0
    ensures NormalizeSeconds(cfg, c, c, dt) == 0
  {
    assert 0 * NANOS / dt == 0;
  }

  lemma SteppedRate(cfg: Config, before: u64, after: u64, dt: nat, least: nat)
    requires Acceptable(cfg, dt, Sub64(after, before), least)
    ensures least <= NormalizeSeconds(cfg, before, after, dt) <= cfg.max
  {
    BracketedQuotient(Sub64(after, before) * NANOS, dt, least, cfg.max);
  }

  lemma SteppedSample(cfg: Config, before: Reading, r: Reading, dt: nat, d: u64, least: nat)
    requires StepsBy(before, r, dt, d) && Acceptable(cfg, dt, d, least)
    ensures var s := ComputeDelta(cfg, Raw(before), Raw(r));
            Keep(cfg, s) && s.cpuRate >= least
  {
    SteppedRate(cfg, before.cpu, r.cpu, dt, least);
    IdleRate(cfg, r.throttled, dt);
  }

  /** Nanoseconds between two polls. */
  type Gap = dt: nat | dt > 0 witness 1

  /** The readings step by `d`, the given gaps apart. */
  ghost predicate Stepping(rs: seq<Reading>, gaps: seq<Gap>, d: seq<u64>) {
    && |rs| == |gaps| + 1 == |d| + 1 && rs[0].time > 0
    && forall i :: 0 <= i < |gaps| ==> StepsBy(rs[i], rs[i + 1], gaps[i], d[i])
  }

  lemma {:induction false} SteppingInOrder(rs: seq<Reading>, gaps: seq<Gap>, d: seq<u64>, i: nat, j: nat)
    requires Stepping(rs, gaps, d) && i < j < |rs|
    ensures rs[i].time < rs[j].time
  {
    assert StepsBy(rs[j - 1], rs[j - 1 + 1], gaps[j - 1], d[j - 1]);
    if i < j - 1 {
      SteppingInOrder(rs, gaps, d, i, j - 1);
    }
  }

  /** A run with a reading of `k` in every poll, the polls being these gaps apart. */
  ghost predicate PolledEvery(cfg: Config, polls: seq<Poll>, k: SeriesKey, gaps: seq<Gap>) {
    && |polls| == |gaps| + 1 && Chained(cfg, polls)
    && (forall i :: 0 <= i < |polls| ==> k in polls[i])
    && polls[0][k].counters.time > 0
    && (forall i :: 0 <= i < |gaps| ==> polls[i + 1][k].counters.time == polls[i][k].counters.time + gaps[i])
  }

  lemma SteppingPolled(cfg: Config, k: SeriesKey, rs: seq<Reading>, gaps: seq<Gap>, d: seq<u64>)
    requires Stepping(rs, gaps, d)
    ensures PolledEvery(cfg, Polled(cfg, k, rs), k, gaps)
  {
    var polls: seq<Poll> := Polled(cfg, k, rs);
    forall i, j | 0 <= i < j < |rs| ensures TimesOf(rs)[i] < TimesOf(rs)[j] {
      SteppingInOrder(rs, gaps, d, i, j);
    }
    forall i | 0 <= i < |rs| ensures TimesOf(rs)[i] > 0 {
      if i > 0 { SteppingInOrder(rs, gaps, d, 0, i); }
    }
    PolledChained(cfg, k, rs);
    SamplesCounters(cfg, rs);
    forall i | 0 <= i < |gaps| ensures polls[i + 1][k].counters.time == polls[i][k].counters.time + gaps[i] {
      assert StepsBy(rs[i], rs[i + 1], gaps[i], d[i]);
    }
  }

  lemma {:induction false} ReadingsThatStep(gaps: seq<Gap>, d: seq<u64>) returns (rs: seq<Reading>)
    requires |gaps| == |d|
    ensures Stepping(rs, gaps, d)
  {
    if d == [] {
      rs := [CpuReading(1, 0)];
    } else {
      var n := |d| - 1;
      var before := ReadingsThatStep(gaps[..n], d[..n]);
      if n > 0 { SteppingInOrder(before, gaps[..n], d[..n], 0, n); }
      var r := NextReading(before[n], gaps[n], d[n]);
      rs := before + [r];
      StillStepping(before, gaps[..n], d[..n], r, gaps, d);
    }
  }

  function NextReading(before: Reading, dt: nat, d: u64): Reading {
    before.(time := before.time + dt, cpu := Add64(before.cpu, d))
  }

  lemma StillStepping(
      before: seq<Reading>, gaps0: seq<Gap>, d0: seq<u64>, r: Reading, gaps: seq<Gap>, d: seq<u64>)
    requires Stepping(before, gaps0, d0) && |gaps| == |d| == |d0| + 1
    requires gaps0 == gaps[..|d0|] && d0 == d[..|d0|]
    requires var n := |d0|; before[n].time > 0 && r == NextReading(before[n], gaps[n], d[n])
    ensures Stepping(before + [r], gaps, d)
  {
    forall i | 0 <= i < |gaps| ensures StepsBy((before + [r])[i], (before + [r])[i + 1], gaps[i], d[i]) {
      if i < |d0| {
        assert StepsBy(before[i], before[i + 1], gaps0[i], d0[i]);
      }
    }
  }

  /** The gaps of the polls in the window, and those before the published samples. */
  function WindowGaps(cfg: Config, gaps: seq<Gap>): seq<Gap>
    requires 2 <= cfg.size <= |gaps|
  {
    gaps[|gaps| + 1 - cfg.size..]
  }

  function PublishedGaps(cfg: Config, gaps: seq<Gap>): seq<Gap>
    requires 2 <= cfg.size <= |gaps|
  {
    if cfg.dropFirst then WindowGaps(cfg, gaps) else gaps[|gaps| - cfg.size..]
  }

  function Span(gaps: seq<Gap>): (t: nat)
    ensures gaps != [] ==> t > 0
  {
    if gaps == [] then 0 else Span(gaps[..|gaps| - 1]) + gaps[|gaps| - 1]
  }

  /** Sample `b` comes `dt` nanoseconds after `a`, the counter having moved by `d`. */
  ghost predicate Moves(f: Field, a: Instant, b: Instant, dt: nat, d: u64) {
    b.counters.time == a.counters.time + dt && Sub64(Counter(f, b), Counter(f, a)) == d
  }

  /** Consecutive samples these gaps and these steps apart. */
  ghost predicate Moving(f: Field, v: seq<Instant>, gaps: seq<Gap>, d: seq<u64>) {
    && |v| == |gaps| + 1 == |d| + 1
    && forall i :: 0 <= i < |gaps| ==> Moves(f, v[i], v[i + 1], gaps[i], d[i])
  }

  lemma MovingPrefix(f: Field, v: seq<Instant>, gaps: seq<Gap>, d: seq<u64>, n: nat)
    requires Moving(f, v, gaps, d) && n <= |d|
    ensures Moving(f, v[..n + 1], gaps[..n], d[..n])
  {
    forall i | 0 <= i < n ensures Moves(f, v[..n + 1][i], v[..n + 1][i + 1], gaps[..n][i], d[..n][i]) {
      assert Moves(f, v[i], v[i + 1], gaps[i], d[i]);
    }
  }

  lemma {:induction false} SpanIs(f: Field, v: seq<Instant>, gaps: seq<Gap>, d: seq<u64>)
    requires Moving(f, v, gaps, d)
    ensures v[|gaps|].counters.time == v[0].counters.time + Span(gaps)
  {
    if gaps != [] {
      var n := |gaps| - 1;
      MovingPrefix(f, v, gaps, d, n);
      SpanIs(f, v[..n + 1], gaps[..n], d[..n]);
      assert Moves(f, v[n], v[n + 1], gaps[n], d[n]);
    }
  }

  lemma {:induction false} GrowthIs(f: Field, v: seq<Instant>, gaps: seq<Gap>, d: seq<u64>, n: nat)
    requires Moving(f, v, gaps, d) && n <= |d|
    ensures Growth(f, v, n) == Sum(d[..n])
  {
    if n > 0 {
      GrowthIs(f, v, gaps, d, n - 1);
      assert d[..n][..n - 1] == d[..n - 1];
      assert Moves(f, v[n - 1], v[n - 1 + 1], gaps[n - 1], d[n - 1]);
    }
  }

  /** The last-minus-first rate of samples that move by 2^64 + x is that of `x`. */
  lemma WrappedAverage(cfg: Config, v: seq<Instant>, gaps: seq<Gap>, d: seq<u64>, x: u64, r: u64)
    requires |v| == cfg.size >= 2 && Moving(Cpu, v, gaps, d) && v[0].counters.time > 0
    requires Sum(d) == TWO64 + x && Yields(cfg, x, Span(gaps), r) && r <= cfg.max && cfg.min <= r < TWO63
    ensures RateOf(Cpu, Summary(cfg, v)) == r
  {
    SpanIs(Cpu, v, gaps, d);
    GrowthIs(Cpu, v, gaps, d, |d|);
    assert d[..|d|] == d;
    WrappedGrowth(Cpu, v, |d|);
    PlusTurn(x);
    WholeIsPublished(cfg, v, Span(gaps), r);
  }

  lemma PlusTurn(x: u64)
    ensures (TWO64 + x) % TWO64 == x
  {
  }

  /** Samples whose counters are these readings move as the readings step. */
  lemma SteppingMoves(v: seq<Instant>, rs: seq<Reading>, gaps: seq<Gap>, d: seq<u64>, off: nat)
    requires Stepping(rs, gaps, d) && off <= |gaps| && |v| == |rs| - off
    requires forall i :: 0 <= i < |v| ==> v[i].counters == rs[off + i]
    ensures Moving(Cpu, v, gaps[off..], d[off..])
  {
    forall i | 0 <= i < |gaps| - off ensures Moves(Cpu, v[i], v[i + 1], gaps[off..][i], d[off..][i]) {
      assert StepsBy(rs[off + i], rs[off + i + 1], gaps[off + i], d[off + i]);
    }
  }

  /** How much rate step `i` has to show: more than `r` before a published sample, nothing before the others. */
  function LeastAt(cfg: Config, n: nat, r: nat, i: nat): nat {
    if i + cfg.size >= n + (if cfg.dropFirst then 1 else 0) then r + 1 else 0
  }

  /** Every step is acceptable and shows the rate asked for. */
  ghost predicate AllAcceptable(cfg: Config, gaps: seq<Gap>, d: seq<u64>, r: nat)
    requires |gaps| == |d|
  {
    forall i: nat {:trigger AtStep(i)} ::
      i < |gaps| && AtStep(i) ==> Acceptable(cfg, gaps[i], d[i], LeastAt(cfg, |gaps|, r, i))
  }

  lemma AcceptableAt(cfg: Config, gaps: seq<Gap>, d: seq<u64>, r: nat, i: nat)
    requires i < |gaps| == |d| && AllAcceptable(cfg, gaps, d, r)
    ensures Acceptable(cfg, gaps[i], d[i], LeastAt(cfg, |gaps|, r, i))
  {
    assert AtStep(i);
  }

  /** Acceptable steps whose window adds up to 2^64 + x, while every published rate is above that of x. */
  ghost predicate Breaking(cfg: Config, gaps: seq<Gap>, d: seq<u64>, x: u64, r: u64)
    requires 2 <= cfg.size <= |gaps|
  {
    && |d| == |gaps| && AllAcceptable(cfg, gaps, d, r)
    && Sum(d[|gaps| + 1 - cfg.size..]) == TWO64 + x
    && Yields(cfg, x, Span(WindowGaps(cfg, gaps)), r) && cfg.min <= r < TWO63
  }

  /** The sample after step `i` is acceptable and shows the rate asked for. */
  ghost predicate ShownAt(cfg: Config, ss: seq<Instant>, n: nat, r: nat, i: nat)
    requires i + 1 < |ss|
  {
    Keep(cfg, ss[i + 1]) && ss[i + 1].cpuRate >= LeastAt(cfg, n, r, i)
  }

  /** The samples of these readings, all but the first acceptable and showing the rates asked for. */
  ghost predicate Shown(cfg: Config, ss: seq<Instant>, rs: seq<Reading>, gaps: seq<Gap>, r: nat)
    requires 2 <= cfg.size <= |gaps|
  {
    && |ss| == |rs| == |gaps| + 1
    && (forall i :: 0 <= i < |rs| ==> ss[i].counters == rs[i])
    && (forall i :: 0 <= i < |gaps| ==> ShownAt(cfg, ss, |gaps|, r, i))
  }

  lemma ShownSample(cfg: Config, rs: seq<Reading>, i: nat, dt: nat, d: u64, least: nat)
    requires i + 1 < |rs| && StepsBy(rs[i], rs[i + 1], dt, d) && Acceptable(cfg, dt, d, least)
    ensures Keep(cfg, Samples(cfg, rs)[i + 1]) && Samples(cfg, rs)[i + 1].cpuRate >= least
  {
    SamplesAt(cfg, rs, i + 1);
    SteppedSample(cfg, rs[i], rs[i + 1], dt, d, least);
  }

  lemma BreakingSample(cfg: Config, rs: seq<Reading>, gaps: seq<Gap>, d: seq<u64>, r: nat, i: nat)
    requires Stepping(rs, gaps, d) && i < |gaps| && AllAcceptable(cfg, gaps, d, r)
    ensures ShownAt(cfg, Samples(cfg, rs), |gaps|, r, i)
  {
    assert StepsBy(rs[i], rs[i + 1], gaps[i], d[i]);
    AcceptableAt(cfg, gaps, d, r, i);
    ShownSample(cfg, rs, i, gaps[i], d[i], LeastAt(cfg, |gaps|, r, i));
  }

  lemma BreakingShown(cfg: Config, rs: seq<Reading>, gaps: seq<Gap>, d: seq<u64>, r: nat)
    requires 2 <= cfg.size <= |gaps| && Stepping(rs, gaps, d) && AllAcceptable(cfg, gaps, d, r)
    ensures Shown(cfg, Samples(cfg, rs), rs, gaps, r)
  {
    var ss := Samples(cfg, rs);
    SamplesCounters(cfg, rs);
    forall i | 0 <= i < |gaps| ensures ShownAt(cfg, ss, |gaps|, r, i) {
      BreakingSample(cfg, rs, gaps, d, r, i);
    }
  }

  lemma ShownKept(cfg: Config, ss: seq<Instant>, rs: seq<Reading>, gaps: seq<Gap>, r: nat)
    requires 2 <= cfg.size <= |gaps| && Shown(cfg, ss, rs, gaps, r)
    ensures forall i :: 1 <= i < |rs| ==> Keep(cfg, ss[i])
  {
    forall i | 1 <= i < |rs| ensures Keep(cfg, ss[i]) {
      var j := i - 1;
      assert ShownAt(cfg, ss, |gaps|, r, j);
    }
  }

  lemma ShownPublished(cfg: Config, ss: seq<Instant>, rs: seq<Reading>, gaps: seq<Gap>, r: nat, off: nat)
    requires 2 <= cfg.size <= |gaps| && Shown(cfg, ss, rs, gaps, r) && off == |gaps| + 1 - cfg.size
    ensures AllAbove(cfg, ss[off..], r)
  {
    var pub := Published(cfg, ss[off..]);
    forall j | 0 <= j < |pub| ensures r < pub[j].cpuRate {
      var i := |gaps| - |pub| + j;
      assert pub[j] == ss[i + 1] && ShownAt(cfg, ss, |gaps|, r, i) && LeastAt(cfg, |gaps|, r, i) == r + 1;
    }
  }

  lemma ShownFits(cfg: Config, ss: seq<Instant>, rs: seq<Reading>, gaps: seq<Gap>, r: nat)
    requires 2 <= cfg.size <= |gaps| && Shown(cfg, ss, rs, gaps, r)
    ensures r < cfg.max
  {
    assert ShownAt(cfg, ss, |gaps|, r, |gaps| - 1) && LeastAt(cfg, |gaps|, r, |gaps| - 1) == r + 1;
  }

  lemma ShownMoves(cfg: Config, ss: seq<Instant>, rs: seq<Reading>, gaps: seq<Gap>, d: seq<u64>, r: nat, off: nat)
    requires 2 <= cfg.size <= |gaps| && Shown(cfg, ss, rs, gaps, r) && Stepping(rs, gaps, d)
    requires off == |gaps| + 1 - cfg.size
    ensures Moving(Cpu, ss[off..], gaps[off..], d[off..]) && ss[off].counters.time > 0
  {
    SteppingInOrder(rs, gaps, d, 0, off);
    SteppingMoves(ss[off..], rs, gaps, d, off);
  }

  lemma ShownAverage(
      cfg: Config, ss: seq<Instant>, rs: seq<Reading>, gaps: seq<Gap>, d: seq<u64>, x: u64, r: u64, off: nat)
    requires 2 <= cfg.size <= |gaps| && Shown(cfg, ss, rs, gaps, r) && Stepping(rs, gaps, d)
    requires Breaking(cfg, gaps, d, x, r) && off == |gaps| + 1 - cfg.size
    ensures AverageOf(cfg, ss[off..], r)
  {
    ShownMoves(cfg, ss, rs, gaps, d, r, off);
    ShownFits(cfg, ss, rs, gaps, r);
    WrappedAverage(cfg, ss[off..], gaps[off..], d[off..], x, r);
  }

  /** The window of the run with these readings. */
  lemma ShownWindow(cfg: Config, k: SeriesKey, rs: seq<Reading>, gaps: seq<Gap>, r: nat)
    requires 2 <= cfg.size <= |gaps| && Shown(cfg, Samples(cfg, rs), rs, gaps, r)
    ensures Survivors(cfg, Window(cfg, Polled(cfg, k, rs)), k) == Samples(cfg, rs)[|gaps| + 1 - cfg.size..]
  {
    ShownKept(cfg, Samples(cfg, rs), rs, gaps, r);
    var v := PolledWindow(cfg, k, rs);
  }

  // ---------------------------------------------------------------- the exact condition on the gaps

  /** The smallest step of a counter whose rate over `dt` nanoseconds is at least `rate`. */
  function LeastStep(rate: nat, dt: nat): nat {
    (rate * dt + NANOS - 1) / NANOS
  }

  /** The largest step that the filter accepts. */
  function MaxStep(cfg: Config, dt: Gap): u64 {
    var d := ((cfg.max + 1) * dt - 1) / NANOS;
    if d < TWO64 then d else TWO64 - 1
  }

  lemma LeastStepIs(rate: nat, dt: nat, d: nat)
    ensures LeastStep(rate, dt) <= d <==> rate * dt <= d * NANOS
  {
  }

  lemma AtMostQuotient(d: nat, x: nat)
    ensures x > 0 ==> (d * NANOS < x <==> d <= (x - 1) / NANOS)
  {
  }

  lemma MaxStepIs(cfg: Config, dt: Gap, d: u64)
    ensures d <= MaxStep(cfg, dt) <==> d * NANOS < (cfg.max + 1) * dt
  {
    AtMostQuotient(d, (cfg.max + 1) * dt);
  }

  function LeastSteps(rate: nat, gaps: seq<Gap>): (steps: seq<nat>)
    ensures |steps| == |gaps|
    ensures forall i :: 0 <= i < |gaps| ==> steps[i] == LeastStep(rate, gaps[i])
  {
    seq(|gaps|, i requires 0 <= i < |gaps| => LeastStep(rate, gaps[i]))
  }

  function MaxSteps(cfg: Config, gaps: seq<Gap>): (steps: seq<u64>)
    ensures |steps| == |gaps|
    ensures forall i :: 0 <= i < |gaps| ==> steps[i] == MaxStep(cfg, gaps[i])
  {
    seq(|gaps|, i requires 0 <= i < |gaps| => MaxStep(cfg, gaps[i]))
  }

  /** The smallest growth over a window that is not refused for being below the minimum, and its rate. Without a
      positive minimum both are zero. */
  function LeastGrowth(cfg: Config, span: nat): nat {
    LeastStep(if cfg.min <= 0 then 0 else cfg.min, span)
  }

  function LeastRate(cfg: Config, span: nat): nat
    requires span > 0
  {
    LeastGrowth(cfg, span) * NANOS / span
  }

  /** The filter accepts some rate above `r` over `dt` nanoseconds. */
  predicate Room(cfg: Config, r: nat, dt: Gap) {
    LeastStep(r + 1, dt) <= MaxStep(cfg, dt)
  }

  /** Counters polled these gaps apart can break the law: every published sample has room above the least rate, and
      the largest steps over the window add up to a full turn of the counter and the least growth. */
  ghost predicate Breakable(cfg: Config, gaps: seq<Gap>)
    requires 2 <= cfg.size <= |gaps|
  {
    var window := WindowGaps(cfg, gaps);
    var x, r := LeastGrowth(cfg, Span(window)), LeastRate(cfg, Span(window));
    && x < TWO64 && r < TWO63
    && (forall dt :: dt in PublishedGaps(cfg, gaps) ==> Room(cfg, r, dt))
    && TWO64 + x <= Sum(MaxSteps(cfg, window))
  }

  // ---------------------------------------------------------------- breakable gaps break the law

  /** Any total between the sums of the bounds can be reached step by step. */
  lemma {:induction false} Spread(lo: seq<nat>, hi: seq<u64>, total: nat) returns (d: seq<u64>)
    requires |lo| == |hi| && forall i :: 0 <= i < |lo| ==> lo[i] <= hi[i]
    requires Sum(lo) <= total <= Sum(hi)
    ensures |d| == |lo| && Sum(d) == total
    ensures forall i :: 0 <= i < |d| ==> lo[i] <= d[i] <= hi[i]
  {
    if lo == [] {
      d := [];
    } else {
      var n := |lo| - 1;
      SumOrdered(lo[..n], hi[..n]);
      var room := total - Sum(lo[..n]);
      var last: u64 := if room < hi[n] then room else hi[n];
      var before := Spread(lo[..n], hi[..n], total - last);
      d := before + [last];
      assert d[..n] == before;
      forall i | 0 <= i < |d| ensures lo[i] <= d[i] <= hi[i] {
        if i < n { assert lo[..n][i] <= before[i] <= hi[..n][i]; }
      }
    }
  }

  lemma {:induction false} SumOrdered(lo: seq<nat>, hi: seq<u64>)
    requires |lo| == |hi| && forall i :: 0 <= i < |lo| ==> lo[i] <= hi[i]
    ensures Sum(lo) <= Sum(hi)
  {
    if lo != [] {
      SumOrdered(lo[..|lo| - 1], hi[..|hi| - 1]);
    }
  }

  /** Rounding up costs less than one unit per step. */
  lemma {:induction false} LeastTotal(rate: nat, gaps: seq<Gap>)
    ensures Sum(LeastSteps(rate, gaps)) * NANOS <= rate * Span(gaps) + |gaps| * NANOS
  {
    if gaps != [] {
      var n := |gaps| - 1;
      var lo := LeastSteps(rate, gaps);
      LeastTotal(rate, gaps[..n]);
      assert lo[..n] == LeastSteps(rate, gaps[..n]);
      RoundingUp(rate, Span(gaps[..n]), gaps[n]);
    }
  }

  lemma RoundingUp(rate: nat, t: nat, dt: nat)
    ensures LeastStep(rate, dt) * NANOS + rate * t <= rate * (t + dt) + NANOS
  {
    assert rate * (t + dt) == rate * t + rate * dt;
  }

  /** The smallest steps above the least rate fit below a full turn and the least growth. */
  lemma LeastFits(r: nat, x: nat, gaps: seq<Gap>)
    requires IsRate(x, Span(gaps), r) && Span(gaps) <= TWO63 * NANOS && |gaps| <= TWO63
    ensures Sum(LeastSteps(r + 1, gaps)) <= TWO64 + x
  {
    RateIs(x, Span(gaps), r);
    LeastTotal(r + 1, gaps);
    var t := Span(gaps);
    assert (r + 1) * t == r * t + t;
  }

  lemma RoomAccepts(cfg: Config, r: nat, dt: Gap, d: u64)
    requires LeastStep(r + 1, dt) <= d <= MaxStep(cfg, dt)
    ensures Acceptable(cfg, dt, d, r + 1)
  {
    LeastStepIs(r + 1, dt, d);
    MaxStepIs(cfg, dt, d);
  }

  /** A step for a poll before the window: visible where there is room. */
  function EarlyStep(cfg: Config, r: nat, dt: Gap): u64 {
    if Room(cfg, r, dt) then LeastStep(r + 1, dt) else 0
  }

  lemma EarlyAccepted(cfg: Config, r: nat, dt: Gap)
    ensures Acceptable(cfg, dt, EarlyStep(cfg, r, dt), 0)
    ensures Room(cfg, r, dt) ==> Acceptable(cfg, dt, EarlyStep(cfg, r, dt), r + 1)
  {
    if Room(cfg, r, dt) {
      RoomAccepts(cfg, r, dt, LeastStep(r + 1, dt));
    }
  }

  /** Steps over the window that add up to the given total, all visible. */
  lemma WindowSteps(cfg: Config, gaps: seq<Gap>, r: nat, total: nat) returns (d: seq<u64>)
    requires forall i :: 0 <= i < |gaps| ==> Room(cfg, r, gaps[i])
    requires Sum(LeastSteps(r + 1, gaps)) <= total <= Sum(MaxSteps(cfg, gaps))
    ensures |d| == |gaps| && Sum(d) == total
    ensures forall i :: 0 <= i < |d| ==> Acceptable(cfg, gaps[i], d[i], r + 1)
  {
    var lo, hi := LeastSteps(r + 1, gaps), MaxSteps(cfg, gaps);
    assert forall i :: 0 <= i < |gaps| ==> Room(cfg, r, gaps[i]) && lo[i] <= hi[i];
    d := Spread(lo, hi, total);
    forall i | 0 <= i < |d| ensures Acceptable(cfg, gaps[i], d[i], r + 1) {
      assert lo[i] <= d[i] <= hi[i];
      RoomAccepts(cfg, r, gaps[i], d[i]);
    }
  }

  lemma PublishedGap(cfg: Config, gaps: seq<Gap>, i: nat)
    requires 2 <= cfg.size <= |gaps| && i < |gaps| && i + cfg.size >= |gaps| + (if cfg.dropFirst then 1 else 0)
    ensures gaps[i] in PublishedGaps(cfg, gaps)
  {
    var p := PublishedGaps(cfg, gaps);
    assert p[i - (|gaps| - |p|)] == gaps[i];
  }

  lemma EarlySteps(cfg: Config, gaps: seq<Gap>, r: nat, n: nat) returns (d: seq<u64>)
    requires n <= |gaps|
    ensures |d| == n
    ensures forall i :: 0 <= i < n ==> d[i] == EarlyStep(cfg, r, gaps[i])
  {
    d := seq(n, i requires 0 <= i < n => EarlyStep(cfg, r, gaps[i]));
  }

  lemma EarlyOrWindow(cfg: Config, gaps: seq<Gap>, r: nat, early: seq<u64>, window: seq<u64>, i: nat)
    requires 2 <= cfg.size <= |gaps| && i < |gaps|
    requires |early| == |gaps| + 1 - cfg.size && |window| == cfg.size - 1
    requires forall dt :: dt in PublishedGaps(cfg, gaps) ==> Room(cfg, r, dt)
    requires forall j :: 0 <= j < |early| ==> early[j] == EarlyStep(cfg, r, gaps[j])
    requires forall j :: 0 <= j < |window| ==> Acceptable(cfg, WindowGaps(cfg, gaps)[j], window[j], r + 1)
    ensures Acceptable(cfg, gaps[i], (early + window)[i], LeastAt(cfg, |gaps|, r, i))
  {
    if i < |early| {
      EarlyAccepted(cfg, r, gaps[i]);
      if LeastAt(cfg, |gaps|, r, i) > 0 { PublishedGap(cfg, gaps, i); }
    } else {
      assert Acceptable(cfg, WindowGaps(cfg, gaps)[i - |early|], window[i - |early|], r + 1);
    }
  }

  lemma WindowIsPublished(cfg: Config, gaps: seq<Gap>)
    requires 2 <= cfg.size <= |gaps|
    ensures forall dt :: dt in WindowGaps(cfg, gaps) ==> dt in PublishedGaps(cfg, gaps)
  {
    var w := WindowGaps(cfg, gaps);
    forall j | 0 <= j < |w| ensures w[j] in PublishedGaps(cfg, gaps) {
      PublishedGap(cfg, gaps, |gaps| + 1 - cfg.size + j);
    }
  }

  /** The least rate is that of the least growth, and not below the minimum. */
  lemma LeastRateIs(cfg: Config, span: nat)
    requires span > 0
    ensures IsRate(LeastGrowth(cfg, span), span, LeastRate(cfg, span)) && cfg.min <= LeastRate(cfg, span)
  {
    var w := if cfg.min <= 0 then 0 else cfg.min;
    var x, r := LeastGrowth(cfg, span), LeastRate(cfg, span);
    DivisionBrackets(x * NANOS, span);
    LeastStepIs(w, span, x);
    if r < w { MulMonotone(span, r + 1, w); }
    RateIs(x, span, r);
  }

  /** Steps before the window and in it, put together. */
  lemma JoinSteps(cfg: Config, gaps: seq<Gap>, r: nat, window: seq<u64>) returns (d: seq<u64>)
    requires 2 <= cfg.size <= |gaps| && |window| == cfg.size - 1
    requires forall dt :: dt in PublishedGaps(cfg, gaps) ==> Room(cfg, r, dt)
    requires forall j :: 0 <= j < |window| ==> Acceptable(cfg, WindowGaps(cfg, gaps)[j], window[j], r + 1)
    ensures |d| == |gaps| && AllAcceptable(cfg, gaps, d, r) && d[|gaps| + 1 - cfg.size..] == window
  {
    var early := EarlySteps(cfg, gaps, r, |gaps| + 1 - cfg.size);
    d := early + window;
    forall i: nat {:trigger AtStep(i)} | i < |gaps| && AtStep(i)
      ensures Acceptable(cfg, gaps[i], d[i], LeastAt(cfg, |gaps|, r, i))
    {
      EarlyOrWindow(cfg, gaps, r, early, window, i);
    }
  }

  lemma WindowRoom(cfg: Config, gaps: seq<Gap>, r: nat)
    requires 2 <= cfg.size <= |gaps| && forall dt :: dt in PublishedGaps(cfg, gaps) ==> Room(cfg, r, dt)
    ensures var w := WindowGaps(cfg, gaps); forall i :: 0 <= i < |w| ==> Room(cfg, r, w[i])
  {
    var w := WindowGaps(cfg, gaps);
    WindowIsPublished(cfg, gaps);
    forall i | 0 <= i < |w| ensures Room(cfg, r, w[i]) {
      assert w[i] in w;
    }
  }

  lemma BreakingSteps(cfg: Config, gaps: seq<Gap>, x: u64, r: u64) returns (d: seq<u64>)
    requires 2 <= cfg.size <= |gaps| && cfg.size <= TWO63 && Span(WindowGaps(cfg, gaps)) <= TWO63 * NANOS
    requires IsRate(x, Span(WindowGaps(cfg, gaps)), r) && cfg.min <= r < TWO63
    requires forall dt :: dt in PublishedGaps(cfg, gaps) ==> Room(cfg, r, dt)
    requires TWO64 + x <= Sum(MaxSteps(cfg, WindowGaps(cfg, gaps)))
    ensures Breaking(cfg, gaps, d, x, r)
  {
    var w := WindowGaps(cfg, gaps);
    LeastFits(r, x, w);
    WindowRoom(cfg, gaps, r);
    var window := WindowSteps(cfg, w, r, TWO64 + x);
    d := JoinSteps(cfg, gaps, r, window);
    RateYields(cfg, x, Span(w), r);
  }

  lemma BreakingReadings(cfg: Config, rs: seq<Reading>, gaps: seq<Gap>, d: seq<u64>, x: u64, r: u64)
    requires 2 <= cfg.size <= |gaps| && Breaking(cfg, gaps, d, x, r) && Stepping(rs, gaps, d)
    ensures Shown(cfg, Samples(cfg, rs), rs, gaps, r)
    ensures AverageOf(cfg, Samples(cfg, rs)[|gaps| + 1 - cfg.size..], r)
  {
    BreakingShown(cfg, rs, gaps, d, r);
    ShownAverage(cfg, Samples(cfg, rs), rs, gaps, d, x, r, |gaps| + 1 - cfg.size);
  }

  /** A run with these readings has an average below all of its samples. */
  ghost predicate Breaks(cfg: Config, polls: seq<Poll>, k: SeriesKey, gaps: seq<Gap>) {
    PolledEvery(cfg, polls, k, gaps) && AverageBelowAll(cfg, Survivors(cfg, Window(cfg, polls), k))
  }

  /** Such steps make samples whose average is below all of the published ones. */
  lemma ShownBelow(cfg: Config, ss: seq<Instant>, rs: seq<Reading>, gaps: seq<Gap>, r: nat, off: nat)
    requires 2 <= cfg.size <= |gaps| && Shown(cfg, ss, rs, gaps, r) && off == |gaps| + 1 - cfg.size
    requires AverageOf(cfg, ss[off..], r)
    ensures Below(cfg, ss[off..])
  {
    ShownPublished(cfg, ss, rs, gaps, r, off);
    AverageBelow(cfg, ss[off..], r);
  }

  lemma WindowBelow(cfg: Config, k: SeriesKey, rs: seq<Reading>, gaps: seq<Gap>, r: nat)
    requires 2 <= cfg.size <= |gaps| && Shown(cfg, Samples(cfg, rs), rs, gaps, r)
    requires Below(cfg, Samples(cfg, rs)[|gaps| + 1 - cfg.size..])
    ensures Below(cfg, Survivors(cfg, Window(cfg, Polled(cfg, k, rs)), k))
  {
    ShownWindow(cfg, k, rs, gaps, r);
  }

  lemma BelowBreaks(cfg: Config, k: SeriesKey, rs: seq<Reading>, gaps: seq<Gap>, d: seq<u64>)
    requires Stepping(rs, gaps, d) && Below(cfg, Survivors(cfg, Window(cfg, Polled(cfg, k, rs)), k))
    ensures Breaks(cfg, Polled(cfg, k, rs), k, gaps)
  {
    SteppingPolled(cfg, k, rs, gaps, d);
    BelowIs(cfg, Survivors(cfg, Window(cfg, Polled(cfg, k, rs)), k));
  }

  lemma ShownRun(cfg: Config, k: SeriesKey, rs: seq<Reading>, gaps: seq<Gap>, d: seq<u64>, r: nat)
    requires 2 <= cfg.size <= |gaps| && Stepping(rs, gaps, d) && Shown(cfg, Samples(cfg, rs), rs, gaps, r)
    requires AverageOf(cfg, Samples(cfg, rs)[|gaps| + 1 - cfg.size..], r)
    ensures Breaks(cfg, Polled(cfg, k, rs), k, gaps)
  {
    ShownBelow(cfg, Samples(cfg, rs), rs, gaps, r, |gaps| + 1 - cfg.size);
    WindowBelow(cfg, k, rs, gaps, r);
    BelowBreaks(cfg, k, rs, gaps, d);
  }

  lemma BreakingRun(cfg: Config, k: SeriesKey, rs: seq<Reading>, gaps: seq<Gap>, d: seq<u64>, x: u64, r: u64)
    requires 2 <= cfg.size <= |gaps| && Breaking(cfg, gaps, d, x, r) && Stepping(rs, gaps, d)
    ensures Breaks(cfg, Polled(cfg, k, rs), k, gaps)
  {
    BreakingReadings(cfg, rs, gaps, d, x, r);
    ShownRun(cfg, k, rs, gaps, d, r);
  }

  /** One half of the exact condition: on breakable gaps some counter has an average below all its samples. */
  lemma {:induction false} LawFailsEvery(cfg: Config, k: SeriesKey, gaps: seq<Gap>) returns (polls: seq<Poll>)
    requires 2 <= cfg.size <= |gaps| && cfg.size <= TWO63 && Span(WindowGaps(cfg, gaps)) <= TWO63 * NANOS
    requires Breakable(cfg, gaps)
    ensures Breaks(cfg, polls, k, gaps)
  {
    var span := Span(WindowGaps(cfg, gaps));
    LeastRateIs(cfg, span);
    var x, r := LeastGrowth(cfg, span), LeastRate(cfg, span);
    var d := BreakingSteps(cfg, gaps, x, r);
    var rs := ReadingsThatStep(gaps, d);
    BreakingRun(cfg, k, rs, gaps, d, x, r);
    polls := Polled(cfg, k, rs);
  }

  // ---------------------------------------------------------------- other gaps keep it

  lemma {:induction false} LaterPoll(cfg: Config, polls: seq<Poll>, k: SeriesKey, gaps: seq<Gap>, i: nat, j: nat)
    requires PolledEvery(cfg, polls, k, gaps) && i < j < |polls|
    ensures polls[i][k].counters.time < polls[j][k].counters.time
  {
    assert polls[j - 1 + 1][k].counters.time == polls[j - 1][k].counters.time + gaps[j - 1];
    if i < j - 1 {
      LaterPoll(cfg, polls, k, gaps, i, j - 1);
    }
  }

  lemma PolledInOrder(cfg: Config, polls: seq<Poll>, k: SeriesKey, gaps: seq<Gap>)
    requires PolledEvery(cfg, polls, k, gaps)
    ensures TimesIncrease(polls, k)
  {
    forall i, j | 0 <= i < j < |polls| ensures polls[i][k].counters.time < polls[j][k].counters.time {
      LaterPoll(cfg, polls, k, gaps, i, j);
    }
  }

  /** The filter accepts no larger step. */
  lemma StepBounded(cfg: Config, f: Field, last: Instant, s: Instant, dt: Gap)
    requires cfg.max < cfg.outOfRange && Follows(cfg, last, s) && Keep(cfg, s)
    requires s.counters.time == last.counters.time + dt
    ensures Sub64(Counter(f, s), Counter(f, last)) <= MaxStep(cfg, dt)
  {
    RateBrackets(cfg, f, last, s);
    BoundedStep(cfg, Sub64(Counter(f, s), Counter(f, last)), RateOf(f, s), dt);
  }

  lemma BoundedStep(cfg: Config, d: u64, rate: nat, dt: Gap)
    requires rate <= cfg.max && d * NANOS < (rate + 1) * dt
    ensures d <= MaxStep(cfg, dt)
  {
    MulMonotone(dt, rate + 1, cfg.max + 1);
    MaxStepIs(cfg, dt, d);
  }

  /** Where there is no room above `r`, no accepted sample shows more than `r`. */
  lemma SlowSample(cfg: Config, f: Field, last: Instant, s: Instant, dt: Gap, r: nat)
    requires cfg.max < cfg.outOfRange && Follows(cfg, last, s) && Keep(cfg, s)
    requires s.counters.time == last.counters.time + dt && !Room(cfg, r, dt)
    ensures RateOf(f, s) <= r
  {
    RateBrackets(cfg, f, last, s);
    StepBounded(cfg, f, last, s, dt);
    SlowStep(Sub64(Counter(f, s), Counter(f, last)), RateOf(f, s), dt, r);
  }

  lemma SlowStep(d: nat, rate: nat, dt: nat, r: nat)
    requires rate * dt <= d * NANOS && d < LeastStep(r + 1, dt)
    ensures rate <= r
  {
    LeastStepIs(r + 1, dt, d);
    if rate > r { MulMonotone(dt, r + 1, rate); }
  }

  /** A full window holds the samples of the last polls. */
  lemma FullWindowAt(cfg: Config, polls: seq<Poll>, k: SeriesKey)
    requires |polls| >= cfg.size && |Survivors(cfg, Window(cfg, polls), k)| == cfg.size
    ensures forall i :: 0 <= i < cfg.size ==>
              var p := polls[|polls| - cfg.size + i];
              k in p && Survivors(cfg, Window(cfg, polls), k)[i] == p[k]
  {
    var w := Window(cfg, polls);
    FullWindowHasNoGap(cfg, w, k);
    assert forall i :: 0 <= i < cfg.size ==> w[i] == polls[|polls| - cfg.size + i];
  }

  /** The poll after gap `i` follows the one before it. */
  lemma FollowsGap(cfg: Config, polls: seq<Poll>, k: SeriesKey, gaps: seq<Gap>, i: nat)
    requires PolledEvery(cfg, polls, k, gaps) && i < |gaps|
    ensures Follows(cfg, polls[i][k], polls[i + 1][k])
    ensures polls[i + 1][k].counters.time == polls[i][k].counters.time + gaps[i]
  {
    PolledInOrder(cfg, polls, k, gaps);
    NeighboursFollow(cfg, polls, k, i + 1);
  }

  lemma SlowGap(cfg: Config, f: Field, polls: seq<Poll>, k: SeriesKey, gaps: seq<Gap>, i: nat, r: nat)
    requires cfg.max < cfg.outOfRange && PolledEvery(cfg, polls, k, gaps) && i < |gaps|
    requires Keep(cfg, polls[i + 1][k]) && !Room(cfg, r, gaps[i])
    ensures RateOf(f, polls[i + 1][k]) <= r
  {
    FollowsGap(cfg, polls, k, gaps, i);
    SlowSample(cfg, f, polls[i][k], polls[i + 1][k], gaps[i], r);
  }

  lemma MoveOverGap(cfg: Config, f: Field, polls: seq<Poll>, k: SeriesKey, gaps: seq<Gap>, i: nat)
    requires cfg.max < cfg.outOfRange && PolledEvery(cfg, polls, k, gaps) && i < |gaps|
    requires Keep(cfg, polls[i + 1][k])
    ensures var d := Sub64(Counter(f, polls[i + 1][k]), Counter(f, polls[i][k]));
            Moves(f, polls[i][k], polls[i + 1][k], gaps[i], d) && d <= MaxStep(cfg, gaps[i])
  {
    FollowsGap(cfg, polls, k, gaps, i);
    StepBounded(cfg, f, polls[i][k], polls[i + 1][k], gaps[i]);
  }

  lemma PublishedIs(cfg: Config, v: seq<Instant>, gaps: seq<Gap>, j: nat)
    requires 2 <= cfg.size == |v| <= |gaps| && j < |PublishedGaps(cfg, gaps)|
    ensures |PublishedGaps(cfg, gaps)| == |Published(cfg, v)|
    ensures Published(cfg, v)[j] == v[j + |v| - |Published(cfg, v)|]
    ensures PublishedGaps(cfg, gaps)[j] == gaps[j + |gaps| - |Published(cfg, v)|]
  {
  }

  /** Where published sample `j` comes from: the poll after published gap `j`. */
  lemma PublishedAt(cfg: Config, polls: seq<Poll>, k: SeriesKey, gaps: seq<Gap>, v: seq<Instant>, j: nat)
      returns (i: nat)
    requires 2 <= cfg.size <= |gaps| && |polls| == |gaps| + 1 && j < |PublishedGaps(cfg, gaps)|
    requires v == Survivors(cfg, Window(cfg, polls), k) && |v| == cfg.size
    ensures i < |gaps| && PublishedGaps(cfg, gaps)[j] == gaps[i] && j < |Published(cfg, v)|
    ensures k in polls[i + 1] && Published(cfg, v)[j] == polls[i + 1][k] && Keep(cfg, polls[i + 1][k])
  {
    PublishedIs(cfg, v, gaps, j);
    i := j + |gaps| - |Published(cfg, v)|;
    var at := j + |v| - |Published(cfg, v)|;
    assert Keep(cfg, v[at]);
    FullWindowAt(cfg, polls, k);
    assert v[at] == polls[|polls| - cfg.size + at][k];
  }

  lemma SlowPublished(
      cfg: Config, f: Field, polls: seq<Poll>, k: SeriesKey, gaps: seq<Gap>, v: seq<Instant>, dt: Gap, r: nat)
      returns (j: nat)
    requires cfg.max < cfg.outOfRange && 2 <= cfg.size <= |gaps| && PolledEvery(cfg, polls, k, gaps)
    requires v == Survivors(cfg, Window(cfg, polls), k) && |v| == cfg.size
    requires dt in PublishedGaps(cfg, gaps) && !Room(cfg, r, dt)
    ensures j < |Published(cfg, v)| && RateOf(f, Published(cfg, v)[j]) <= r
  {
    j :| 0 <= j < |PublishedGaps(cfg, gaps)| && PublishedGaps(cfg, gaps)[j] == dt;
    var i := PublishedAt(cfg, polls, k, gaps, v, j);
    SlowGap(cfg, f, polls, k, gaps, i, r);
  }

  /** The step between two neighbours of the full window. */
  lemma WindowMove(cfg: Config, f: Field, polls: seq<Poll>, k: SeriesKey, gaps: seq<Gap>, v: seq<Instant>, i: nat)
    requires cfg.max < cfg.outOfRange && 2 <= cfg.size <= |gaps| && PolledEvery(cfg, polls, k, gaps)
    requires v == Survivors(cfg, Window(cfg, polls), k) && |v| == cfg.size && i < cfg.size - 1
    ensures var d := Sub64(Counter(f, v[i + 1]), Counter(f, v[i]));
            var dt := WindowGaps(cfg, gaps)[i];
            Moves(f, v[i], v[i + 1], dt, d) && d <= MaxStep(cfg, dt)
  {
    FullWindowAt(cfg, polls, k);
    var at := |polls| - cfg.size + i;
    assert v[i] == polls[at][k] && v[i + 1] == polls[|polls| - cfg.size + (i + 1)][k];
    assert Keep(cfg, v[i + 1]);
    MoveOverGap(cfg, f, polls, k, gaps, at);
  }

  /** Neighbours `i` and `i + 1` move by an accepted step. */
  ghost predicate MovesAccepted(cfg: Config, f: Field, v: seq<Instant>, gaps: seq<Gap>, i: nat)
    requires i < |gaps| && i + 1 < |v|
  {
    var d := Sub64(Counter(f, v[i + 1]), Counter(f, v[i]));
    Moves(f, v[i], v[i + 1], gaps[i], d) && d <= MaxStep(cfg, gaps[i])
  }

  lemma WindowMovesAccepted(
      cfg: Config, f: Field, polls: seq<Poll>, k: SeriesKey, gaps: seq<Gap>, v: seq<Instant>)
    requires cfg.max < cfg.outOfRange && 2 <= cfg.size <= |gaps| && PolledEvery(cfg, polls, k, gaps)
    requires v == Survivors(cfg, Window(cfg, polls), k) && |v| == cfg.size
    ensures forall i :: 0 <= i < cfg.size - 1 ==> MovesAccepted(cfg, f, v, WindowGaps(cfg, gaps), i)
  {
    forall i | 0 <= i < cfg.size - 1 ensures MovesAccepted(cfg, f, v, WindowGaps(cfg, gaps), i) {
      WindowMove(cfg, f, polls, k, gaps, v, i);
    }
  }

  /** Accepted steps add up to no more than the largest ones. */
  lemma AcceptedTotal(cfg: Config, f: Field, v: seq<Instant>, gaps: seq<Gap>) returns (d: seq<u64>)
    requires |v| == |gaps| + 1 && forall i :: 0 <= i < |gaps| ==> MovesAccepted(cfg, f, v, gaps, i)
    ensures Moving(f, v, gaps, d) && Sum(d) <= Sum(MaxSteps(cfg, gaps))
  {
    d := seq(|gaps|, i requires 0 <= i < |gaps| => Sub64(Counter(f, v[i + 1]), Counter(f, v[i])));
    forall i | 0 <= i < |gaps| ensures Moves(f, v[i], v[i + 1], gaps[i], d[i]) && d[i] <= MaxSteps(cfg, gaps)[i] {
      assert MovesAccepted(cfg, f, v, gaps, i);
    }
    SumOrdered(d, MaxSteps(cfg, gaps));
  }

  /** What is left of the growth after full turns of the counter decides the last-minus-first rate, which is not
      above every later sample. */
  lemma WrappedWhole(cfg: Config, f: Field, v: seq<Instant>) returns (hi: nat)
    requires cfg.max < cfg.outOfRange && Unbroken(cfg, v) && |v| >= 2
    ensures 1 <= hi < |v|
    ensures var n := |v| - 1;
            var t := v[n].counters.time - v[0].counters.time;
            var whole := RateOf(f, ComputeDelta(cfg, v[0], v[n]));
            t > 0 && IsRate(Growth(f, v, n) % TWO64, t, whole) && whole <= RateOf(f, v[hi])
  {
    var n := |v| - 1;
    var lo;
    UnbrokenBracketed(cfg, f, v);
    lo, hi := GrowthBrackets(f, v, n);
    NanoGrowthIs(f, v, n);
    WrappedGrowth(f, v, n);
    LeftOver(Growth(f, v, n), v[n].counters.time - v[0].counters.time, RateOf(f, v[hi]));
  }

  lemma LeftOver(g: nat, t: nat, rate: u64)
    requires t > 0 && g * NANOS < (rate + 1) * t
    ensures var q := g % TWO64 * NANOS / t; q <= rate && IsRate(g % TWO64, t, q)
  {
    var x := g % TWO64;
    assert x <= g;
    FloorBelow(x * NANOS, t, rate);
    RateIs(x, t, x * NANOS / t);
  }

  lemma FloorBelow(n: nat, t: nat, rate: nat)
    requires t > 0 && n < (rate + 1) * t
    ensures var q := n / t; q <= rate && q * t <= n < (q + 1) * t
  {
    DivisionBrackets(n, t);
    BelowQuotient(n, t, rate + 1);
  }

  /** An acceptable last-minus-first rate is at least the least one. */
  lemma LeastIsLeast(cfg: Config, x: nat, span: nat, rate: u64)
    requires span > 0 && IsRate(x, span, rate) && ToInt64(rate) >= cfg.min
    ensures LeastGrowth(cfg, span) <= x && LeastRate(cfg, span) <= rate && LeastRate(cfg, span) < TWO63
  {
    RateIs(x, span, rate);
    var w := if cfg.min <= 0 then 0 else cfg.min;
    LeastBelow(w, x, span, rate);
    if cfg.min <= 0 {
      NothingLeast(span);
    }
  }

  /** The smallest growth of at least the rate `w` is at most any growth of a rate not below `w`. */
  lemma LeastBelow(w: nat, x: nat, span: nat, rate: nat)
    requires span > 0 && w <= rate && rate * span <= x * NANOS < (rate + 1) * span
    ensures LeastStep(w, span) <= x && LeastStep(w, span) * NANOS / span <= rate
  {
    MulMonotone(span, w, rate);
    LeastStepIs(w, span, x);
    FloorBelow(LeastStep(w, span) * NANOS, span, rate);
  }

  lemma NothingLeast(span: nat)
    requires span > 0
    ensures LeastStep(0, span) == 0 && LeastStep(0, span) * NANOS / span == 0
  {
    assert 0 * NANOS / span == 0;
  }

  /** A growth of 2^64 or more, seen by what is left of it. */
  lemma FullTurn(g: nat)
    requires g >= TWO64
    ensures g >= TWO64 + g % TWO64
  {
  }

  /** If unbreakable gaps admit a growth of 2^64 or more with an acceptable rate, some published sample has no room
      above that rate. */
  lemma NoRoomSomewhere(cfg: Config, gaps: seq<Gap>, g: nat, whole: u64) returns (dt: Gap, r: nat)
    requires 2 <= cfg.size <= |gaps| && !Breakable(cfg, gaps)
    requires TWO64 <= g <= Sum(MaxSteps(cfg, WindowGaps(cfg, gaps)))
    requires IsRate(g % TWO64, Span(WindowGaps(cfg, gaps)), whole) && ToInt64(whole) >= cfg.min
    ensures dt in PublishedGaps(cfg, gaps) && !Room(cfg, r, dt) && r <= whole
  {
    var span := Span(WindowGaps(cfg, gaps));
    FullTurn(g);
    LeastIsLeast(cfg, g % TWO64, span, whole);
    r := LeastRate(cfg, span);
    dt :| dt in PublishedGaps(cfg, gaps) && !Room(cfg, r, dt);
  }

  lemma WrappedBetween(
      cfg: Config, f: Field, polls: seq<Poll>, k: SeriesKey, gaps: seq<Gap>, v: seq<Instant>,
      whole: u64, g: nat, hi: nat)
    requires cfg.max < cfg.outOfRange && 2 <= cfg.size <= |gaps| && PolledEvery(cfg, polls, k, gaps)
    requires v == Survivors(cfg, Window(cfg, polls), k) && |v| == cfg.size
    requires !Breakable(cfg, gaps) && TWO64 <= g <= Sum(MaxSteps(cfg, WindowGaps(cfg, gaps)))
    requires IsRate(g % TWO64, Span(WindowGaps(cfg, gaps)), whole) && ToInt64(whole) >= cfg.min
    requires 1 <= hi < |v| && whole <= RateOf(f, v[hi])
    ensures Between(whole, Column(f, Published(cfg, v)))
  {
    var dt, r := NoRoomSomewhere(cfg, gaps, g, whole);
    var j := SlowPublished(cfg, f, polls, k, gaps, v, dt, r);
    BetweenAt(cfg, f, v, whole, j, hi);
  }

  lemma WindowUnbroken(cfg: Config, polls: seq<Poll>, k: SeriesKey, gaps: seq<Gap>, v: seq<Instant>)
    requires 2 <= cfg.size <= |gaps| && PolledEvery(cfg, polls, k, gaps)
    requires v == Survivors(cfg, Window(cfg, polls), k) && |v| == cfg.size
    ensures Unbroken(cfg, v)
  {
    PolledInOrder(cfg, polls, k, gaps);
    ChainedWindowUnbroken(cfg, polls, k);
  }

  /** The growth of a window with accepted steps is at most that of the largest ones. */
  lemma GrowthAccepted(cfg: Config, f: Field, v: seq<Instant>, gaps: seq<Gap>)
    requires |v| == |gaps| + 1 && forall i :: 0 <= i < |gaps| ==> MovesAccepted(cfg, f, v, gaps, i)
    ensures Growth(f, v, |v| - 1) <= Sum(MaxSteps(cfg, gaps))
    ensures v[|v| - 1].counters.time - v[0].counters.time == Span(gaps)
  {
    var d := AcceptedTotal(cfg, f, v, gaps);
    WindowTotals(cfg, f, v, gaps, d);
  }

  /** A full window either grows by less than 2^64, and its last-minus-first rate lies between two samples, or the
      rate is that of what is left of its growth. */
  lemma WindowCases(
      cfg: Config, f: Field, polls: seq<Poll>, k: SeriesKey, gaps: seq<Gap>, v: seq<Instant>, whole: u64)
      returns (g: nat, hi: nat)
    requires cfg.max < cfg.outOfRange && 2 <= cfg.size <= |gaps| && PolledEvery(cfg, polls, k, gaps)
    requires v == Survivors(cfg, Window(cfg, polls), k) && |v| == cfg.size
    requires WholeIs(cfg, f, v, whole)
    ensures g <= Sum(MaxSteps(cfg, WindowGaps(cfg, gaps)))
    ensures g < TWO64 ==> Between(whole, Column(f, Published(cfg, v)))
    ensures IsRate(g % TWO64, Span(WindowGaps(cfg, gaps)), whole)
    ensures 1 <= hi < |v| && whole <= RateOf(f, v[hi])
  {
    g := Growth(f, v, |v| - 1);
    WindowUnbroken(cfg, polls, k, gaps, v);
    WindowMovesAccepted(cfg, f, polls, k, gaps, v);
    GrowthAccepted(cfg, f, v, WindowGaps(cfg, gaps));
    hi := WholeLeft(cfg, f, v, Span(WindowGaps(cfg, gaps)), whole);
    if g < TWO64 {
      WholeWithin(cfg, f, v, whole);
    }
  }

  lemma WholeLeft(cfg: Config, f: Field, v: seq<Instant>, span: nat, whole: u64) returns (hi: nat)
    requires cfg.max < cfg.outOfRange && Unbroken(cfg, v) && |v| >= 2 && WholeIs(cfg, f, v, whole)
    requires v[|v| - 1].counters.time == v[0].counters.time + span
    ensures 1 <= hi < |v| && whole <= RateOf(f, v[hi])
    ensures IsRate(Growth(f, v, |v| - 1) % TWO64, span, whole)
  {
    assert AtAverage(0);
    hi := WrappedWhole(cfg, f, v);
  }

  lemma WholeWithin(cfg: Config, f: Field, v: seq<Instant>, whole: u64)
    requires cfg.max < cfg.outOfRange && Unbroken(cfg, v) && |v| >= 2 && WholeIs(cfg, f, v, whole)
    requires Growth(f, v, |v| - 1) < TWO64
    ensures Between(whole, Column(f, Published(cfg, v)))
  {
    assert AtAverage(0);
    WholeRateBetween(cfg, f, v);
  }

  /** The last-minus-first rate of a full window, where the gaps are not breakable. */
  lemma UnbreakableWindow(
      cfg: Config, f: Field, polls: seq<Poll>, k: SeriesKey, gaps: seq<Gap>, v: seq<Instant>, whole: u64)
    requires cfg.max < cfg.outOfRange && 2 <= cfg.size <= |gaps| && PolledEvery(cfg, polls, k, gaps)
    requires v == Survivors(cfg, Window(cfg, polls), k) && |v| == cfg.size
    requires !Breakable(cfg, gaps)
    requires WholeIs(cfg, f, v, whole) && ToInt64(whole) >= cfg.min
    ensures Between(whole, Column(f, Published(cfg, v)))
  {
    var g, hi := WindowCases(cfg, f, polls, k, gaps, v, whole);
    if g >= TWO64 {
      WrappedBetween(cfg, f, polls, k, gaps, v, whole, g, hi);
    }
  }

  lemma WindowTotals(cfg: Config, f: Field, v: seq<Instant>, gaps: seq<Gap>, d: seq<u64>)
    requires Moving(f, v, gaps, d)
    ensures Growth(f, v, |v| - 1) == Sum(d)
    ensures v[|v| - 1].counters.time - v[0].counters.time == Span(gaps)
  {
    GrowthIs(f, v, gaps, d, |d|);
    assert d[..|d|] == d;
    SpanIs(f, v, gaps, d);
  }

  lemma BetweenAt(cfg: Config, f: Field, v: seq<Instant>, a: u64, j: nat, hi: nat)
    requires 1 <= hi < |v| && a <= RateOf(f, v[hi])
    requires j < |Published(cfg, v)| && RateOf(f, Published(cfg, v)[j]) <= a
    ensures Between(a, Column(f, Published(cfg, v)))
  {
    var pub := Published(cfg, v);
    var xs := Column(f, pub);
    assert pub[hi - (|v| - |pub|)] == v[hi];
    assert xs[j] <= a && a <= xs[hi - (|v| - |pub|)];
  }

  /** The other half: on gaps that are not breakable the law holds, whatever is read. */
  lemma {:induction false} LawHoldsEvery(cfg: Config, polls: seq<Poll>, k: SeriesKey, gaps: seq<Gap>)
    requires cfg.max < cfg.outOfRange && cfg.size * cfg.max < TWO64
    requires 2 <= cfg.size <= |gaps| && PolledEvery(cfg, polls, k, gaps) && !Breakable(cfg, gaps)
    ensures LawHolds(cfg, polls, k)
  {
    var v := Survivors(cfg, Window(cfg, polls), k);
    if |v| >= 2 {
      forall f ensures Between(RateOf(f, Summary(cfg, v)), Column(f, Published(cfg, v))) {
        AverageIs(cfg, f, v);
        var whole := RateOf(f, ComputeDelta(cfg, v[0], v[|v| - 1]));
        if Anomalous(cfg, |v|, whole) {
          MeanOfKept(cfg, f, v);
        } else {
          UnbreakableWindow(cfg, f, polls, k, gaps, v, whole);
        }
      }
    }
  }

  /** THE EXACT CONDITION. For any gaps between polls, any number of polls and any configuration, the window law
      holds whatever is read exactly when the gaps are not breakable. */
  lemma {:induction false} LawHoldsIff(cfg: Config, k: SeriesKey, gaps: seq<Gap>)
    requires cfg.max < cfg.outOfRange && cfg.size * cfg.max < TWO64
    requires 2 <= cfg.size <= |gaps| && cfg.size <= TWO63 && Span(WindowGaps(cfg, gaps)) <= TWO63 * NANOS
    ensures (forall polls :: PolledEvery(cfg, polls, k, gaps) ==> LawHolds(cfg, polls, k)) <==> !Breakable(cfg, gaps)
  {
    if Breakable(cfg, gaps) {
      var polls := LawFailsEvery(cfg, k, gaps);
      BelowAllBreaks(cfg, polls, k);
    } else {
      forall polls | PolledEvery(cfg, polls, k, gaps) ensures LawHolds(cfg, polls, k) {
        LawHoldsEvery(cfg, polls, k, gaps);
      }
    }
  }

  /** Over `dt` nanoseconds a step of one unit, and one unit a second, are accepted. */
  predicate AdmitsUnit(cfg: Config, dt: Gap) {
    (cfg.max + 1) * dt > NANOS && dt <= TWO63 * NANOS
  }

  lemma PlainRoom(cfg: Config, dt: Gap)
    requires cfg.max >= 1 && AdmitsUnit(cfg, dt)
    ensures Room(cfg, 0, dt)
  {
    var limit := (cfg.max + 1) * dt;
    assert limit >= 2 * dt by { MulMonotone(dt, 2, cfg.max + 1); }
    UnitStep(dt, limit);
    MaxStepIs(cfg, dt, LeastStep(1, dt));
  }

  lemma UnitStep(dt: nat, limit: nat)
    requires 0 < dt <= TWO63 * NANOS && limit > NANOS && limit >= 2 * dt
    ensures LeastStep(1, dt) < TWO64 && LeastStep(1, dt) * NANOS < limit
  {
    assert 1 * dt == dt;
  }

  /** Without a positive minimum, and where the maximum admits a visible step over every gap, the gaps are
      breakable exactly when the largest steps over the window add up to 2^64. */
  lemma {:induction false} PlainlyBreakable(cfg: Config, gaps: seq<Gap>)
    requires 2 <= cfg.size <= |gaps| && cfg.max >= 1 && cfg.min <= 0
    requires forall dt :: dt in gaps ==> AdmitsUnit(cfg, dt)
    ensures Breakable(cfg, gaps) <==> TWO64 <= Sum(MaxSteps(cfg, WindowGaps(cfg, gaps)))
  {
    var span := Span(WindowGaps(cfg, gaps));
    NothingLeast(span);
    forall dt | dt in PublishedGaps(cfg, gaps) ensures Room(cfg, 0, dt) {
      assert dt in gaps;
      PlainRoom(cfg, dt);
    }
  }

  // ---------------------------------------------------------------- instances

  /** The window law is about real runs: three idle polls through a ring of two slots. */
  lemma LawIsNotVacuous()
    ensures exists cfg, polls, k :: LawApplies(cfg, polls, k)
  {
    var cfg := Config(2, 1000, 0, false, 0xFFFF_FFFF_FFFF_FFFF);
    var k, rs := NodeSeries(""), [CpuReading(1, 0), CpuReading(2, 0), CpuReading(3, 0)];
    IdleRun(cfg, k, rs);
  }

  /** A series whose counters never move. */
  lemma IdleRun(cfg: Config, k: SeriesKey, rs: seq<Reading>)
    requires cfg.max < cfg.outOfRange && cfg.size * cfg.max < TWO64
    requires |rs| == cfg.size + 1 == 3 && Increasing(TimesOf(rs))
    requires forall i :: 0 <= i < |rs| ==> rs[i] == CpuReading(rs[i].time, 0)
    ensures LawApplies(cfg, Polled(cfg, k, rs), k)
  {
    PolledChained(cfg, k, rs);
    forall i | 1 <= i < |rs| ensures Keep(cfg, Samples(cfg, rs)[i]) {
      assert TimesOf(rs)[i - 1] < TimesOf(rs)[i];
      SamplesAt(cfg, rs, i);
      IdleSample(cfg, rs[i - 1], rs[i]);
    }
    var v := PolledWindow(cfg, k, rs);
    forall f ensures GrowthFits(cfg, f, v) {
      assert Growth(f, v, 0) == 0;
    }
  }

  lemma IdleSample(cfg: Config, before: Reading, r: Reading)
    requires 0 < before.time < r.time && before.cpu == r.cpu && before.throttled == r.throttled
    ensures Keep(cfg, ComputeDelta(cfg, Raw(before), Raw(r)))
  {
    IdleRate(cfg, r.cpu, r.time - before.time);
    IdleRate(cfg, r.throttled, r.time - before.time);
  }

  const FOUR_SECONDS: Gap := 4_000_000_000

  function LongSpan(): seq<Reading> {
    [CpuReading(1, 0), CpuReading(4_000_000_001, TWO63),
     CpuReading(8_000_000_001, 0), CpuReading(12_000_000_001, TWO63)]
  }

  /** Four polls four seconds apart through a ring of three, the counter growing by 2^63 each time: every
      sample is 2^61 per second, but the counter ends where the window began and the average is 0, below all
      samples. */
  lemma {:induction false} LongSpanBreaksTheLaw()
    ensures var cfg := Config(3, 0x4000_0000_0000_0000, 0, true, 0xFFFF_FFFF_FFFF_FFFF);
            var gaps := [FOUR_SECONDS, FOUR_SECONDS, FOUR_SECONDS];
            Breaks(cfg, Polled(cfg, NodeSeries(""), LongSpan()), NodeSeries(""), gaps)
  {
    var cfg := Config(3, 0x4000_0000_0000_0000, 0, true, 0xFFFF_FFFF_FFFF_FFFF);
    var gaps: seq<Gap> := [FOUR_SECONDS, FOUR_SECONDS, FOUR_SECONDS];
    var d: seq<u64> := [TWO63, TWO63, TWO63];
    HalfTurns(cfg, gaps, d);
    BreakingRun(cfg, NodeSeries(""), LongSpan(), gaps, d, 0, 0);
  }

  lemma HalfTurns(cfg: Config, gaps: seq<Gap>, d: seq<u64>)
    requires cfg.size == 3 && cfg.max == 0x4000_0000_0000_0000 && cfg.min == 0
    requires gaps == [FOUR_SECONDS, FOUR_SECONDS, FOUR_SECONDS] && d == [TWO63, TWO63, TWO63]
    ensures Breaking(cfg, gaps, d, 0, 0) && Stepping(LongSpan(), gaps, d)
  {
    assert d[1..] == [TWO63, TWO63];
    SumOfTwo(TWO63, TWO63);
    RateYields(cfg, 0, Span(WindowGaps(cfg, gaps)), 0);
  }

  lemma SumOfTwo(a: nat, b: nat)
    ensures Sum([a, b]) == a + b
  {
    var xs, ys := [a, b], [a];
    assert xs[..1] == ys && ys[..0] == [];
    assert Sum(ys) == a;
  }
}
