/** What the sampler stores and publishes, as functions of the list of polls. */
module SampleSpec {
  import opened Words

  /** A container, or one of the node's cgroup aggregation levels. */
  datatype SeriesKey = ContainerSeries(containerId: string, podUid: string) | NodeSeries(level: string)

  const NANOS: int := 1_000_000_000

  /** Configuration. `outOfRange` is what the platform makes of a float64 that does not
      fit an unsigned 64-bit word (infinity, NaN, or a quotient of 2^64 and above). */
  datatype Config = Config(size: nat, max: u64, min: int, dropFirst: bool, outOfRange: u64)

  /** Cumulative counters read for one series in one poll; `time` in nanoseconds. */
  datatype Reading = Reading(
    time: nat, cpu: u64, throttled: u64, periods: u64, throttledPeriods: u64,
    memory: u64, oom: u64, oomKill: u64)

  /** A stored sample: the counters, and the rates derived against the previous poll. */
  datatype Instant = Instant(
    counters: Reading, hasCpuData: bool, cpuRate: u64, throttleRate: u64,
    periodsRate: u64, throttledPeriodsRate: u64, percentThrottled: real,
    oomDelta: u64, oomKillDelta: u64, memory: u64)

  type Poll = map<SeriesKey, Instant>

  /** The two counters whose rate is filtered and averaged. */
  datatype Field = Cpu | Throttle

  function Raw(c: Reading): Instant {
    Instant(c, false, 0, 0, 0, 0, 0.0, 0, 0, c.memory)
  }

  /** The zero sample that stands for "no previous sample"; time 0 is the unset time. */
  const NO_INSTANT: Instant := Raw(Reading(0, 0, 0, 0, 0, 0, 0, 0))

  function Counter(f: Field, s: Instant): u64 {
    match f case Cpu => s.counters.cpu case Throttle => s.counters.throttled
  }

  function RateOf(f: Field, s: Instant): u64 {
    match f case Cpu => s.cpuRate case Throttle => s.throttleRate
  }

  function Column(f: Field, values: seq<Instant>): (xs: seq<u64>)
    ensures |xs| == |values|
    ensures forall i :: 0 <= i < |values| ==> xs[i] == RateOf(f, values[i])
  {
    seq(|values|, i requires 0 <= i < |values| => RateOf(f, values[i]))
  }

  function MemoryColumn(values: seq<Instant>): (xs: seq<u64>)
    ensures |xs| == |values|
    ensures forall i :: 0 <= i < |values| ==> xs[i] == values[i].memory
  {
    seq(|values|, i requires 0 <= i < |values| => values[i].memory)
  }

  /** Growth of a counter per second over `dt` nanoseconds, rounded down. */
  function NormalizeSeconds(cfg: Config, before: u64, after: u64, dt: int): u64 {
    if dt == 0 then cfg.outOfRange
    else if dt < 0 then 0
    else
      var q := Sub64(after, before) * NANOS / dt;
      if q < TWO64 then q else cfg.outOfRange
  }

  /** `sample` with its derived fields computed against `last`. */
  function ComputeDelta(cfg: Config, last: Instant, sample: Instant): Instant {
    if last.counters.time == 0 then sample
    else
      var a, b := last.counters, sample.counters;
      var dt := b.time - a.time;
      sample.(
        hasCpuData := true,
        cpuRate := NormalizeSeconds(cfg, a.cpu, b.cpu, dt),
        throttleRate := NormalizeSeconds(cfg, a.throttled, b.throttled, dt),
        periodsRate := NormalizeSeconds(cfg, a.periods, b.periods, dt),
        throttledPeriodsRate := NormalizeSeconds(cfg, a.throttledPeriods, b.throttledPeriods, dt),
        percentThrottled :=
          if b.periods == a.periods then sample.percentThrottled
          else (b.throttledPeriods - a.throttledPeriods) as real / (b.periods - a.periods) as real,
        oomDelta := Sub64(b.oom, a.oom),
        oomKillDelta := Sub64(b.oomKill, a.oomKill))
  }

  /** The sample a poll holds for `k`, the zero sample when it has none. */
  function LastSample(polls: seq<Poll>, k: SeriesKey): Instant {
    if polls != [] && k in polls[|polls| - 1] then polls[|polls| - 1][k] else NO_INSTANT
  }

  /** The poll made of `readings` after `polls`. */
  function Derive(cfg: Config, polls: seq<Poll>, readings: map<SeriesKey, Reading>): Poll {
    map k | k in readings :: ComputeDelta(cfg, LastSample(polls, k), Raw(readings[k]))
  }

  /** The samples of poll `i` were derived from the poll just before it. */
  ghost predicate Linked(cfg: Config, polls: seq<Poll>, i: nat)
    requires i < |polls|
  {
    forall k :: k in polls[i] ==>
      polls[i][k] == ComputeDelta(cfg, LastSample(polls[..i], k), Raw(polls[i][k].counters))
  }

  /** Every poll of the run was derived from the poll just before it. */
  ghost predicate Chained(cfg: Config, polls: seq<Poll>) {
    forall i :: 0 <= i < |polls| ==> Linked(cfg, polls, i)
  }

  /** The readings of `k` carry strictly increasing times. */
  ghost predicate TimesIncrease(polls: seq<Poll>, k: SeriesKey) {
    forall i, j :: 0 <= i < j < |polls| && k in polls[i] && k in polls[j] ==>
      polls[i][k].counters.time < polls[j][k].counters.time
  }

  /** The filter applied on read. */
  predicate Keep(cfg: Config, s: Instant) {
    s.hasCpuData && s.cpuRate <= cfg.max && s.throttleRate <= cfg.max
  }

  /** The last `size` polls, oldest first. */
  function Window(cfg: Config, polls: seq<Poll>): (w: seq<Poll>)
    ensures |w| <= cfg.size
  {
    if |polls| <= cfg.size then polls else polls[|polls| - cfg.size..]
  }

  /** The samples of `k` that pass the filter, oldest first. */
  function Survivors(cfg: Config, polls: seq<Poll>, k: SeriesKey): (v: seq<Instant>)
    ensures |v| <= |polls|
    ensures forall i :: 0 <= i < |v| ==> Keep(cfg, v[i])
  {
    if polls == [] then []
    else
      var n := |polls| - 1;
      var v := Survivors(cfg, polls[..n], k);
      if k in polls[n] && Keep(cfg, polls[n][k]) then v + [polls[n][k]] else v
  }

  /** The samples sent to the collectors: all of them, or all but the first. */
  function Published(cfg: Config, values: seq<Instant>): seq<Instant> {
    if cfg.dropFirst && values != [] then values[1..] else values
  }

  /** Mean of words accumulated in a wrapping 64-bit sum. */
  function Mean64(xs: seq<u64>): u64
    requires xs != []
  {
    Div64(Sum(xs) % TWO64, |xs|)
  }

  /** The fallback test: gaps in the window, or a last-minus-first rate out of range. */
  predicate Anomalous(cfg: Config, count: nat, rate: u64) {
    count < cfg.size || rate > cfg.max || ToInt64(rate) < cfg.min
  }

  /** Average of one rate: last minus first over a full window, otherwise the mean. */
  function Average(cfg: Config, f: Field, values: seq<Instant>): u64
    requires |values| >= 2
  {
    var whole := RateOf(f, ComputeDelta(cfg, values[0], values[|values| - 1]));
    if Anomalous(cfg, |values|, whole) then Mean64(Column(f, Published(cfg, values))) else whole
  }

  /** The summary published next to the samples; left at zero below two samples. */
  function Summary(cfg: Config, values: seq<Instant>): Instant {
    if |values| < 2 then NO_INSTANT
    else
      ComputeDelta(cfg, values[0], values[|values| - 1]).(
        memory := Mean64(MemoryColumn(Published(cfg, values))),
        cpuRate := Average(cfg, Cpu, values),
        throttleRate := Average(cfg, Throttle, values))
  }
}
