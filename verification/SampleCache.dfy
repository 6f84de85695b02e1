/** The sampler's cache: a ring of polls, updated in place and read as a window. */
module SampleCache {
  import opened Words
  import opened SampleSpec
  import opened WindowTheorems
  import opened Options
  import Operations

  datatype SampleResult = SampleResult(values: seq<Instant>, avg: Instant)

  /** What is sent for one series: the published samples, their averages, and the out-of-memory events, all
      as signed 64-bit numbers. */
  datatype SeriesMetrics = SeriesMetrics(
    cpu: seq<int>, throttled: seq<int>, memory: seq<int>, avgCpu: int, avgThrottled: int, avgMemory: int,
    oomCount: int, oomKillCount: int)

  /** The slot `j` steps behind `cursor` on a ring of `size` slots. */
  function Behind(cursor: nat, j: nat, size: nat): (i: nat)
    requires cursor < size && j < size
    ensures i < size
  {
    if j <= cursor then cursor - j else cursor + size - j
  }

  class SampleCache {
    const cfg: Config
    const slots: array<Option<Poll>>
    var cursor: nat

    /** Every poll added so far, oldest first. */
    ghost var polls: seq<Poll>

    /** Going backwards from the cursor, the ring holds the latest polls, then empty slots. */
    ghost predicate Valid()
      reads this, slots
    {
      && slots.Length == cfg.size
      && cursor < cfg.size
      && (forall j :: 0 <= j < cfg.size ==>
            slots[Behind(cursor, j, cfg.size)] ==
            if j < |polls| then Some(polls[|polls| - 1 - j]) else None)
    }

    constructor (cfg: Config)
      requires cfg.size > 0
      ensures Valid() && fresh(slots) && this.cfg == cfg && polls == []
    {
      this.cfg := cfg;
      slots := new Option<Poll>[cfg.size](_ => None);
      cursor := 0;
      polls := [];
    }

    /** Advances the ring and overwrites its oldest slot. */
    method AddSample(p: Poll)
      requires Valid()
      modifies this, slots
      ensures Valid() && polls == old(polls) + [p]
    {
      ghost var before, start := slots[..], cursor;
      cursor := if cursor + 1 == slots.Length then 0 else cursor + 1;
      slots[cursor] := Some(p);
      polls := polls + [p];
      forall j | 0 <= j < cfg.size
        ensures slots[Behind(cursor, j, cfg.size)] == if j < |polls| then Some(polls[|polls| - 1 - j]) else None
      {
        if j > 0 {
          assert Behind(cursor, j, cfg.size) == Behind(start, j - 1, cfg.size);
          assert before[Behind(start, j - 1, cfg.size)] == slots[Behind(cursor, j, cfg.size)];
        }
      }
    }

    /** The sample of `k` in the current slot, or the zero sample. */
    method LastSampleFor(k: SeriesKey) returns (s: Instant)
      requires Valid()
      ensures s == LastSample(polls, k)
    {
      assert slots[Behind(cursor, 0, cfg.size)] == slots[cursor];
      match slots[cursor]
      case None => s := NO_INSTANT;
      case Some(p) => s := if k in p then p[k] else NO_INSTANT;
    }

    /** Every reading becomes a sample against the previous poll. */
    method DeriveSamples(readings: map<SeriesKey, Reading>) returns (results: Poll)
      requires Valid()
      ensures results == Derive(cfg, polls, readings)
    {
      results := map[];
      var todo := readings.Keys;
      while todo != {}
        invariant todo <= readings.Keys && results.Keys == readings.Keys - todo
        invariant forall k :: k in results ==>
          results[k] == ComputeDelta(cfg, LastSample(polls, k), Raw(readings[k]))
        decreases |todo|
      {
        var k :| k in todo;
        var last := LastSampleFor(k);
        results := results[k := ComputeDelta(cfg, last, Raw(readings[k]))];
        todo := todo - {k};
      }
    }

    /** One poll: the readings are turned into samples and the lot is added to the ring. */
    method FetchSample(readings: map<SeriesKey, Reading>)
      requires Valid()
      modifies this, slots
      ensures Valid() && polls == old(polls) + [Derive(cfg, old(polls), readings)]
      ensures var p := polls[|polls| - 1];
        p.Keys == readings.Keys && forall k :: k in readings ==> p[k].counters == readings[k]
      ensures old(Chained(cfg, polls)) ==> Chained(cfg, polls)
    {
      var results := DeriveSamples(readings);
      if Chained(cfg, polls) {
        DerivedRunGrows(cfg, polls, readings);
      }
      AddSample(results);
    }

    /** The polls visited from the slot after the cursor round to the cursor. */
    method Snapshot() returns (samples: seq<Poll>)
      requires Valid()
      ensures samples == Window(cfg, polls)
    {
      samples := [];
      var size := slots.Length;
      ghost var n := |polls|;
      ghost var lo := if n <= size then 0 else n - size;
      var at := cursor;
      for i := 0 to size
        invariant at < size && (i > 0 ==> at == Behind(cursor, size - i, size)) && (i == 0 ==> at == cursor)
        invariant samples == polls[lo..if n + i <= size then lo else n + i - size]
      {
        at := if at + 1 == size then 0 else at + 1;
        assert at == Behind(cursor, size - 1 - i, size);
        if slots[at].Some? {
          samples := samples + [slots[at].value];
        }
      }
    }

    /** Files one poll's samples, dropping those the filter refuses. */
    method FilePoll(before: map<SeriesKey, seq<Instant>>, poll: Poll) returns (all: map<SeriesKey, seq<Instant>>)
      requires forall k :: k in before ==> before[k] != []
      ensures forall k :: k in all ==> all[k] != []
      ensures forall k :: Values(all, k) == Values(before, k) + Filed(cfg, poll, poll.Keys, k)
    {
      all := before;
      var todo := poll.Keys;
      while todo != {}
        invariant todo <= poll.Keys
        invariant forall k :: k in all ==> all[k] != []
        invariant forall k :: Values(all, k) == Values(before, k) + Filed(cfg, poll, poll.Keys - todo, k)
        decreases |todo|
      {
        var k :| k in todo;
        todo := todo - {k};
        if !Keep(cfg, poll[k]) {
          continue;
        }
        all := all[k := Values(all, k) + [poll[k]]];
      }
    }

    /** Groups the surviving samples by series. */
    method IndexSamples(samples: seq<Poll>) returns (all: map<SeriesKey, seq<Instant>>)
      ensures Indexed(cfg, samples, all)
    {
      all := map[];
      for i := 0 to |samples|
        invariant Indexed(cfg, samples[..i], all)
      {
        ghost var before := all;
        all := FilePoll(all, samples[i]);
        assert samples[..i + 1][..i] == samples[..i];
        forall k ensures Values(all, k) == Survivors(cfg, samples[..i + 1], k) {
          assert Values(before, k) == Survivors(cfg, samples[..i], k);
        }
      }
      assert samples[..|samples|] == samples;
    }

    /** Wrapping sums of the published samples. */
    method SumPublished(values: seq<Instant>) returns (mem: u64, cpu: u64, throttled: u64, count: nat)
      requires |values| >= 2
      ensures var pub := Published(cfg, values);
        && count == |pub| > 0
        && mem == Sum(MemoryColumn(pub)) % TWO64
        && cpu == Sum(Column(Cpu, pub)) % TWO64
        && throttled == Sum(Column(Throttle, pub)) % TWO64
    {
      mem, cpu, throttled, count := 0, 0, 0, 0;
      ghost var pub := Published(cfg, values);
      ghost var shift := |values| - |pub|;
      ghost var ms, cs, ts := MemoryColumn(pub), Column(Cpu, pub), Column(Throttle, pub);
      for i := 0 to |values|
        invariant count == if i <= shift then 0 else i - shift
        invariant AddsUp(ms, count, mem) && AddsUp(cs, count, cpu) && AddsUp(ts, count, throttled)
      {
        if i == 0 && cfg.dropFirst {
          continue;
        }
        var v := values[i];
        assert v == pub[count];
        SumOneMore(ms, count, mem);
        SumOneMore(cs, count, cpu);
        SumOneMore(ts, count, throttled);
        mem := Add64(mem, v.memory);
        cpu := Add64(cpu, v.cpuRate);
        throttled := Add64(throttled, v.throttleRate);
        count := count + 1;
      }
      assert ms[..count] == ms && cs[..count] == cs && ts[..count] == ts;
    }

    /** The summary of one series: last minus first over a full window, otherwise the mean. */
    method PopulateSummary(values: seq<Instant>) returns (avg: Instant)
      ensures avg == Summary(cfg, values)
    {
      if |values| < 2 {
        return NO_INSTANT;
      }
      avg := ComputeDelta(cfg, values[0], values[|values| - 1]);
      var mem, cpu, throttled, count := SumPublished(values);
      avg := avg.(memory := Div64(mem, count));
      if Anomalous(cfg, |values|, avg.cpuRate) {
        avg := avg.(cpuRate := Div64(cpu, count));
      }
      if Anomalous(cfg, |values|, avg.throttleRate) {
        avg := avg.(throttleRate := Div64(throttled, count));
      }
    }

    /** Everything the sampler reports: for each series with a surviving sample in the window, its
        samples oldest first and their summary. */
    method GetAllSamples() returns (all: map<SeriesKey, SampleResult>, count: nat)
      requires Valid()
      ensures count == |Window(cfg, polls)|
      ensures forall k :: k in all <==> Survivors(cfg, Window(cfg, polls), k) != []
      ensures forall k :: k in all ==>
        var v := Survivors(cfg, Window(cfg, polls), k);
        all[k] == SampleResult(v, Summary(cfg, v))
    {
      var samples := Snapshot();
      count := |samples|;
      var indexed := IndexSamples(samples);
      all := map[];
      var todo := indexed.Keys;
      while todo != {}
        invariant todo <= indexed.Keys && all.Keys == indexed.Keys - todo
        invariant forall k :: k in all ==> all[k] == SampleResult(indexed[k], Summary(cfg, indexed[k]))
        decreases |todo|
      {
        var k :| k in todo;
        var avg := PopulateSummary(indexed[k]);
        all := all[k := SampleResult(indexed[k], avg)];
        todo := todo - {k};
      }
    }

    /** The published samples of one series, converted to signed words. */
    method ListPublished(values: seq<Instant>) returns (cpu: seq<int>, throttled: seq<int>, memory: seq<int>)
      ensures var pub := Published(cfg, values);
        && cpu == Signed(Column(Cpu, pub)) && throttled == Signed(Column(Throttle, pub))
        && memory == Signed(MemoryColumn(pub))
    {
      cpu, throttled, memory := [], [], [];
      ghost var pub := Published(cfg, values);
      ghost var shift := |values| - |pub|;
      ghost var cs, ts, ms := Column(Cpu, pub), Column(Throttle, pub), MemoryColumn(pub);
      for i := 0 to |values|
        invariant |cpu| == if i <= shift then 0 else i - shift
        invariant Converted(cs, |cpu|, cpu) && Converted(ts, |cpu|, throttled) && Converted(ms, |cpu|, memory)
      {
        if i == 0 && cfg.dropFirst {
          continue;
        }
        var v := values[i];
        assert v == pub[|cpu|];
        cpu := cpu + [ToInt64(v.cpuRate)];
        throttled := throttled + [ToInt64(v.throttleRate)];
        memory := memory + [ToInt64(v.memory)];
      }
    }

    /** The metrics sent for one series. */
    method RespondTo(r: SampleResult, sortResults: bool) returns (m: SeriesMetrics)
      ensures m == Response(cfg, r, sortResults)
    {
      var cpu, throttled, memory := ListPublished(r.values);
      if sortResults {
        cpu, throttled, memory := Operations.Sorted(cpu), Operations.Sorted(throttled), Operations.Sorted(memory);
      }
      m := SeriesMetrics(cpu, throttled, memory, ToInt64(r.avg.cpuRate), ToInt64(r.avg.throttleRate),
                         ToInt64(r.avg.memory), ToInt64(r.avg.oomDelta), ToInt64(r.avg.oomKillDelta));
    }

    method RespondToAll(all: map<SeriesKey, SampleResult>, sortResults: bool)
        returns (resp: map<SeriesKey, SeriesMetrics>)
      ensures resp.Keys == all.Keys
      ensures forall k :: k in resp ==> resp[k] == Response(cfg, all[k], sortResults)
    {
      resp := map[];
      var todo := all.Keys;
      while todo != {}
        invariant todo <= all.Keys && resp.Keys == all.Keys - todo
        invariant forall k :: k in resp ==> resp[k] == Response(cfg, all[k], sortResults)
        decreases |todo|
      {
        var k :| k in todo;
        var m := RespondTo(all[k], sortResults);
        resp := resp[k := m];
        todo := todo - {k};
      }
    }

    /** The response sent to the collectors: one entry per series with a surviving sample, made of its published
        samples and their summary, and obeying the bounds of `Lawful`. */
    method ListMetrics(sortResults: bool) returns (resp: map<SeriesKey, SeriesMetrics>)
      requires Valid()
      ensures forall k :: k in resp <==> Survivors(cfg, Window(cfg, polls), k) != []
      ensures forall k :: k in resp ==> resp[k] == SeriesResponse(cfg, polls, k, sortResults)
      ensures forall k :: k in resp ==> Lawful(cfg, polls, k, resp[k])
    {
      var all, count := GetAllSamples();
      resp := RespondToAll(all, sortResults);
      forall k | k in resp
        ensures resp[k] == SeriesResponse(cfg, polls, k, sortResults) && Lawful(cfg, polls, k, resp[k])
      {
        ResponseLaw(cfg, polls, k, sortResults);
      }
    }
  }

  /** `list` is the conversion of the first `n` words. */
  ghost predicate Converted(xs: seq<u64>, n: nat, list: seq<int>) {
    n == |list| <= |xs| && forall i :: 0 <= i < n ==> list[i] == ToInt64(xs[i])
  }

  /** The conversion to signed words, entry by entry. */
  function Signed(xs: seq<u64>): (r: seq<int>)
    ensures |r| == |xs|
    ensures forall i :: 0 <= i < |xs| ==> r[i] == ToInt64(xs[i])
  {
    seq(|xs|, i requires 0 <= i < |xs| => ToInt64(xs[i]))
  }

  /** A list as it is sent, sorted if the server is told to. */
  function Sent(xs: seq<u64>, sorted: bool): seq<int> {
    if sorted then Operations.Sorted(Signed(xs)) else Signed(xs)
  }

  /** The response built from one summarised series. */
  function Response(cfg: Config, r: SampleResult, sorted: bool): SeriesMetrics {
    var pub := Published(cfg, r.values);
    SeriesMetrics(
      Sent(Column(Cpu, pub), sorted), Sent(Column(Throttle, pub), sorted), Sent(MemoryColumn(pub), sorted),
      ToInt64(r.avg.cpuRate), ToInt64(r.avg.throttleRate), ToInt64(r.avg.memory),
      ToInt64(r.avg.oomDelta), ToInt64(r.avg.oomKillDelta))
  }

  /** The response about one series after the given polls. */
  ghost function SeriesResponse(cfg: Config, polls: seq<Poll>, k: SeriesKey, sorted: bool): SeriesMetrics {
    var v := Survivors(cfg, Window(cfg, polls), k);
    Response(cfg, SampleResult(v, Summary(cfg, v)), sorted)
  }

  /** `list` holds the numbers of `xs` as signed words: in order, or sorted. */
  ghost predicate ListOf(list: seq<int>, xs: seq<u64>, sorted: bool) {
    && |list| == |xs|
    && (!sorted ==> forall i :: 0 <= i < |xs| ==> list[i] == if xs[i] < TWO63 then xs[i] else xs[i] - TWO64)
    && (sorted ==> Operations.IsSorted(list) && multiset(list) == multiset(Signed(xs)))
  }

  /** The published samples of a series, field by field. */
  ghost predicate FieldsOf(pub: seq<Instant>, cpu: seq<u64>, throttled: seq<u64>, memory: seq<u64>) {
    && |cpu| == |throttled| == |memory| == |pub|
    && forall i :: 0 <= i < |pub| ==>
         cpu[i] == pub[i].cpuRate && throttled[i] == pub[i].throttleRate && memory[i] == pub[i].memory
  }

  /** What a response holds: the published samples field by field, and the averages and counts of the summary. */
  lemma ResponseHolds(cfg: Config, r: SampleResult, sorted: bool)
      returns (cpu: seq<u64>, throttled: seq<u64>, memory: seq<u64>)
    ensures FieldsOf(Published(cfg, r.values), cpu, throttled, memory)
    ensures var m := Response(cfg, r, sorted);
            && ListOf(m.cpu, cpu, sorted) && ListOf(m.throttled, throttled, sorted) && ListOf(m.memory, memory, sorted)
            && m.avgCpu == ToInt64(r.avg.cpuRate) && m.avgThrottled == ToInt64(r.avg.throttleRate)
            && m.avgMemory == ToInt64(r.avg.memory)
            && m.oomCount == ToInt64(r.avg.oomDelta) && m.oomKillCount == ToInt64(r.avg.oomKillDelta)
  {
    var pub := Published(cfg, r.values);
    cpu, throttled, memory := Column(Cpu, pub), Column(Throttle, pub), MemoryColumn(pub);
  }

  /** No average sent exceeds the maximum and, if the window law applies and the maximum fits a signed word, each
      lies between two of the samples sent with it. */
  ghost predicate Lawful(cfg: Config, polls: seq<Poll>, k: SeriesKey, m: SeriesMetrics) {
    && m.avgCpu <= cfg.max && m.avgThrottled <= cfg.max
    && (LawApplies(cfg, polls, k) && cfg.max < TWO63 ==>
          Between(m.avgCpu, m.cpu) && Between(m.avgThrottled, m.throttled))
  }

  /** Converting and sorting the samples keeps an average between two of them. */
  lemma SentBetween(a: u64, xs: seq<u64>, sorted: bool, max: u64)
    requires Between(a, xs) && a <= max < TWO63 && forall x :: x in xs ==> x <= max
    ensures Between(ToInt64(a), Sent(xs, sorted))
  {
    assert forall i :: 0 <= i < |xs| ==> xs[i] in xs;
    assert Signed(xs) == xs;
    if sorted {
      var ys := Operations.Sorted(xs);
      var i :| 0 <= i < |xs| && xs[i] <= a;
      var j :| 0 <= j < |xs| && a <= xs[j];
      assert xs[i] in multiset(xs) && xs[j] in multiset(xs);
      assert xs[i] in multiset(ys) && xs[j] in multiset(ys);
    }
  }

  lemma PublishedAtMost(cfg: Config, f: Field, v: seq<Instant>)
    requires forall i :: 0 <= i < |v| ==> Keep(cfg, v[i])
    ensures forall x :: x in Column(f, Published(cfg, v)) ==> x <= cfg.max
  {
  }

  /** One of the two averages, as it is sent. */
  lemma SentWithin(cfg: Config, f: Field, polls: seq<Poll>, k: SeriesKey, sorted: bool, v: seq<Instant>)
    requires v == Survivors(cfg, Window(cfg, polls), k)
    ensures ToInt64(RateOf(f, Summary(cfg, v))) <= cfg.max
    ensures LawApplies(cfg, polls, k) && cfg.max < TWO63 ==>
            Between(ToInt64(RateOf(f, Summary(cfg, v))), Sent(Column(f, Published(cfg, v)), sorted))
  {
    AverageNeverExceedsMax(cfg, f, v);
    if LawApplies(cfg, polls, k) && cfg.max < TWO63 {
      AverageWithinPublished(cfg, f, polls, k);
      PublishedAtMost(cfg, f, v);
      SentBetween(RateOf(f, Summary(cfg, v)), Column(f, Published(cfg, v)), sorted, cfg.max);
    }
  }

  /** What holds of every response built from surviving samples. */
  lemma {:induction false} ResponseLaw(cfg: Config, polls: seq<Poll>, k: SeriesKey, sorted: bool)
    ensures Lawful(cfg, polls, k, SeriesResponse(cfg, polls, k, sorted))
  {
    var v := Survivors(cfg, Window(cfg, polls), k);
    SentWithin(cfg, Cpu, polls, k, sorted, v);
    SentWithin(cfg, Throttle, polls, k, sorted, v);
  }

  /** The samples filed under `k`, none if the key is absent. */
  function Values(all: map<SeriesKey, seq<Instant>>, k: SeriesKey): seq<Instant> {
    if k in all then all[k] else []
  }

  /** What `poll` contributes to `k` once the series in `done` have been visited. */
  ghost function Filed(cfg: Config, poll: Poll, done: set<SeriesKey>, k: SeriesKey): seq<Instant> {
    if k in poll && k in done && Keep(cfg, poll[k]) then [poll[k]] else []
  }

  /** `all` files exactly the surviving samples. */
  ghost predicate Indexed(cfg: Config, samples: seq<Poll>, all: map<SeriesKey, seq<Instant>>) {
    && (forall k :: Values(all, k) == Survivors(cfg, samples, k))
    && (forall k :: k in all ==> all[k] != [])
  }

  /** The wrapping accumulator holds the first `n` words. */
  ghost predicate AddsUp(xs: seq<u64>, n: nat, acc: u64) {
    n <= |xs| && acc == Sum(xs[..n]) % TWO64
  }

  lemma SumOneMore(xs: seq<u64>, n: nat, acc: u64)
    requires n < |xs| && AddsUp(xs, n, acc)
    ensures AddsUp(xs, n + 1, Add64(acc, xs[n]))
  {
    assert xs[..n + 1][..n] == xs[..n];
    Add64OfSum(Sum(xs[..n]), xs[n]);
  }

  /** Appending a derived poll to a derived run gives a derived run. */
  lemma DerivedRunGrows(cfg: Config, polls: seq<Poll>, readings: map<SeriesKey, Reading>)
    requires Chained(cfg, polls)
    ensures Chained(cfg, polls + [Derive(cfg, polls, readings)])
  {
    var p := Derive(cfg, polls, readings);
    var more: seq<Poll> := polls + [p];
    forall i: nat | i < |more| ensures Linked(cfg, more, i) {
      if i < |polls| {
        assert Linked(cfg, polls, i);
        assert more[..i] == polls[..i] && more[i] == polls[i];
      } else {
        assert more[..i] == polls;
      }
    }
  }
}
