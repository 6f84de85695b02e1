/** When the collector declares itself ready: the registration cycles, the page cache and the probe. */
module Readiness {

  /** `minPct` is MinResultPctBeforeReady; the waits and the deletion threshold count passing cycles. */
  datatype Config = Config(minPct: int, waitReady: int, waitServe: int, deleteAfter: int)

  /** The loop's counters and the two flags other goroutines read. */
  datatype Gate = Gate(cycles: nat, remaining: int, serve: bool, ready: bool)

  /** One cycle: how many nodes have fresh results, and how many have a sampler. */
  datatype Cycle = Cycle(results: nat, samplers: nat)

  // ---------------------------------------------------------------- one cycle

  function Start(cfg: Config): Gate {
    Gate(0, cfg.waitReady, cfg.minPct == 0, cfg.minPct == 0)
  }

  /** The readiness test of the code, with its integer division. */
  predicate PctPasses(cfg: Config, c: Cycle)
    requires c.samplers > 0
  {
    c.results * 100 / c.samplers > cfg.minPct
  }

  /** The same without division. */
  predicate Passes(cfg: Config, c: Cycle) {
    100 * c.results >= (cfg.minPct + 1) * c.samplers
  }

  lemma PctPassesIff(cfg: Config, c: Cycle)
    requires c.samplers > 0
    ensures PctPasses(cfg, c) <==> Passes(cfg, c)
  {
    var x, d := c.results * 100, c.samplers;
    var q := x / d;
    assert q * d <= x < (q + 1) * d;
    if q > cfg.minPct {
      Scale(cfg.minPct + 1, q, d);
    } else {
      Scale(q + 1, cfg.minPct + 1, d);
    }
  }

  lemma Scale(a: int, b: int, d: nat)
    requires a <= b
    ensures a * d <= b * d
  {
  }

  function Advance(cfg: Config, g: Gate, c: Cycle): Gate
    requires c.samplers > 0
  {
    if cfg.minPct <= 0 || g.ready || !PctPasses(cfg, c) then g
    else
      var g' := g.(cycles := g.cycles + 1, serve := g.serve || g.cycles + 1 > cfg.waitServe);
      if g.remaining <= 0 then g'.(serve := true, ready := true)
      else g'.(remaining := g.remaining - 1)
  }

  // ---------------------------------------------------------------- the code

  datatype Pod = Pod(nodeName: string, running: bool)

  class Collector {
    const cfg: Config
    var cyclesCount: nat
    var waitReadyCyclesCount: int
    var serveResults: bool
    var isReadyResult: bool

    function State(): Gate
      reads this
    {
      Gate(cyclesCount, waitReadyCyclesCount, serveResults, isReadyResult)
    }

    constructor (cfg: Config)
      ensures this.cfg == cfg && State() == Start(cfg)
    {
      this.cfg := cfg;
      cyclesCount, waitReadyCyclesCount := 0, cfg.waitReady;
      serveResults, isReadyResult := cfg.minPct == 0, cfg.minPct == 0;
    }

    /** One pass of the registration loop over the sampler pods; the percentage is computed from all of
        them, so there must be one. */
    method RegistrationCycle(samplers: seq<Pod>, nodesWithResults: set<string>)
      requires samplers != []
      modifies this
      ensures NodesOf(samplers) != {}
      ensures State() == Advance(cfg, old(State()), Cycle(|nodesWithResults|, |NodesOf(samplers)|))
    {
      var nodesWithSamplers: set<string> := {};
      for i := 0 to |samplers|
        invariant nodesWithSamplers == NodesOf(samplers[..i])
      {
        nodesWithSamplers := nodesWithSamplers + {samplers[i].nodeName};
        assert samplers[..i + 1] == samplers[..i] + [samplers[i]];
      }
      assert samplers[..|samplers|] == samplers;
      assert samplers[0].nodeName in nodesWithSamplers;
      if cfg.minPct > 0 && !isReadyResult {
        var readyPct := |nodesWithResults| * 100 / |nodesWithSamplers|;
        if readyPct > cfg.minPct {
          cyclesCount := cyclesCount + 1;
          if cyclesCount > cfg.waitServe {
            serveResults := true;
          }
          if waitReadyCyclesCount <= 0 {
            serveResults := true;
            isReadyResult := true;
          } else {
            waitReadyCyclesCount := waitReadyCyclesCount - 1;
          }
        }
      }
    }
  }

  /** The nodes some sampler pod is placed on, running or not. */
  function NodesOf(pods: seq<Pod>): set<string> {
    set p | p in pods :: p.nodeName
  }

  /** A node counts as having a sampler when any sampler pod is placed on it, running or not. */
  lemma NodesAre(pods: seq<Pod>, n: string)
    ensures n in NodesOf(pods) <==> exists i :: 0 <= i < |pods| && pods[i].nodeName == n
  {
    if i :| 0 <= i < |pods| && pods[i].nodeName == n {
      assert pods[i] in pods;
    }
  }

  // ---------------------------------------------------------------- all cycles

  ghost predicate Sampled(cycles: seq<Cycle>) {
    forall i :: 0 <= i < |cycles| ==> cycles[i].samplers > 0
  }

  function RunCycles(cfg: Config, cycles: seq<Cycle>): Gate
    requires Sampled(cycles)
  {
    if cycles == [] then Start(cfg)
    else Advance(cfg, RunCycles(cfg, cycles[..|cycles| - 1]), cycles[|cycles| - 1])
  }

  /** How many of the cycles pass. */
  function Passing(cfg: Config, cycles: seq<Cycle>): nat {
    if cycles == [] then 0
    else Passing(cfg, cycles[..|cycles| - 1]) + if Passes(cfg, cycles[|cycles| - 1]) then 1 else 0
  }

  function Max(a: int, b: int): int { if a < b then b else a }

  function Min(a: int, b: int): int { if a < b then a else b }

  /** READINESS COUNTING: after any cycles, `p` of which pass, results are served iff `p` exceeds the
      shorter wait and the collector is ready iff `p` exceeds the ready wait; counting stops there. */
  lemma {:induction false} ReadinessCounts(cfg: Config, cycles: seq<Cycle>)
    requires Sampled(cycles) && cfg.minPct > 0
    ensures var g := RunCycles(cfg, cycles);
            var p := Passing(cfg, cycles);
            var ready, serve := Max(cfg.waitReady, 0), Max(cfg.waitServe, 0);
            && (g.ready <==> p > ready)
            && (g.serve <==> p > Min(serve, ready))
            && g.cycles == Min(p, ready + 1)
            && g.remaining == cfg.waitReady - Min(p, ready)
  {
    if cycles != [] {
      var n := |cycles| - 1;
      ReadinessCounts(cfg, cycles[..n]);
      PctPassesIff(cfg, cycles[n]);
    }
  }

  /** Without a percentage the collector is ready at once; with a negative one, never. */
  lemma {:induction false} ReadinessWithoutCounting(cfg: Config, cycles: seq<Cycle>)
    requires Sampled(cycles) && cfg.minPct <= 0
    ensures RunCycles(cfg, cycles) == Start(cfg)
    ensures RunCycles(cfg, cycles).ready == RunCycles(cfg, cycles).serve == (cfg.minPct == 0)
  {
    if cycles != [] {
      ReadinessWithoutCounting(cfg, cycles[..|cycles| - 1]);
    }
  }

  /** Neither flag is ever withdrawn. */
  lemma {:induction false} FlagsNeverRevert(cfg: Config, cycles: seq<Cycle>, n: nat)
    requires Sampled(cycles) && n <= |cycles|
    ensures RunCycles(cfg, cycles[..n]).serve ==> RunCycles(cfg, cycles).serve
    ensures RunCycles(cfg, cycles[..n]).ready ==> RunCycles(cfg, cycles).ready
  {
    if n == |cycles| {
      assert cycles[..n] == cycles;
    } else {
      var m := |cycles| - 1;
      FlagsNeverRevert(cfg, cycles[..m], n);
      assert cycles[..m][..n] == cycles[..n];
    }
  }

  /** Pods that cannot be registered are deleted only once more than `deleteAfter` cycles have passed, and
      the counter gets that far exactly when enough cycles pass and the ready wait is long enough. */
  lemma DeletionEnabledIff(cfg: Config, cycles: seq<Cycle>)
    requires Sampled(cycles) && cfg.minPct > 0
    ensures RunCycles(cfg, cycles).cycles > cfg.deleteAfter <==>
            Passing(cfg, cycles) > cfg.deleteAfter && Max(cfg.waitReady, 0) >= cfg.deleteAfter
  {
    ReadinessCounts(cfg, cycles);
  }

  // ---------------------------------------------------------------- page cache and probe

  /** Where the caching loop is. Every stage carries what was read from `ServeResults` before the scrape. */
  datatype Stage =
    | Idle
    | Loaded(metricsReady: bool)
    | Scraping(metricsReady: bool, began: nat)
    | Collected(metricsReady: bool, began: nat, gate: nat)
    | Stored(metricsReady: bool)

  /** Where the registration goroutine is. The two flags are stored one after the other, `ServeResults` first, both
      at start-up without a percentage and when the last awaited cycle has passed. */
  datatype Registrar = Starting | Between | ReadyPending

  datatype State = State(gate: Gate, registrar: Registrar, stage: Stage, cached: bool, time: nat)

  /** Steps of the registration loop and of the caching loop; a scrape that fails is begun again. */
  datatype Event =
    | Launch
    | Register(c: Cycle)
    | StoreReady
    | LoadServe
    | BeginScrape
    | Collect
    | FailScrape
    | StorePage
    | FinishPage

  predicate Enabled(s: State, e: Event) {
    match e
    case Launch => s.registrar.Starting?
    case Register(c) => s.registrar.Between? && c.samplers > 0
    case StoreReady => s.registrar.ReadyPending?
    case LoadServe => s.stage.Idle?
    case BeginScrape => s.stage.Loaded?
    case Collect => s.stage.Scraping?
    case FailScrape => s.stage.Scraping? || s.stage.Collected?
    case StorePage => s.stage.Collected?
    case FinishPage => s.stage.Stored?
  }

  /** `s` with the counters and `ServeResults` of `g`; if `g` is newly ready, storing that is still to be done. */
  function Publish(s: State, g: Gate): State {
    s.(gate := g.(ready := s.gate.ready), registrar := if g.ready && !s.gate.ready then ReadyPending else Between)
  }

  function Step(cfg: Config, s: State, e: Event): State
    requires Enabled(s, e)
  {
    var s' := s.(time := s.time + 1);
    match e
    case Launch => Publish(s', Start(cfg))
    case Register(c) => Publish(s', Advance(cfg, s.gate, c))
    case StoreReady => s'.(gate := s.gate.(ready := true), registrar := Between)
    case LoadServe => s'.(stage := Loaded(s.gate.serve))
    case BeginScrape => s'.(stage := Scraping(s.stage.metricsReady, s.time))
    case Collect => s'.(stage := Collected(s.stage.metricsReady, s.stage.began, s.time))
    case FailScrape => s'.(stage := Loaded(s.stage.metricsReady))
    case StorePage => s'.(stage := Stored(s.stage.metricsReady))
    case FinishPage => s'.(stage := Idle, cached := s.cached || s.stage.metricsReady)
  }

  /** Both flags are false when the process starts. */
  function Initial(cfg: Config): State {
    State(Gate(0, cfg.waitReady, false, false), Starting, Idle, false, 0)
  }

  /** `states` is what `events` go through, each event possible when it happens. */
  ghost predicate Run(cfg: Config, events: seq<Event>, states: seq<State>) {
    && |states| == |events| + 1
    && states[0] == Initial(cfg)
    && forall i :: 0 <= i < |events| ==> Enabled(states[i], events[i]) && states[i + 1] == Step(cfg, states[i], events[i])
  }

  /** By step `n` a page was stored whose scrape began at step `b` and was collected at step `g`, with
      `ServeResults` already true both times. */
  ghost predicate PageWithResults(events: seq<Event>, states: seq<State>, n: nat)
    requires n <= |events| && |states| == |events| + 1
  {
    exists b, g, p :: 0 <= b < g < p < n && OpenPage(events, states, b, g, p)
  }

  ghost predicate OpenPage(events: seq<Event>, states: seq<State>, b: nat, g: nat, p: nat)
    requires b < g < p < |events| && |states| == |events| + 1
  {
    && events[b] == BeginScrape && states[b].gate.serve
    && events[g] == Collect && states[g].gate.serve
    && events[p] == StorePage
    && forall i :: b < i <= p ==> events[i] != BeginScrape
  }

  /** The scrape under way began at `b`, and not again since. */
  ghost predicate BeganAt(events: seq<Event>, n: nat, b: nat)
    requires n <= |events|
  {
    b < n && events[b] == BeginScrape && forall i :: b < i < n ==> events[i] != BeginScrape
  }

  /** What the stage of the caching loop says about the past. */
  ghost predicate StageOk(events: seq<Event>, states: seq<State>, n: nat)
    requires n <= |events| && |states| == |events| + 1
  {
    var s := states[n];
    match s.stage
    case Idle => true
    case Loaded(r) => r ==> s.gate.serve
    case Scraping(r, b) => BeganAt(events, n, b) && (r ==> s.gate.serve && states[b].gate.serve)
    case Collected(r, b, g) =>
      && b < g < n && events[g] == Collect && BeganAt(events, n, b)
      && (r ==> s.gate.serve && states[b].gate.serve && states[g].gate.serve)
    case Stored(r) => r ==> s.gate.serve && PageWithResults(events, states, n)
  }

  /** What holds after `n` steps. */
  ghost predicate Invariant(events: seq<Event>, states: seq<State>, n: nat)
    requires n <= |events| && |states| == |events| + 1
  {
    && states[n].time == n
    && (states[n].cached ==> PageWithResults(events, states, n))
    && (states[n].registrar.Starting? ==> !states[n].gate.serve)
    && StageOk(events, states, n)
  }

  lemma PageStays(events: seq<Event>, states: seq<State>, n: nat)
    requires n < |events| && |states| == |events| + 1 && PageWithResults(events, states, n)
    ensures PageWithResults(events, states, n + 1)
  {
    var b, g, p :| 0 <= b < g < p < n && OpenPage(events, states, b, g, p);
    assert OpenPage(events, states, b, g, p);
  }

  /** `ServeResults` is never withdrawn. */
  lemma ServeStays(cfg: Config, s: State, e: Event)
    requires Enabled(s, e) && (s.registrar.Starting? ==> !s.gate.serve)
    ensures s.gate.serve ==> Step(cfg, s, e).gate.serve
  {
  }

  lemma StageStep(cfg: Config, events: seq<Event>, states: seq<State>, m: nat)
    requires Run(cfg, events, states) && m < |events| && Invariant(events, states, m)
    requires PageWithResults(events, states, m) ==> PageWithResults(events, states, m + 1)
    ensures StageOk(events, states, m + 1)
  {
    var s := states[m];
    assert states[m + 1] == Step(cfg, s, events[m]);
    ServeStays(cfg, s, events[m]);
    if events[m] == StorePage && s.stage.metricsReady {
      assert OpenPage(events, states, s.stage.began, s.stage.gate, m);
    }
  }

  lemma {:induction false} InvariantHolds(cfg: Config, events: seq<Event>, states: seq<State>, n: nat)
    requires Run(cfg, events, states) && n <= |events|
    ensures Invariant(events, states, n)
  {
    if n > 0 {
      var m := n - 1;
      InvariantHolds(cfg, events, states, m);
      assert states[m + 1] == Step(cfg, states[m], events[m]);
      if PageWithResults(events, states, m) {
        PageStays(events, states, m);
      }
      StageStep(cfg, events, states, m);
    }
  }

  /** The probe reads `IsReadyResult` after `r` steps and `IsCached` after `q`, and answers SERVING if both
      are set. */
  ghost predicate AnswersServing(states: seq<State>, r: nat, q: nat)
    requires r <= q < |states|
  {
    states[r].gate.ready && states[q].cached
  }

  /** SERVING IS TRUTHFUL: in every interleaving the probe answers SERVING only after a page was stored
      whose scrape began, and was collected, with `ServeResults` already true. */
  lemma ServingOnlyAfterPage(cfg: Config, events: seq<Event>, states: seq<State>, r: nat, q: nat)
    requires Run(cfg, events, states) && r <= q <= |events| && AnswersServing(states, r, q)
    ensures PageWithResults(events, states, q)
  {
    InvariantHolds(cfg, events, states, q);
  }

  /** The registration cycles among the first `n` events. */
  function CyclesOf(events: seq<Event>, n: nat): seq<Cycle>
    requires n <= |events|
  {
    if n == 0 then []
    else CyclesOf(events, n - 1) + match events[n - 1] case Register(c) => [c] case _ => []
  }

  /** The gate is the one after all the cycles so far, except that a store may still be to come. */
  ghost predicate GateOk(cfg: Config, s: State, cycles: seq<Cycle>) {
    && Sampled(cycles)
    && var g := RunCycles(cfg, cycles);
       match s.registrar
       case Starting => cycles == [] && !s.gate.serve && !s.gate.ready
       case Between => s.gate == g
       case ReadyPending => g.ready && s.gate == g.(ready := false)
  }

  lemma GateStep(cfg: Config, s: State, e: Event, cycles: seq<Cycle>)
    requires Enabled(s, e) && GateOk(cfg, s, cycles)
    ensures GateOk(cfg, Step(cfg, s, e), cycles + match e case Register(c) => [c] case _ => [])
  {
    match e
    case Register(c) =>
      assert (cycles + [c])[..|cycles|] == cycles;
    case _ =>
      assert cycles + [] == cycles;
  }

  lemma {:induction false} GateCountsCycles(cfg: Config, events: seq<Event>, states: seq<State>, n: nat)
    requires Run(cfg, events, states) && n <= |events|
    ensures GateOk(cfg, states[n], CyclesOf(events, n))
  {
    if n > 0 {
      GateCountsCycles(cfg, events, states, n - 1);
      assert states[n - 1 + 1] == Step(cfg, states[n - 1], events[n - 1]);
      GateStep(cfg, states[n - 1], events[n - 1], CyclesOf(events, n - 1));
    }
  }

  /** In every interleaving a ready collector also serves results, also between the two stores. */
  lemma ReadyImpliesServing(cfg: Config, events: seq<Event>, states: seq<State>, n: nat)
    requires Run(cfg, events, states) && n <= |events|
    ensures states[n].gate.ready ==> states[n].gate.serve
  {
    GateCountsCycles(cfg, events, states, n);
    var cycles := CyclesOf(events, n);
    if cfg.minPct > 0 {
      ReadinessCounts(cfg, cycles);
    } else {
      ReadinessWithoutCounting(cfg, cycles);
    }
  }

  /** And only after more passing registration cycles than the ready wait, unless none are asked for. */
  lemma ServingOnlyAfterCycles(cfg: Config, events: seq<Event>, states: seq<State>, r: nat, q: nat)
    requires Run(cfg, events, states) && r <= q <= |events| && AnswersServing(states, r, q)
    ensures cfg.minPct == 0 ||
            (cfg.minPct > 0 && Passing(cfg, CyclesOf(events, r)) > Max(cfg.waitReady, 0))
  {
    GateCountsCycles(cfg, events, states, r);
    if cfg.minPct > 0 {
      ReadinessCounts(cfg, CyclesOf(events, r));
    } else {
      ReadinessWithoutCounting(cfg, CyclesOf(events, r));
    }
  }
}
