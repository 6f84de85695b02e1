/** The collector's cache of the last message of every node, with a time to live. */
module ResponseCache {
  import opened Options

  /** A message: which one it is, and the time it was received. */
  datatype Message = Message(id: nat, timestamp: nat)

  type Responses = map<string, Message>

  /** A message older than the time to live. */
  predicate Expired(m: Message, now: int, ttl: nat) {
    now - m.timestamp > ttl
  }

  // ---------------------------------------------------------------- the code

  class Server {
    var responses: Responses
    const ttl: nat

    constructor (ttl: nat)
      ensures responses == map[] && this.ttl == ttl
    {
      this.ttl := ttl;
      responses := map[];
    }

    method CacheMetrics(node: string, m: Message)
      modifies this
      ensures responses == old(responses)[node := m]
    {
      responses := responses[node := m];
    }

    method ClearMetrics(node: string)
      modifies this
      ensures responses == old(responses) - {node}
    {
      responses := responses - {node};
    }

    /** One received message: dropped without a node name, otherwise stamped and cached. */
    method ReceiveMetrics(node: string, id: nat, now: nat)
      modifies this
      ensures responses == if node == "" then old(responses) else old(responses)[node := Message(id, now)]
    {
      if node == "" {
        return;
      }
      CacheMetrics(node, Message(id, now));
    }

    /** A copy of the cache. When asked to filter, every entry is checked against the clock; `clock[k]` is
        what the clock shows when the entry of `k` is checked. */
    method GetMetrics(filterExpired: bool, clock: map<string, int>) returns (values: Responses)
      requires clock.Keys >= responses.Keys
      ensures values == if filterExpired then Fresh(responses, clock, ttl) else responses
      ensures forall k :: k in values <==>
        k in responses && (filterExpired ==> clock[k] <= responses[k].timestamp + ttl)
      ensures forall k :: k in values ==> values[k] == responses[k]
    {
      values := responses;
      if filterExpired {
        var todo := values.Keys;
        while todo != {}
          invariant todo <= responses.Keys
          invariant values == map k | k in responses && (k in todo || !Expired(responses[k], clock[k], ttl)) :: responses[k]
          decreases |todo|
        {
          var k :| k in todo;
          todo := todo - {k};
          if Expired(values[k], clock[k], ttl) {
            values := values - {k};
          }
        }
      }
    }

    /** The nodes with a message that is not expired, all checked while the lock is held. */
    method GetNodeNames(clock: map<string, int>) returns (nodes: set<string>)
      requires clock.Keys >= responses.Keys
      ensures nodes == Fresh(responses, clock, ttl).Keys
      ensures forall k :: k in nodes <==> k in responses && clock[k] <= responses[k].timestamp + ttl
    {
      nodes := {};
      var todo := responses.Keys;
      while todo != {}
        invariant todo <= responses.Keys
        invariant nodes == set k | k in responses && k !in todo && !Expired(responses[k], clock[k], ttl)
        decreases |todo|
      {
        var k :| k in todo;
        todo := todo - {k};
        if Expired(responses[k], clock[k], ttl) {
          continue;
        }
        nodes := nodes + {k};
      }
    }
  }

  /** The entries of `r` that are not expired when checked. */
  function Fresh(r: Responses, clock: map<string, int>, ttl: nat): Responses
    requires clock.Keys >= r.Keys
  {
    map k | k in r && !Expired(r[k], clock[k], ttl) :: r[k]
  }

  // ---------------------------------------------------------------- runs

  /** Atomic steps of the receivers and of the one expiry sweeper. A sweep copies the cache, then clears,
      one by one and by key, the nodes whose copied message has expired. An expired message stays expired, so
      judging it at the clear allows every clear the code can make. */
  datatype Event =
    | Tick(seconds: nat)
    | Cache(node: string, m: Message)
    | SweepBegin
    | SweepClear(node: string)
    | SweepEnd

  datatype State = State(responses: Responses, now: nat, sweep: Option<Responses>)

  const START := State(map[], 0, None)

  predicate Enabled(s: State, e: Event, ttl: nat) {
    match e
    case Tick(_) => true
    case Cache(node, m) => node != "" && m.timestamp <= s.now
    case SweepBegin => s.sweep.None?
    case SweepClear(k) => s.sweep.Some? && k in s.sweep.value && Expired(s.sweep.value[k], s.now, ttl)
    case SweepEnd => s.sweep.Some?
  }

  function Step(s: State, e: Event): State {
    match e
    case Tick(d) => s.(now := s.now + d)
    case Cache(node, m) => s.(responses := s.responses[node := m])
    case SweepBegin => s.(sweep := Some(s.responses))
    case SweepClear(k) => s.(responses := s.responses - {k})
    case SweepEnd => s.(sweep := None)
  }

  /** The state after `events`. */
  function After(events: seq<Event>): State {
    if events == [] then START else Step(After(events[..|events| - 1]), events[|events| - 1])
  }

  /** Every event was possible when it happened. */
  predicate Run(events: seq<Event>, ttl: nat) {
    forall i :: 0 <= i < |events| ==> Enabled(After(events[..i]), events[i], ttl)
  }

  lemma Prefix(events: seq<Event>, n: nat, i: nat)
    requires i <= n <= |events|
    ensures events[..n][..i] == events[..i]
  {
  }

  lemma RunPrefix(events: seq<Event>, ttl: nat, n: nat)
    requires Run(events, ttl) && n <= |events|
    ensures Run(events[..n], ttl)
  {
    forall i | 0 <= i < n ensures Enabled(After(events[..n][..i]), events[..n][i], ttl) {
      Prefix(events, n, i);
    }
  }

  lemma {:induction false} ClockNeverGoesBack(events: seq<Event>, n: nat)
    requires n <= |events|
    ensures After(events[..n]).now <= After(events).now
  {
    if n == |events| {
      assert events[..n] == events;
    } else {
      var m := |events| - 1;
      ClockNeverGoesBack(events[..m], n);
      Prefix(events, m, n);
    }
  }

  /** Step `p` cached `m` for node `k`, and nothing was cached for `k` since. */
  ghost predicate LastCached(events: seq<Event>, k: string, p: nat, m: Message) {
    && p < |events| && events[p] == Cache(k, m)
    && forall i :: p < i < |events| && events[i].Cache? ==> events[i].node != k
  }

  /** What is in the cache for `k` is the last message cached for it. */
  lemma {:induction false} HoldsLastCached(events: seq<Event>, k: string) returns (p: nat)
    requires k in After(events).responses
    ensures LastCached(events, k, p, After(events).responses[k])
  {
    var n := |events| - 1;
    var last := events[n];
    if last.Cache? && last.node == k {
      p := n;
    } else {
      p := HoldsLastCached(events[..n], k);
    }
  }

  /** A message leaves the cache only by being replaced or cleared. */
  lemma {:induction false} StaysUntilCleared(events: seq<Event>, k: string, p: nat, m: Message)
    requires LastCached(events, k, p, m)
    requires forall i :: p < i < |events| ==> events[i] != SweepClear(k)
    ensures k in After(events).responses && After(events).responses[k] == m
  {
    var n := |events| - 1;
    if p < n {
      StaysUntilCleared(events[..n], k, p, m);
    }
  }

  /** A cleared node stays away until something is cached for it. */
  lemma {:induction false} StaysCleared(events: seq<Event>, k: string, d: nat)
    requires d < |events| && events[d] == SweepClear(k)
    requires forall i :: d < i < |events| && events[i].Cache? ==> events[i].node != k
    ensures k !in After(events).responses
  {
    var n := |events| - 1;
    if d < n {
      StaysCleared(events[..n], k, d);
    }
  }

  /** The cache holds `k` exactly when its last cached message was not cleared since. */
  lemma HoldsIff(events: seq<Event>, k: string, p: nat, m: Message)
    requires LastCached(events, k, p, m)
    ensures k in After(events).responses <==> forall i :: p < i < |events| ==> events[i] != SweepClear(k)
    ensures k in After(events).responses ==> After(events).responses[k] == m
  {
    if i :| p < i < |events| && events[i] == SweepClear(k) {
      StaysCleared(events, k, i);
    } else {
      StaysUntilCleared(events, k, p, m);
    }
  }

  /** The sweep in progress copied the cache at its beginning, and no sweep began since. */
  lemma {:induction false} SweepCopy(events: seq<Event>, ttl: nat) returns (s: nat)
    requires Run(events, ttl) && After(events).sweep.Some?
    ensures s < |events| && events[s] == SweepBegin && After(events).sweep.value == After(events[..s]).responses
    ensures forall i :: s < i < |events| ==> events[i] != SweepBegin && events[i] != SweepEnd
  {
    var n := |events| - 1;
    if events[n] == SweepBegin {
      s := n;
    } else {
      RunPrefix(events, ttl, n);
      assert After(events).sweep == After(events[..n]).sweep;
      s := SweepCopy(events[..n], ttl);
      Prefix(events, n, s);
      forall i | s < i < |events| ensures events[i] != SweepBegin && events[i] != SweepEnd {
        assert i < n ==> events[..n][i] == events[i];
      }
    }
  }

  // ---------------------------------------------------------------- reads

  /** A filtered read begun after `b` events, whose entry of node `k` is checked after `check[k]` events. */
  ghost function Read(events: seq<Event>, ttl: nat, b: nat, check: map<string, nat>): Responses
    requires b <= |events|
    requires check.Keys >= After(events[..b]).responses.Keys
    requires forall k :: k in check ==> b <= check[k] <= |events|
  {
    Fresh(After(events[..b]).responses, map k | k in check :: After(events[..check[k]]).now as int, ttl)
  }

  /** A read returns for each node only its last cached message, and only if that is fresh when checked. */
  lemma ReadsTheLastFreshMessage(events: seq<Event>, ttl: nat, b: nat, check: map<string, nat>, k: string)
      returns (p: nat)
    requires b <= |events|
    requires check.Keys >= After(events[..b]).responses.Keys
    requires forall k :: k in check ==> b <= check[k] <= |events|
    requires k in Read(events, ttl, b, check)
    ensures p < b && LastCached(events[..b], k, p, Read(events, ttl, b, check)[k])
    ensures !Expired(Read(events, ttl, b, check)[k], After(events[..check[k]]).now, ttl)
  {
    p := HoldsLastCached(events[..b], k);
  }

  /** A sweep that began at step `s`, when it saw an expired message of `k`, cleared `k` at step `d`, after
      step `p` had cached a newer one. */
  ghost predicate Overtaken(events: seq<Event>, ttl: nat, k: string, s: nat, p: nat, d: nat)
    requires d < |events|
  {
    && s < p < d
    && events[s] == SweepBegin && events[d] == SweepClear(k)
    && (forall i :: s < i < d ==> events[i] != SweepBegin && events[i] != SweepEnd)
    && k in After(events[..s]).responses
    && Expired(After(events[..s]).responses[k], After(events[..d]).now, ttl)
  }

  /** THE TTL LAW. In every run a read misses a message that is the node's last one and fresh when checked
      if and only if a sweep that had copied an earlier, expired message cleared the node afterwards. */
  lemma MissesFreshOnlyIfOvertaken(
      events: seq<Event>, ttl: nat, b: nat, check: map<string, nat>, k: string, p: nat, m: Message)
    requires Run(events, ttl) && b <= |events|
    requires check.Keys >= After(events[..b]).responses.Keys && k in check
    requires forall k :: k in check ==> b <= check[k] <= |events|
    requires LastCached(events[..b], k, p, m) && !Expired(m, After(events[..check[k]]).now, ttl)
    ensures k !in Read(events, ttl, b, check) <==> exists s: nat, d: nat :: d < b && Overtaken(events, ttl, k, s, p, d)
  {
    HoldsIff(events[..b], k, p, m);
    assert k in Read(events, ttl, b, check) <==> k in After(events[..b]).responses;
    if k !in After(events[..b]).responses {
      var s, d := FindOvertaker(events, ttl, b, check[k], k, p, m);
    }
    if s: nat, d: nat :| d < b && Overtaken(events, ttl, k, s, p, d) {
      assert events[..b][d] == SweepClear(k);
    }
  }

  lemma FindOvertaker(events: seq<Event>, ttl: nat, b: nat, c: nat, k: string, p: nat, m: Message)
      returns (s: nat, d: nat)
    requires Run(events, ttl) && b <= c <= |events|
    requires LastCached(events[..b], k, p, m) && !Expired(m, After(events[..c]).now, ttl)
    requires k !in After(events[..b]).responses
    ensures d < b && Overtaken(events, ttl, k, s, p, d)
  {
    HoldsIff(events[..b], k, p, m);
    d :| p < d < b && events[..b][d] == SweepClear(k);
    s := SweepWasOld(events, ttl, b, c, k, p, m, d);
  }

  /** The sweep behind a clear: it had copied a message of the node that has expired by now. */
  lemma SweepBehind(events: seq<Event>, ttl: nat, k: string, d: nat) returns (s: nat)
    requires Run(events, ttl) && d < |events| && events[d] == SweepClear(k)
    ensures s < d && events[s] == SweepBegin
    ensures forall i :: s < i < d ==> events[i] != SweepBegin && events[i] != SweepEnd
    ensures k in After(events[..s]).responses
    ensures Expired(After(events[..s]).responses[k], After(events[..d]).now, ttl)
  {
    RunPrefix(events, ttl, d);
    assert Enabled(After(events[..d]), events[d], ttl);
    s := SweepCopy(events[..d], ttl);
    Prefix(events, d, s);
    forall i | s < i < d ensures events[i] != SweepBegin && events[i] != SweepEnd {
      assert events[..d][i] == events[i];
    }
  }

  /** The sweep behind a clear that hit a fresh message had begun before that message was cached. */
  lemma SweepWasOld(
      events: seq<Event>, ttl: nat, b: nat, c: nat, k: string, p: nat, m: Message, d: nat) returns (s: nat)
    requires Run(events, ttl) && d < b <= c <= |events|
    requires LastCached(events[..b], k, p, m) && !Expired(m, After(events[..c]).now, ttl)
    requires p < d && events[d] == SweepClear(k)
    ensures Overtaken(events, ttl, k, s, p, d)
  {
    s := SweepBehind(events, ttl, k, d);
    ClockNeverGoesBack(events[..c], d);
    Prefix(events, c, d);
    assert events[p] == Cache(k, m);
    if s > p {
      var q := HoldsLastCached(events[..s], k);
      SameLastCached(events, b, k, p, m, s, q);
    }
  }

  lemma SameLastCached(events: seq<Event>, b: nat, k: string, p: nat, m: Message, s: nat, q: nat)
    requires p < s <= b <= |events| && LastCached(events[..b], k, p, m)
    requires k in After(events[..s]).responses && LastCached(events[..s], k, q, After(events[..s]).responses[k])
    ensures After(events[..s]).responses[k] == m
  {
    assert events[..b][q] == events[q] && events[..s][q] == events[q];
    assert events[..b][p] == events[p] && events[..s][p] == events[p];
  }

  /** Such a run exists: a push that lands between the copy and the clear of a sweep is lost. */
  lemma FreshMessageCanBeLost()
    ensures exists events :: Run(events, 60) && Lost(events, 60, "n", 3, Message(1, 61))
  {
    var events := [Cache("n", Message(0, 0)), Tick(61), SweepBegin, Cache("n", Message(1, 61)), SweepClear("n")];
    var first := map["n" := Message(0, 0)];
    AfterStep(events, 0);
    assert After(events[..1]) == State(first, 0, None);
    AfterStep(events, 1);
    assert After(events[..2]) == State(first, 61, None);
    AfterStep(events, 2);
    assert After(events[..3]) == State(first, 61, Some(first));
    AfterStep(events, 3);
    assert After(events[..4]) == State(map["n" := Message(1, 61)], 61, Some(first));
    AfterStep(events, 4);
    assert events[..5] == events;
    assert Run(events, 60) && Lost(events, 60, "n", 3, Message(1, 61));
  }

  /** `m` is the last message of `k`, still fresh, and not in the cache. */
  ghost predicate Lost(events: seq<Event>, ttl: nat, k: string, p: nat, m: Message) {
    LastCached(events, k, p, m) && !Expired(m, After(events).now, ttl) && k !in After(events).responses
  }

  lemma AfterStep(events: seq<Event>, i: nat)
    requires i < |events|
    ensures After(events[..0]) == START
    ensures After(events[..i + 1]) == Step(After(events[..i]), events[i])
  {
    Prefix(events, i + 1, i);
  }
}
