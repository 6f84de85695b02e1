/** The sampler's table of collector streams, changed under one lock by many goroutines. */
module ConnectionTable {

  datatype Connection = Connection(stream: nat, addr: string)

  /** The table, the streams whose context is not cancelled, and the address every stream was opened for.
      Streams are numbered in the order they are opened. */
  datatype Table = Table(connections: map<string, Connection>, live: set<nat>, dialled: seq<string>)

  const EMPTY := Table(map[], {}, [])

  // ---------------------------------------------------------------- locked sections

  /** One address of a registration: skipped if empty or present, or if the stream cannot be opened. */
  function AddOne(t: Table, addr: string, ok: bool): Table {
    if addr == "" || addr in t.connections || !ok then t
    else
      var stream := |t.dialled|;
      Table(t.connections[addr := Connection(stream, addr)], t.live + {stream}, t.dialled + [addr])
  }

  function AddAll(t: Table, addrs: seq<string>, ok: seq<bool>): Table
    requires |addrs| == |ok|
  {
    if addrs == [] then t
    else
      var n := |addrs| - 1;
      AddOne(AddAll(t, addrs[..n], ok[..n]), addrs[n], ok[n])
  }

  /** Stops and forgets the connection of one address, if there is one. */
  function RemoveOne(t: Table, addr: string): Table {
    if addr !in t.connections then t
    else t.(connections := t.connections - {addr}, live := t.live - {t.connections[addr].stream})
  }

  function RemoveAll(t: Table, addrs: seq<string>): Table {
    if addrs == [] then t
    else
      var n := |addrs| - 1;
      RemoveOne(RemoveAll(t, addrs[..n]), addrs[n])
  }

  function ShutDown(t: Table): Table {
    t.(connections := map[], live := t.live - set a | a in t.connections :: t.connections[a].stream)
  }

  // ---------------------------------------------------------------- the code

  class Server {
    var connections: map<string, Connection>
    var live: set<nat>
    var dialled: seq<string>

    function State(): Table
      reads this
    {
      Table(connections, live, dialled)
    }

    constructor ()
      ensures State() == EMPTY
    {
      connections, live, dialled := map[], {}, [];
    }

    /** Cancels the context of a stream. */
    method Stop(stream: nat)
      modifies this`live
      ensures live == old(live) - {stream}
    {
      live := live - {stream};
    }

    /** `ok[i]` says whether dialling and opening the stream to `addrs[i]` would succeed. */
    method AddConnectionsIfMissing(addrs: seq<string>, ok: seq<bool>)
      requires |addrs| == |ok|
      modifies this
      ensures State() == AddAll(old(State()), addrs, ok)
    {
      for i := 0 to |addrs|
        invariant State() == AddAll(old(State()), addrs[..i], ok[..i])
      {
        assert addrs[..i + 1][..i] == addrs[..i] && ok[..i + 1][..i] == ok[..i];
        var addr := addrs[i];
        if addr == "" {
          continue;
        }
        if addr in connections {
          continue;
        }
        if !ok[i] {
          continue;
        }
        var stream := |dialled|;
        dialled, live := dialled + [addr], live + {stream};
        connections := connections[addr := Connection(stream, addr)];
      }
      assert addrs[..|addrs|] == addrs && ok[..|ok|] == ok;
    }

    method RemoveConnections(addrs: seq<string>)
      modifies this
      ensures State() == RemoveAll(old(State()), addrs)
    {
      for i := 0 to |addrs|
        invariant State() == RemoveAll(old(State()), addrs[..i])
      {
        assert addrs[..i + 1][..i] == addrs[..i];
        if addrs[i] in connections {
          Stop(connections[addrs[i]].stream);
          connections := connections - {addrs[i]};
        }
      }
      assert addrs[..|addrs|] == addrs;
    }

    method ShutdownAllConnections()
      modifies this
      ensures State() == ShutDown(old(State()))
    {
      var todo := connections.Keys;
      while todo != {}
        invariant todo <= connections.Keys && connections == old(connections) && dialled == old(dialled)
        invariant live == old(live) - set a | a in connections && a !in todo :: connections[a].stream
        decreases |todo|
      {
        var a :| a in todo;
        ghost var before := live;
        Stop(connections[a].stream);
        todo := todo - {a};
      }
      connections := map[];
    }
  }

  // ---------------------------------------------------------------- runs

  /** What can happen to the table. A watcher acts when the context of its stream is cancelled, and then
      removes whatever connection its address has by that time. */
  datatype Event =
    | Register(addrs: seq<string>, ok: seq<bool>)
    | FailedPush(addrs: seq<string>)
    | Watcher(stream: nat)
    | Shutdown

  ghost predicate Enabled(t: Table, e: Event) {
    match e
    case Register(addrs, ok) => |addrs| == |ok|
    case FailedPush(_) => true
    case Watcher(s) => s < |t.dialled| && s !in t.live
    case Shutdown => true
  }

  function Step(t: Table, e: Event): Table
    requires Enabled(t, e)
  {
    match e
    case Register(addrs, ok) => AddAll(t, addrs, ok)
    case FailedPush(addrs) => RemoveAll(t, addrs)
    case Watcher(s) => RemoveAll(t, [t.dialled[s]])
    case Shutdown => ShutDown(t)
  }

  /** `t` is reached from the empty table by `events`. */
  ghost predicate Reaches(events: seq<Event>, t: Table) {
    if events == [] then t == EMPTY
    else
      var n := |events| - 1;
      exists t0 :: Reaches(events[..n], t0) && Enabled(t0, events[n]) && t == Step(t0, events[n])
  }

  /** The live streams are exactly those in the table, each under the address it was opened for. */
  ghost predicate Faithful(t: Table) {
    && (forall a :: a in t.connections ==>
          var c := t.connections[a];
          a != "" && c.addr == a && c.stream in t.live && c.stream < |t.dialled| && t.dialled[c.stream] == a)
    && (forall s :: s in t.live ==>
          s < |t.dialled| && t.dialled[s] in t.connections && t.connections[t.dialled[s]].stream == s)
  }

  lemma {:induction false} AddKeepsFaithful(t: Table, addrs: seq<string>, ok: seq<bool>)
    requires Faithful(t) && |addrs| == |ok|
    ensures Faithful(AddAll(t, addrs, ok))
  {
    if addrs != [] {
      var n := |addrs| - 1;
      AddKeepsFaithful(t, addrs[..n], ok[..n]);
      var t0 := AddAll(t, addrs[..n], ok[..n]);
      var t1 := AddOne(t0, addrs[n], ok[n]);
      forall s | s in t0.live ensures s < |t0.dialled| && t1.dialled[s] == t0.dialled[s] {
      }
    }
  }

  lemma {:induction false} RemoveKeepsFaithful(t: Table, addrs: seq<string>)
    requires Faithful(t)
    ensures Faithful(RemoveAll(t, addrs))
  {
    if addrs != [] {
      RemoveKeepsFaithful(t, addrs[..|addrs| - 1]);
    }
  }

  lemma ShutDownKeepsFaithful(t: Table)
    requires Faithful(t)
    ensures Faithful(ShutDown(t))
  {
    assert forall s :: s in t.live ==> t.dialled[s] in t.connections && t.connections[t.dialled[s]].stream == s;
  }

  /** In every interleaving, whenever the lock is free, the uncancelled streams are those in the table. */
  lemma {:induction false} EveryRunIsFaithful(events: seq<Event>, t: Table)
    requires Reaches(events, t)
    ensures Faithful(t)
  {
    if events != [] {
      var n := |events| - 1;
      var t0 :| Reaches(events[..n], t0) && Enabled(t0, events[n]) && t == Step(t0, events[n]);
      EveryRunIsFaithful(events[..n], t0);
      match events[n]
      case Register(addrs, ok) => AddKeepsFaithful(t0, addrs, ok);
      case FailedPush(addrs) => RemoveKeepsFaithful(t0, addrs);
      case Watcher(s) => RemoveKeepsFaithful(t0, [t0.dialled[s]]);
      case Shutdown => ShutDownKeepsFaithful(t0);
    }
  }

  /** At most one live stream per address, and none to the empty address. */
  lemma OneLiveStreamPerAddress(events: seq<Event>, t: Table, s: nat, s': nat)
    requires Reaches(events, t) && s in t.live && s' in t.live
    ensures s < |t.dialled| && s' < |t.dialled|
    ensures t.dialled[s] != ""
    ensures t.dialled[s] == t.dialled[s'] ==> s == s'
  {
    EveryRunIsFaithful(events, t);
  }

  // ---------------------------------------------------------------- what the sections do

  /** Registering connects exactly the addresses that are not empty and could be dialled, keeps the connections there
      are, and opens new streams only. */
  lemma {:induction false} RegisterConnects(t: Table, addrs: seq<string>, ok: seq<bool>)
    requires |addrs| == |ok|
    ensures var t' := AddAll(t, addrs, ok);
            && (forall a :: a in t'.connections <==>
                  a in t.connections || (a != "" && exists i :: 0 <= i < |addrs| && addrs[i] == a && ok[i]))
            && (forall a :: a in t.connections ==> t'.connections[a] == t.connections[a])
            && (forall a :: a in t'.connections && a !in t.connections ==>
                  var c := t'.connections[a];
                  && c.addr == a && c.stream in t'.live
                  && |t.dialled| <= c.stream < |t'.dialled| && t'.dialled[c.stream] == a)
            && t.dialled <= t'.dialled && t.live <= t'.live
            && (forall s :: s in t'.live && s !in t.live ==> |t.dialled| <= s)
  {
    if addrs != [] {
      var n := |addrs| - 1;
      RegisterConnects(t, addrs[..n], ok[..n]);
      var t0 := AddAll(t, addrs[..n], ok[..n]);
      var t1 := AddOne(t0, addrs[n], ok[n]);
      assert forall i :: 0 <= i < n ==> addrs[..n][i] == addrs[i] && ok[..n][i] == ok[i];
      assert forall s :: 0 <= s < |t0.dialled| ==> t1.dialled[s] == t0.dialled[s];
    }
  }

  /** Removing disconnects exactly the given addresses and stops exactly the streams to them. */
  lemma {:induction false} RemoveDisconnects(t: Table, addrs: seq<string>)
    requires Faithful(t)
    ensures var t' := RemoveAll(t, addrs);
            && t'.dialled == t.dialled
            && (forall a :: a in t'.connections <==> a in t.connections && a !in addrs)
            && (forall a :: a in t'.connections ==> t'.connections[a] == t.connections[a])
            && (forall s :: s in t'.live <==> s in t.live && t.dialled[s] !in addrs)
  {
    if addrs != [] {
      var n := |addrs| - 1;
      RemoveDisconnects(t, addrs[..n]);
      assert addrs == addrs[..n] + [addrs[n]];
      RemoveKeepsFaithful(t, addrs[..n]);
    }
  }

  /** Shutting down stops every stream and forgets every connection. */
  lemma ShutDownStopsAll(t: Table)
    requires Faithful(t)
    ensures ShutDown(t).live == {} && ShutDown(t).connections == map[]
  {
    forall s | s in t.live ensures s !in ShutDown(t).live {
      assert t.connections[t.dialled[s]].stream == s;
    }
  }

  // ---------------------------------------------------------------- late watchers

  lemma AddSingle(t: Table, a: string)
    ensures AddAll(t, [a], [true]) == AddOne(t, a, true)
  {
    assert AddAll(t, [a][..0], [true][..0]) == t;
  }

  lemma RemoveSingle(t: Table, a: string)
    ensures RemoveAll(t, [a]) == RemoveOne(t, a)
  {
    assert RemoveAll(t, [a][..0]) == t;
  }

  /** A watcher that runs late leaves the live streams alone exactly when its address has no connection. */
  lemma LateWatcher(t: Table, s: nat)
    requires Faithful(t) && Enabled(t, Watcher(s))
    ensures Step(t, Watcher(s)).live == t.live <==> t.dialled[s] !in t.connections
    ensures Faithful(Step(t, Watcher(s)))
  {
    var a := t.dialled[s];
    RemoveSingle(t, a);
    RemoveKeepsFaithful(t, [a]);
  }

  /** The other case happens: a collector that registers again before the watcher of its stopped stream
      runs loses the new stream. */
  lemma LateWatcherStopsNewStream(a: string)
    requires a != ""
    ensures var events := [Register([a], [true]), FailedPush([a]), Register([a], [true]), Watcher(0)];
            exists t :: Reaches(events[..3], t) && t.live == {1} && Enabled(t, events[3])
                        && Step(t, events[3]).live == {}
  {
    var events := [Register([a], [true]), FailedPush([a]), Register([a], [true]), Watcher(0)];
    var t1 := AddOne(EMPTY, a, true);
    var t2 := RemoveOne(t1, a);
    var t3 := AddOne(t2, a, true);
    AddSingle(EMPTY, a);
    RemoveSingle(t1, a);
    AddSingle(t2, a);
    assert events[..1][..0] == [] && Reaches([], EMPTY) && Reaches(events[..1], t1);
    assert events[..2][..1] == events[..1] && Reaches(events[..2], t2);
    assert events[..3][..2] == events[..2] && Reaches(events[..3], t3);
    assert t3.dialled == [a, a] && t3.live == {1};
    RemoveSingle(t3, a);
    assert Enabled(t3, events[3]) && Step(t3, events[3]).live == {};
  }
}
