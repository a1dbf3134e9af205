/** The network subsystem's message queues, with the socket abstracted away:
    a received message is an event, the socket's open/closed state is a
    parameter of `sync`, and what `sync` hands to the socket is returned. */
module Network {
  import opened Common

  /** `state.incoming`, `nextState.incoming` and the shared `outgoing` queue. */
  datatype NetworkState = NetworkState(incoming: seq<Message>, nextIncoming: seq<Message>, outgoing: seq<Message>)

  /** The queues `Network.init` builds. */
  const Initial := NetworkState([], [], [])

  /** The `onmessage` handler: a parsed message is appended to the incoming
      list of the next state. */
  function Receive(s: NetworkState, m: Message): (r: NetworkState)
    ensures r.nextIncoming == s.nextIncoming + [m]
    ensures r.incoming == s.incoming && r.outgoing == s.outgoing
  {
    s.(nextIncoming := s.nextIncoming + [m])
  }

  /** The outgoing lists of the systems in system order; None stands for a
      system whose state has no `outgoingNetworkMessages` field. */
  function Collect(systems: seq<Option<seq<Message>>>): (ms: seq<Message>)
  {
    if |systems| == 0 then []
    else (if systems[0].Some? then systems[0].value else []) + Collect(systems[1..])
  }

  /** Collecting two runs of systems is collecting each in turn. */
  lemma {:induction false} CollectAppend(a: seq<Option<seq<Message>>>, b: seq<Option<seq<Message>>>)
    ensures Collect(a + b) == Collect(a) + Collect(b)
  {
    if |a| == 0 {
      assert a + b == b;
    } else {
      assert (a + b)[0] == a[0];
      assert (a + b)[1..] == a[1..] + b;
      CollectAppend(a[1..], b);
    }
  }

  /** A system without outgoing messages contributes nothing; one with a list
      contributes exactly that list, after the systems before it. */
  lemma CollectSkipsAbsent(a: seq<Option<seq<Message>>>, b: seq<Option<seq<Message>>>, ms: seq<Message>)
    ensures Collect(a + [None] + b) == Collect(a) + Collect(b)
    ensures Collect(a + [Some(ms)] + b) == Collect(a) + ms + Collect(b)
  {
    CollectAppend(a + [None], b);
    CollectAppend(a, [None]);
    CollectAppend(a + [Some(ms)], b);
    CollectAppend(a, [Some(ms)]);
    assert Collect([None]) == [] by {
      assert Collect([None]) == [] + Collect([]);
    }
    assert Collect([Some(ms)]) == ms by {
      assert Collect([Some(ms)]) == ms + Collect([]);
    }
  }

  /** `Network.evolve`: every system's committed outgoing messages are appended
      to the queue, in system order. */
  function Evolve(s: NetworkState, systems: seq<Option<seq<Message>>>): (r: NetworkState)
    ensures r.outgoing == s.outgoing + Collect(systems)
    ensures r.incoming == s.incoming && r.nextIncoming == s.nextIncoming
  {
    s.(outgoing := s.outgoing + Collect(systems))
  }

  /** `Network.sync`: the committed incoming list is cleared and the buffers
      are swapped, so the messages received since the last sync become the
      committed incoming list and the next one starts empty; then, only when
      the socket is open, the queue is handed to the socket in order and
      emptied. The second component is what was sent. */
  function Sync(s: NetworkState, connected: bool): (r: (NetworkState, seq<Message>))
    ensures r.0.incoming == s.nextIncoming && r.0.nextIncoming == []
    ensures r.1 + r.0.outgoing == s.outgoing
    ensures connected ==> r.0.outgoing == []
    ensures !connected ==> r.1 == []
  {
    var swapped := NetworkState(s.nextIncoming, [], s.outgoing);
    if connected then (swapped.(outgoing := []), s.outgoing)
    else (swapped, [])
  }

  /** What happens to the network subsystem between two frames: a message
      arrives, or a tick runs every system's `evolve` and then every `sync`. */
  datatype Event =
    | Arrive(m: Message)
    | Tick(systems: seq<Option<seq<Message>>>, connected: bool)

  /** The final queues, the incoming lists the ticks' `evolve` calls saw, one
      after the other, and everything handed to the socket. */
  datatype Trace = Trace(state: NetworkState, seen: seq<Message>, sent: seq<Message>)

  /** Replays a sequence of events. */
  function Run(s: NetworkState, events: seq<Event>): (t: Trace)
    decreases |events|
  {
    if |events| == 0 then Trace(s, [], [])
    else
      match events[0]
      case Arrive(m) =>
        Run(Receive(s, m), events[1..])
      case Tick(systems, connected) =>
        var (s1, out) := Sync(Evolve(s, systems), connected);
        var t := Run(s1, events[1..]);
        Trace(t.state, s.incoming + t.seen, out + t.sent)
  }

  /** The messages that arrive, in order. */
  function Arrived(events: seq<Event>): seq<Message>
  {
    if |events| == 0 then []
    else (if events[0].Arrive? then [events[0].m] else []) + Arrived(events[1..])
  }

  /** The messages the ticks collect from the systems, in order. */
  function Collected(events: seq<Event>): seq<Message>
  {
    if |events| == 0 then []
    else (if events[0].Tick? then Collect(events[0].systems) else []) + Collected(events[1..])
  }

  /** Every message that arrives is seen by exactly one tick, in arrival order,
      or is still queued for a later tick: nothing is lost, duplicated or
      reordered. */
  lemma {:induction false} RunDeliversOnce(s: NetworkState, events: seq<Event>)
    ensures var t := Run(s, events);
            t.seen + t.state.incoming + t.state.nextIncoming == s.incoming + s.nextIncoming + Arrived(events)
    decreases |events|
  {
    if |events| > 0 {
      var rest := events[1..];
      match events[0]
      case Arrive(m) =>
        RunDeliversOnce(Receive(s, m), rest);
        assert Run(s, events) == Run(Receive(s, m), rest);
        assert Arrived(events) == [m] + Arrived(rest);
      case Tick(systems, connected) =>
        var (s1, out) := Sync(Evolve(s, systems), connected);
        RunDeliversOnce(s1, rest);
        var t := Run(s1, rest);
        assert Run(s, events) == Trace(t.state, s.incoming + t.seen, out + t.sent);
        assert Arrived(events) == [] + Arrived(rest);
        assert s1.incoming + s1.nextIncoming == s.nextIncoming;
        assert (s.incoming + t.seen) + t.state.incoming + t.state.nextIncoming
            == s.incoming + (t.seen + t.state.incoming + t.state.nextIncoming);
    }
  }

  /** A message that arrives before a tick is seen by the tick after it. */
  lemma ArrivalSeenNextTick(s: NetworkState, m: Message, a: seq<Option<seq<Message>>>, b: seq<Option<seq<Message>>>,
                            c1: bool, c2: bool)
    ensures var t := Run(s, [Arrive(m), Tick(a, c1), Tick(b, c2)]);
            t.seen == s.incoming + s.nextIncoming + [m]
  {
    var events := [Arrive(m), Tick(a, c1), Tick(b, c2)];
    var s1 := Receive(s, m);
    var s2 := Sync(Evolve(s1, a), c1).0;
    var s3 := Sync(Evolve(s2, b), c2).0;
    assert events[1..] == [Tick(a, c1), Tick(b, c2)];
    assert events[1..][1..] == [Tick(b, c2)];
    assert events[1..][1..][1..] == [];
    assert Run(s3, []).seen == [];
    assert Run(s2, [Tick(b, c2)]).seen == s2.incoming;
    assert Run(s1, [Tick(a, c1), Tick(b, c2)]).seen == s1.incoming + s2.incoming;
    assert Run(s, events) == Run(s1, events[1..]);
  }

  /** Every collected message is sent exactly once, in collection order, or is
      still queued: the queue is only ever emptied into the socket. */
  lemma {:induction false} RunSendsOnce(s: NetworkState, events: seq<Event>)
    ensures var t := Run(s, events);
            t.sent + t.state.outgoing == s.outgoing + Collected(events)
    decreases |events|
  {
    if |events| > 0 {
      var rest := events[1..];
      match events[0]
      case Arrive(m) =>
        RunSendsOnce(Receive(s, m), rest);
        assert Run(s, events) == Run(Receive(s, m), rest);
        assert Collected(events) == [] + Collected(rest);
      case Tick(systems, connected) =>
        var (s1, out) := Sync(Evolve(s, systems), connected);
        RunSendsOnce(s1, rest);
        var t := Run(s1, rest);
        assert Run(s, events) == Trace(t.state, s.incoming + t.seen, out + t.sent);
        assert Collected(events) == Collect(systems) + Collected(rest);
        assert out + s1.outgoing == s.outgoing + Collect(systems);
        assert (out + t.sent) + t.state.outgoing == out + (t.sent + t.state.outgoing);
    }
  }

  /** Every tick runs with the socket closed. */
  predicate Offline(events: seq<Event>) {
    forall i | 0 <= i < |events| && events[i].Tick? :: !events[i].connected
  }

  /** While the socket stays closed nothing is sent and every collected
      message stays queued. */
  lemma {:induction false} OfflineKeepsQueue(s: NetworkState, events: seq<Event>)
    requires Offline(events)
    ensures var t := Run(s, events);
            t.sent == [] && t.state.outgoing == s.outgoing + Collected(events)
    decreases |events|
  {
    if |events| > 0 {
      var rest := events[1..];
      assert Offline(rest) by {
        forall i | 0 <= i < |rest| && rest[i].Tick?
          ensures !rest[i].connected
        {
          assert rest[i] == events[i + 1];
        }
      }
      match events[0]
      case Arrive(m) =>
        OfflineKeepsQueue(Receive(s, m), rest);
      case Tick(systems, connected) =>
        assert !connected by {
          assert events[0].Tick?;
        }
        var (s1, out) := Sync(Evolve(s, systems), connected);
        OfflineKeepsQueue(s1, rest);
        var t := Run(s1, rest);
        assert Run(s, events) == Trace(t.state, s.incoming + t.seen, out + t.sent);
    }
    RunSendsOnce(s, events);
  }
}
