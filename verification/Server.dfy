// comms-lib: the bus server, from an accepted socket through the handshake to the bus.
module Servers {
  import opened Wrappers
  import opened Buses
  import opened ServerHistory
  import BusHistory

  // Who listens on a socket: the handshake, and later the connection that takes over.
  datatype Listener = Handshake | Connection(address: Address)

  // What is handed to a socket.
  datatype Sent = Init | Complete | Traffic(packet: Packet)

  datatype Socket = Socket(listeners: seq<Listener>, sent: seq<Sent>)

  function Packets(sent: seq<Sent>): seq<Packet> {
    if sent == [] then []
    else
      var n := |sent| - 1;
      Packets(sent[..n]) + if sent[n].Traffic? then [sent[n].packet] else []
  }

  // Before the first response a socket has been sent Init and nothing else.
  const HANDSHAKING: Socket := Socket([Handshake], [Init])

  // After it, Init, then Complete, then bus traffic and nothing else.
  ghost predicate IsDone(socket: Socket, a: Address) {
    && socket.listeners == [Connection(a)] && |socket.sent| >= 2 && socket.sent[..2] == [Init, Complete]
    && forall i :: 2 <= i < |socket.sent| ==> socket.sent[i].Traffic?
  }

  function JustDone(a: Address): Socket { Socket([Connection(a)], [Init, Complete]) }

  function PlusTraffic(socket: Socket, packet: Packet): Socket {
    socket.(sent := socket.sent + [Traffic(packet)])
  }

  // erase and remove: no occurrence is left.
  function Removed(listeners: seq<Listener>, listener: Listener): seq<Listener> {
    if listeners == [] then []
    else
      var n := |listeners| - 1;
      Removed(listeners[..n], listener) + if listeners[n] == listener then [] else [listeners[n]]
  }

  // The listener is gone, and the others are still there in their order.
  lemma {:induction false} RemovedIs(listeners: seq<Listener>, listener: Listener, other: Listener)
    ensures multiset(Removed(listeners, listener))[other] == if other == listener then 0 else multiset(listeners)[other]
  {
    if listeners != [] {
      var n := |listeners| - 1;
      RemovedIs(listeners[..n], listener, other);
      assert listeners == listeners[..n] + [listeners[n]];
    }
  }

  lemma {:induction false} RemovedInOrder(a: seq<Listener>, b: seq<Listener>, listener: Listener)
    ensures Removed(a + b, listener) == Removed(a, listener) + Removed(b, listener)
  {
    if b == [] {
      assert a + b == a;
    } else {
      var n := |b| - 1;
      RemovedInOrder(a, b[..n], listener);
      assert (a + b)[..|a + b| - 1] == a + b[..n];
    }
  }

  // A socket after a history: still in the handshake, or done with it and sent its mail.
  ghost predicate SocketMatches(h: seq<Event>, s: nat, socket: Socket, pending: bool) {
    match Joined(h, s)
    case None => socket == HANDSHAKING && pending
    case Some(a) =>
      && IsDone(socket, a) && !pending
      && Within(Packets(socket.sent), Mail(h, s))
      && (Unambiguous(h) ==> Packets(socket.sent) == Mail(h, s))
  }

  ghost predicate MatchesAt(h: seq<Event>, s: nat, sockets: map<nat, Socket>, pending: set<nat>)
    requires s in sockets
  {
    SocketMatches(h, s, sockets[s], s in pending)
  }

  ghost predicate AllMatch(h: seq<Event>, sockets: map<nat, Socket>, pending: set<nat>) {
    forall s {:trigger MatchesAt(h, s, sockets, pending)} :: s in sockets ==> MatchesAt(h, s, sockets, pending)
  }

  // The packet was sent to these recipients and to nobody else.
  ghost predicate WereSent(before: map<nat, Socket>, after: map<nat, Socket>, recipients: seq<Endpoint>,
                           packet: Packet) {
    && after.Keys == before.Keys
    && forall s :: s in after ==> after[s] == if s in Ids(recipients) then PlusTraffic(before[s], packet) else before[s]
  }

  // An event that is not about a socket leaves it alone.
  lemma StillMatches(h: seq<Event>, e: Event, s: nat, socket: Socket, pending: bool)
    requires SocketMatches(h, s, socket, pending)
    requires !MeantFor(h, e, s) && !(e.IsResponse() && e.socket == s && Joined(h, s).None?)
    ensures SocketMatches(h + [e], s, socket, pending)
  {
    OneMore(h, e);
  }

  lemma JustDoneMatches(h: seq<Event>, e: Event)
    requires e.IsResponse() && Joined(h, e.socket).None?
    ensures SocketMatches(h + [e], e.socket, JustDone(e.data.value), false)
  {
    OneMore(h, e);
    NoMailBefore(h, e.socket);
    var sent := JustDone(e.data.value).sent;
    assert sent[..1] == [Init] && [Init][..0] == [] && sent[..2] == sent;
  }

  // A member of the bus is sent a packet, or not, as routing decided.
  lemma RoutedMatches(h: seq<Event>, e: Event, delivered: seq<Endpoint>, s: nat, socket: Socket)
    requires IsRouting(h, e, delivered) && s in Opened(h)
    requires Joined(h, s).Some? && SocketMatches(h, s, socket, false)
    ensures SocketMatches(h + [e], s, if s in Ids(delivered) then PlusTraffic(socket, e.packet) else socket, false)
  {
    OneMore(h, e);
    assert Reaches(h, e, s, s in Ids(delivered));
    PlusTrafficIsDone(socket, Joined(h, s).value, e.packet);
    WithinMore(Packets(socket.sent), Mail(h, s), e.packet);
  }

  lemma PlusTrafficIsDone(socket: Socket, a: Address, packet: Packet)
    requires IsDone(socket, a)
    ensures IsDone(PlusTraffic(socket, packet), a)
    ensures Packets(PlusTraffic(socket, packet).sent) == Packets(socket.sent) + [packet]
  {
    var now := PlusTraffic(socket, packet);
    assert now.sent[..|socket.sent|] == socket.sent && now.sent[..2] == socket.sent[..2];
  }

  class Server {
    const bus: Bus
    // How often the bus server is registered as client connection listener
    const clientListeners: nat
    var sockets: map<nat, Socket>
    var terminators: set<nat>
    var busConnections: map<nat, Endpoint>
    // The connected flags of the local connections of the bus
    var locals: set<Endpoint>

    // A server is put on a bus that local connections may be using already.
    constructor (bus: Bus, clientListeners: nat, locals: set<Endpoint>, ghost before: seq<Event>)
      requires clientListeners > 0 && BusHistory.Indexes(bus, Members(before)) && Plausible(before)
      requires Opened(before) == {} && locals == Attached(before)
      ensures this.bus == bus && Matches(before)
    {
      this.bus, this.clientListeners := bus, clientListeners;
      sockets, terminators, busConnections := map[], {}, map[];
      this.locals := locals;
      ObjectsApart(before);
    }

    // The state is what the history calls for.
    ghost predicate Matches(h: seq<Event>)
      reads this, bus
    {
      && clientListeners > 0 && Plausible(h)
      && sockets.Keys == Opened(h) && locals == Attached(h)
      && AllMatch(h, sockets, terminators)
      && (forall s :: s in busConnections <==> Joined(h, s).Some?) && busConnections.Keys <= sockets.Keys
      && (forall s :: s in busConnections ==> busConnections[s] == OnBus(s, Joined(h, s).value))
      && BusHistory.Indexes(bus, Members(h))
    }

    // The socket data handler.
    method AddListener(s: nat, listener: Listener)
      requires s in sockets
      modifies this`sockets
      ensures sockets == old(sockets)[s := old(sockets)[s].(listeners := old(sockets)[s].listeners + [listener])]
    {
      sockets := sockets[s := sockets[s].(listeners := sockets[s].listeners + [listener])];
    }

    method RemoveListener(s: nat, listener: Listener)
      requires s in sockets
      modifies this`sockets
      ensures sockets == old(sockets)[s := old(sockets)[s].(listeners := Removed(old(sockets)[s].listeners, listener))]
    {
      sockets := sockets[s := sockets[s].(listeners := Removed(sockets[s].listeners, listener))];
    }

    method Send(s: nat, message: Sent)
      requires s in sockets
      modifies this`sockets
      ensures sockets == old(sockets)[s := old(sockets)[s].(sent := old(sockets)[s].sent + [message])]
    {
      sockets := sockets[s := sockets[s].(sent := sockets[s].sent + [message])];
    }

    // A socket was accepted: a handshake is made for it and started.
    method HandleConnection(s: nat)
      requires s !in sockets
      modifies this`sockets, this`terminators
      ensures sockets == old(sockets)[s := HANDSHAKING] && terminators == old(terminators) + {s}
    {
      sockets := sockets[s := Socket([], [])];
      terminators := terminators + {s};
      AddListener(s, Handshake);
      Send(s, Init);
      assert sockets[s] == HANDSHAKING;
    }

    method HandleEvent(ghost h: seq<Event>, e: Event)
      requires Matches(h) && MayFollow(h, e)
      modifies this, bus
      ensures Matches(h + [e])
    {
      match e
      case Open(s) =>
        OneMore(h, e);
        HandleConnection(s);
        forall t | t in old(sockets)
          ensures MatchesAt(h + [e], t, sockets, terminators)
        {
          assert MatchesAt(h, t, old(sockets), old(terminators));
          StillMatches(h, e, t, sockets[t], t in terminators);
        }
      case Receive(_, _, _) =>
        ProcessMessage(h, e);
      case Attach(c) =>
        Connect(h, c);
      case Detach(c) =>
        Disconnect(h, c);
      case SendLocally(c, _) =>
        SendFromLocal(h, e, c);
    }

    // A local connection connects; it is on the bus once, however often it does.
    method Connect(ghost h: seq<Event>, c: Endpoint)
      requires Matches(h) && MayFollow(h, Attach(c))
      modifies this`locals, bus
      ensures Matches(h + [Attach(c)])
    {
      OneMore(h, Attach(c));
      NotForSockets(h, Attach(c), sockets, terminators);
      MembersAre(h, c);
      ObjectsApart(h);
      if c !in locals {
        bus.Connected(c);
        locals := locals + {c};
      }
    }

    method Disconnect(ghost h: seq<Event>, c: Endpoint)
      requires Matches(h) && MayFollow(h, Detach(c))
      modifies this`locals, bus
      ensures Matches(h + [Detach(c)])
    {
      OneMore(h, Detach(c));
      NotForSockets(h, Detach(c), sockets, terminators);
      MembersAre(h, c);
      ObjectsApart(h);
      if c in locals {
        bus.Disconnected(c);
        locals := locals - {c};
      }
    }

    // A local connection sends; it may only while it is connected.
    method SendFromLocal(ghost h: seq<Event>, e: Event, c: Endpoint)
      requires Matches(h) && e.SendLocally? && e.local == c && MayFollow(h, e)
      modifies this`sockets
      ensures Matches(h + [e])
    {
      OneMore(h, e);
      if c in locals {
        var delivered := RouteOnBus(h, e, c);
        Deliver(h, e, delivered);
      } else {
        NotForSockets(h, e, sockets, terminators);
      }
    }

    // Every listener of the socket gets the message. The end of the list is fixed at the
    // start, so the connection that takes over meanwhile does not see the response.
    method ProcessMessage(ghost h: seq<Event>, e: Event)
      requires Matches(h) && e.Receive? && MayFollow(h, e)
      modifies this, bus
      ensures Matches(h + [e])
    {
      assert MatchesAt(h, e.socket, sockets, terminators);
      var i, end := 0, |sockets[e.socket].listeners|;
      while i < end
        invariant i <= end == 1 && Matches(if i == 0 then h else h + [e])
      {
        assert MatchesAt(h, e.socket, sockets, terminators);
        match sockets[e.socket].listeners[i] {
          case Handshake =>
            HandshakeMessageReceived(h, e);
          case Connection(address) =>
            ConnectionMessageReceived(h, e, address);
        }
        i := i + 1;
      }
    }

    // Anything but the response is ignored during the handshake.
    method HandshakeMessageReceived(ghost h: seq<Event>, e: Event)
      requires Matches(h) && e.Receive? && MayFollow(h, e) && Joined(h, e.socket).None?
      modifies this, bus
      ensures Matches(h + [e])
    {
      OneMore(h, e);
      assert MatchesAt(h, e.socket, sockets, terminators);
      if e.packet.message.kind == RESPONSE {
        if e.data.Some? {
          NewMember(h, e);
          ProcessHandshakeResponse(e.socket, e.data.value);
          JustDoneMatches(h, e);
        }
      }
      forall t | t in sockets && (t != e.socket || !e.IsResponse())
        ensures MatchesAt(h + [e], t, sockets, terminators)
      {
        assert MatchesAt(h, t, old(sockets), old(terminators));
        StillMatches(h, e, t, sockets[t], t in terminators);
      }
    }

    method ProcessHandshakeResponse(s: nat, a: Address)
      requires s in sockets && sockets[s] == HANDSHAKING && s !in busConnections && bus.Valid() && clientListeners > 0
      modifies this`sockets, this`terminators, this`busConnections, bus
      ensures bus.Valid()
      ensures sockets == old(sockets)[s := JustDone(a)] && terminators == old(terminators) - {s}
      ensures busConnections == old(busConnections)[s := OnBus(s, a)]
      ensures forall c :: bus.Holds(c) == old(bus.Holds(c)) + if c == OnBus(s, a) then 1 else 0
    {
      assert [Handshake][..0] == [];
      RemoveListener(s, Handshake);
      Send(s, Complete);
      // The terminator: the connection handler is told, then the handshake is cleaned up.
      HandshakeComplete(s, a);
      terminators := terminators - {s};
      assert sockets[s] == JustDone(a);
    }

    method HandshakeComplete(s: nat, a: Address)
      requires s in sockets && s !in busConnections && bus.Valid() && clientListeners > 0
      modifies this`sockets, this`busConnections, bus
      ensures bus.Valid()
      ensures sockets == old(sockets)[s := old(sockets)[s].(listeners := old(sockets)[s].listeners + [Connection(a)])]
      ensures busConnections == old(busConnections)[s := OnBus(s, a)]
      ensures forall c :: bus.Holds(c) == old(bus.Holds(c)) + if c == OnBus(s, a) then 1 else 0
    {
      AddListener(s, Connection(a));
      ghost var now := sockets;
      for i := 0 to clientListeners
        invariant bus.Valid() && sockets == now
        invariant busConnections == if i == 0 then old(busConnections) else old(busConnections)[s := OnBus(s, a)]
        invariant forall c :: bus.Holds(c) == old(bus.Holds(c)) + if i > 0 && c == OnBus(s, a) then 1 else 0
      {
        ClientConnected(s, a);
      }
    }

    // A connection that is on the bus already is not put there again.
    method ClientConnected(s: nat, a: Address)
      requires bus.Valid()
      modifies this`busConnections, bus
      ensures bus.Valid()
      ensures busConnections
           == if s in old(busConnections) then old(busConnections) else old(busConnections)[s := OnBus(s, a)]
      ensures forall c ::
                bus.Holds(c) == old(bus.Holds(c)) + if s !in old(busConnections) && c == OnBus(s, a) then 1 else 0
    {
      if s in busConnections {
        return;
      }
      bus.Connected(OnBus(s, a));
      busConnections := busConnections[s := OnBus(s, a)];
    }

    // A message from a member of the bus is routed, and sent on to whom it is for.
    method ConnectionMessageReceived(ghost h: seq<Event>, e: Event, a: Address)
      requires Matches(h) && e.Receive? && MayFollow(h, e) && Joined(h, e.socket) == Some(a)
      modifies this`sockets
      ensures Matches(h + [e])
    {
      var delivered := RouteOnBus(h, e, OnBus(e.socket, a));
      Deliver(h, e, delivered);
      OneMore(h, e);
    }

    method Deliver(ghost h: seq<Event>, e: Event, delivered: seq<Endpoint>)
      requires IsRouting(h, e, delivered) && sockets.Keys == Opened(h) && AllMatch(h, sockets, terminators)
      modifies this`sockets
      ensures sockets.Keys == old(sockets).Keys && AllMatch(h + [e], sockets, terminators)
    {
      SendPackets(delivered, e.packet);
      AllRoutedMatch(h, e, delivered, old(sockets), sockets, terminators);
    }

    method RouteOnBus(ghost h: seq<Event>, e: Event, sender: Endpoint) returns (delivered: seq<Endpoint>)
      requires Plausible(h) && BusHistory.Indexes(bus, Members(h)) && SenderOf(h, e) == Some(sender)
      ensures IsRouting(h, e, delivered)
    {
      delivered := BusHistory.RouteAmong(bus, Members(h), sender, e.packet);
      PossibleIsRouting(h, e, delivered);
    }

    // Client connections send the packet on; local ones hand it to their own listeners.
    method SendPackets(recipients: seq<Endpoint>, packet: Packet)
      requires DistinctIds(recipients)
      modifies this`sockets
      ensures WereSent(old(sockets), sockets, recipients, packet)
    {
      for i := 0 to |recipients|
        invariant WereSent(old(sockets), sockets, recipients[..i], packet)
      {
        NextId(recipients, i);
        if recipients[i].id in sockets {
          Send(recipients[i].id, Traffic(packet));
        }
      }
      assert recipients[..|recipients|] == recipients;
    }
  }

  // A client that joins was not on the bus before.
  lemma NewMember(h: seq<Event>, e: Event)
    requires Plausible(h) && MayFollow(h, e) && e.IsResponse() && Joined(h, e.socket).None?
    ensures OnBus(e.socket, e.data.value) !in Members(h)
  {
    MembersAre(h, OnBus(e.socket, e.data.value));
    ObjectsApart(h);
  }

  lemma NotForSockets(h: seq<Event>, e: Event, sockets: map<nat, Socket>, pending: set<nat>)
    requires AllMatch(h, sockets, pending) && !Routed(h, e) && !e.IsResponse()
    ensures AllMatch(h + [e], sockets, pending)
  {
    forall s | s in sockets
      ensures MatchesAt(h + [e], s, sockets, pending)
    {
      assert MatchesAt(h, s, sockets, pending);
      StillMatches(h, e, s, sockets[s], s in pending);
    }
  }

  lemma AllRoutedMatch(h: seq<Event>, e: Event, delivered: seq<Endpoint>, before: map<nat, Socket>,
                       after: map<nat, Socket>, pending: set<nat>)
    requires IsRouting(h, e, delivered) && after.Keys <= Opened(h)
    requires AllMatch(h, before, pending) && WereSent(before, after, delivered, e.packet)
    ensures AllMatch(h + [e], after, pending)
  {
    forall s | s in after
      ensures MatchesAt(h + [e], s, after, pending)
    {
      assert MatchesAt(h, s, before, pending);
      if Joined(h, s).Some? {
        RoutedMatches(h, e, delivered, s, before[s]);
      } else {
        StillMatches(h, e, s, before[s], s in pending);
      }
    }
  }

  // What that means for a socket: it is sent Init, then Complete, then traffic, and it is
  // on the bus once, with its first address, exactly from its first response on.
  lemma Outcome(server: Server, h: seq<Event>, s: nat)
    requires server.Matches(h)
    ensures s in server.sockets <==> s in Opened(h)
    ensures s in server.sockets && Joined(h, s).None? ==> server.sockets[s].sent == [Init]
    ensures s in server.sockets && Joined(h, s).Some? ==> IsDone(server.sockets[s], Joined(h, s).value)
    ensures forall c: Endpoint :: c.id == s && s in server.sockets ==>
              server.bus.Holds(c) == if Joined(h, s) == Some(Address(c.ctype, c.cinstance)) then 1 else 0
  {
    ObjectsApart(h);
    forall c: Endpoint | c.id == s && s in server.sockets
      ensures server.bus.Holds(c) == if Joined(h, s) == Some(Address(c.ctype, c.cinstance)) then 1 else 0
    {
      MembersAre(h, c);
    }
    if s in server.sockets {
      assert MatchesAt(h, s, server.sockets, server.terminators);
    }
  }

  // Any history of any number of sockets and local connections, event by event.
  method Run(bus: Bus, clientListeners: nat, locals: set<Endpoint>, ghost before: seq<Event>, h: seq<Event>)
    returns (server: Server)
    requires clientListeners > 0 && BusHistory.Indexes(bus, Members(before))
    requires Opened(before) == {} && locals == Attached(before) && Plausible(before + h)
    modifies bus
    ensures server.bus == bus && server.Matches(before + h)
  {
    PlausiblePrefix(before + h, |before|);
    FirstEvents(before, h);
    server := new Server(bus, clientListeners, locals, before);
    for i := 0 to |h|
      invariant fresh(server) && server.bus == bus && server.Matches(before + h[..i])
    {
      NextEvent(before, h, i);
      server.HandleEvent(before + h[..i], h[i]);
    }
    assert h[..|h|] == h;
  }

  lemma FirstEvents(before: seq<Event>, h: seq<Event>)
    ensures (before + h)[..|before|] == before == before + h[..0]
  {
  }

  lemma NextEvent(before: seq<Event>, h: seq<Event>, i: nat)
    requires i < |h| && Plausible(before + h)
    ensures MayFollow(before + h[..i], h[i]) && before + h[..i + 1] == before + h[..i] + [h[i]]
  {
    PlausiblePrefix(before + h, |before| + i + 1);
    assert before + h[..i + 1] == before + h[..i] + [h[i]] == (before + h)[..|before| + i + 1];
    OneMore(before + h[..i], h[i]);
  }

  lemma {:induction false} PlausiblePrefix(h: seq<Event>, i: nat)
    requires Plausible(h) && i <= |h|
    ensures Plausible(h[..i])
  {
    if i < |h| {
      PlausiblePrefix(h[..|h| - 1], i);
      assert h[..|h| - 1][..i] == h[..i];
    } else {
      assert h[..i] == h;
    }
  }
}
