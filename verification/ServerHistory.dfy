// comms-lib: what a history of socket events at a bus server amounts to.
module ServerHistory {
  import opened Wrappers
  import opened Buses
  import BusHistory

  const RESPONSE: string := "HandshakeResponseMessageV1"

  datatype Address = Address(ctype: CInt, cinstance: CInt)

  // A client's socket is opened, or a message arrives on it; the data is there if the message
  // is an object of the response class. Local connections of the same bus come, go and send.
  datatype Event =
    | Open(socket: nat)
    | Receive(socket: nat, packet: Packet, data: Option<Address>)
    | Attach(local: Endpoint)
    | Detach(local: Endpoint)
    | SendLocally(local: Endpoint, packet: Packet)
  {
    predicate IsResponse() { Receive? && packet.message.kind == RESPONSE && data.Some? }
  }

  function Opened(h: seq<Event>): set<nat> {
    if h == [] then {}
    else
      var n := |h| - 1;
      Opened(h[..n]) + if h[n].Open? then {h[n].socket} else {}
  }

  // The local connections that are connected.
  function Attached(h: seq<Event>): set<Endpoint> {
    if h == [] then {}
    else
      var n := |h| - 1;
      match h[n]
      case Attach(c) => Attached(h[..n]) + {c}
      case Detach(c) => Attached(h[..n]) - {c}
      case _ => Attached(h[..n])
  }

  // Each socket is opened once, before anything arrives on it, and no two objects are one.
  ghost predicate Plausible(h: seq<Event>) {
    h == [] || (Plausible(h[..|h| - 1]) && MayFollow(h[..|h| - 1], h[|h| - 1]))
  }

  ghost predicate MayFollow(h: seq<Event>, e: Event) {
    match e
    case Open(s) => s !in Opened(h) && forall l :: l in Attached(h) ==> l.id != s
    case Receive(s, _, _) => s in Opened(h)
    case Attach(c) => c.id !in Opened(h) && forall l :: l in Attached(h) && l.id == c.id ==> l == c
    case Detach(c) => c.id !in Opened(h)
    case SendLocally(c, _) => c.id !in Opened(h)
  }

  // The address in the first response that arrived on the socket.
  function Joined(h: seq<Event>, s: nat): Option<Address> {
    if h == [] then None
    else
      var n := |h| - 1;
      var before := Joined(h[..n], s);
      if before.None? && h[n].IsResponse() && h[n].socket == s then h[n].data else before
  }

  // The n-th event is the first response on the socket.
  ghost predicate FirstResponse(h: seq<Event>, s: nat, n: nat) {
    && n < |h| && h[n].IsResponse() && h[n].socket == s
    && forall i :: 0 <= i < n ==> !(h[i].IsResponse() && h[i].socket == s)
  }

  // A socket's address is the one in its first response.
  lemma {:induction false} JoinedIs(h: seq<Event>, s: nat)
    ensures Joined(h, s).None? <==> forall i :: 0 <= i < |h| ==> !(h[i].IsResponse() && h[i].socket == s)
    ensures forall n: nat :: FirstResponse(h, s, n) ==> Joined(h, s) == h[n].data
  {
    if h != [] {
      var n := |h| - 1;
      JoinedIs(h[..n], s);
      forall k: nat | FirstResponse(h, s, k)
        ensures Joined(h, s) == h[k].data
      {
        assert k < n ==> FirstResponse(h[..n], s, k) && h[..n][k] == h[k];
      }
      assert forall i :: 0 <= i < n ==> h[..n][i] == h[i];
    }
  }

  function OnBus(s: nat, a: Address): Endpoint { Endpoint(s, a.ctype, a.cinstance) }

  // Who should be on the bus.
  function Members(h: seq<Event>): set<Endpoint> {
    if h == [] then {}
    else
      var n := |h| - 1;
      var before := Members(h[..n]);
      match h[n]
      case Receive(s, _, data) =>
        if h[n].IsResponse() && Joined(h[..n], s).None? then before + {OnBus(s, data.value)} else before
      case Attach(c) => before + {c}
      case Detach(c) => before - {c}
      case _ => before
  }

  predicate IsClient(h: seq<Event>, e: Endpoint) { Joined(h, e.id) == Some(Address(e.ctype, e.cinstance)) }

  // Sockets and local connections are different objects.
  lemma {:induction false} ObjectsApart(h: seq<Event>)
    requires Plausible(h)
    ensures forall s :: Joined(h, s).Some? ==> s in Opened(h)
    ensures forall l :: l in Attached(h) ==> l.id !in Opened(h)
    ensures forall l, m :: l in Attached(h) && m in Attached(h) && l.id == m.id ==> l == m
  {
    if h != [] {
      ObjectsApart(h[..|h| - 1]);
    }
  }

  // The bus has the connected local ones and the clients that have responded, each with its
  // first address.
  lemma {:induction false} MembersAre(h: seq<Event>, e: Endpoint)
    requires Plausible(h)
    ensures e in Members(h) <==> IsClient(h, e) || e in Attached(h)
  {
    if h != [] {
      MembersAre(h[..|h| - 1], e);
      ObjectsApart(h[..|h| - 1]);
    }
  }

  // Which member puts the event's packet on the bus, if one does.
  function SenderOf(h: seq<Event>, e: Event): Option<Endpoint> {
    match e
    case Receive(s, _, _) => if Joined(h, s).Some? then Some(OnBus(s, Joined(h, s).value)) else None
    case SendLocally(c, _) => if c in Attached(h) then Some(c) else None
    case _ => None
  }

  predicate Routed(h: seq<Event>, e: Event)
    ensures Routed(h, e) ==> e.Receive? || e.SendLocally?
  {
    SenderOf(h, e).Some?
  }

  // The event's packet should be sent to the socket.
  predicate MeantFor(h: seq<Event>, e: Event, s: nat) {
    && Routed(h, e) && Joined(h, s).Some?
    && SenderOf(h, e).value != OnBus(s, Joined(h, s).value)
    && e.packet.Addresses(Joined(h, s).value.ctype, Joined(h, s).value.cinstance)
  }

  // The packets meant for a socket, in the order they arrived.
  function Mail(h: seq<Event>, s: nat): seq<Packet> {
    if h == [] then []
    else
      var n := |h| - 1;
      if MeantFor(h[..n], h[n], s) then Mail(h[..n], s) + [h[n].packet] else Mail(h[..n], s)
  }

  // No packet for one instance of all types met two members of a type with that instance.
  ghost predicate Unambiguous(h: seq<Event>) {
    h == [] || (Unambiguous(h[..|h| - 1]) && Clear(h[..|h| - 1], h[|h| - 1]))
  }

  ghost predicate Clear(h: seq<Event>, e: Event) {
    Routed(h, e) && InstanceOnly(e.packet) ==> BusHistory.NoneShare(Members(h), e.packet.recipientInstance)
  }

  // Some of the packets, in order.
  predicate Within(some: seq<Packet>, all: seq<Packet>)
    decreases |all|
  {
    if all == [] then some == []
    else
      var n := |all| - 1;
      Within(some, all[..n]) || (some != [] && some[|some| - 1] == all[n] && Within(some[..|some| - 1], all[..n]))
  }

  lemma WithinMore(some: seq<Packet>, all: seq<Packet>, p: Packet)
    requires Within(some, all)
    ensures Within(some, all + [p]) && Within(some + [p], all + [p])
  {
    assert (all + [p])[..|all|] == all && (some + [p])[..|some|] == some;
  }

  // What one routed packet adds to the mail of a client.
  lemma Delivered(h: seq<Event>, e: Event, delivered: seq<Endpoint>, s: nat)
    requires Plausible(h) && Routed(h, e) && Joined(h, s).Some?
    requires BusHistory.Possible(Members(h), SenderOf(h, e).value, e.packet, delivered)
    ensures var copies := Copies(delivered, OnBus(s, Joined(h, s).value));
            && copies <= 1 && (copies == 1 ==> MeantFor(h, e, s))
            && (Clear(h, e) ==> copies == if MeantFor(h, e, s) then 1 else 0)
  {
    var sender, c := SenderOf(h, e).value, OnBus(s, Joined(h, s).value);
    MembersAre(h, c);
    if InstanceOnly(e.packet) {
      BusHistory.PickedOnce(Members(h), sender, e.packet.recipientInstance, delivered, c);
      if Clear(h, e) {
        BusHistory.PickIsExact(Members(h), sender, e.packet, delivered);
      }
    }
  }

  // What one more event changes.
  lemma OneMore(h: seq<Event>, e: Event)
    ensures Opened(h + [e]) == Opened(h) + if e.Open? then {e.socket} else {}
    ensures Attached(h + [e])
         == if e.Attach? then Attached(h) + {e.local}
            else if e.Detach? then Attached(h) - {e.local}
            else Attached(h)
    ensures forall s :: Joined(h + [e], s)
                     == if Joined(h, s).None? && e.IsResponse() && e.socket == s then e.data else Joined(h, s)
    ensures Members(h + [e])
         == if e.IsResponse() && Joined(h, e.socket).None? then Members(h) + {OnBus(e.socket, e.data.value)}
            else if e.Attach? then Members(h) + {e.local}
            else if e.Detach? then Members(h) - {e.local}
            else Members(h)
    ensures forall s :: Mail(h + [e], s) == if MeantFor(h, e, s) then Mail(h, s) + [e.packet] else Mail(h, s)
    ensures Unambiguous(h + [e]) <==> Unambiguous(h) && Clear(h, e)
    ensures Plausible(h + [e]) <==> Plausible(h) && MayFollow(h, e)
  {
    assert (h + [e])[..|h|] == h && (h + [e])[|h|] == e;
  }

  lemma {:induction false} NoMailBefore(h: seq<Event>, s: nat)
    requires Joined(h, s).None?
    ensures Mail(h, s) == []
  {
    if h != [] {
      NoMailBefore(h[..|h| - 1], s);
    }
  }

  ghost predicate DistinctIds(endpoints: seq<Endpoint>) {
    forall i, j :: 0 <= i < j < |endpoints| ==> endpoints[i].id != endpoints[j].id
  }

  function Ids(endpoints: seq<Endpoint>): set<nat> {
    set k | 0 <= k < |endpoints| :: endpoints[k].id
  }

  lemma NextId(endpoints: seq<Endpoint>, i: nat)
    requires i < |endpoints| && DistinctIds(endpoints)
    ensures endpoints[i].id !in Ids(endpoints[..i])
    ensures Ids(endpoints[..i + 1]) == Ids(endpoints[..i]) + {endpoints[i].id}
  {
    var now := endpoints[..i + 1];
    assert now[i] == endpoints[i] && forall k :: 0 <= k < i ==> now[k] == endpoints[..i][k];
    forall s
      ensures s in Ids(now) <==> s in Ids(endpoints[..i]) || s == endpoints[i].id
    {
      if s in Ids(endpoints[..i]) {
        var k :| 0 <= k < i && endpoints[..i][k].id == s;
        assert now[k].id == s;
      }
      if s == endpoints[i].id {
        assert now[i].id == s;
      }
    }
  }

  // A client on this socket may be handed the packet, or not.
  ghost predicate Reaches(h: seq<Event>, e: Event, s: nat, reached: bool) {
    && (reached ==> MeantFor(h, e, s))
    && (Clear(h, e) ==> (reached <==> MeantFor(h, e, s)))
  }

  // What the bus may make of a packet from one of its members.
  ghost predicate IsRouting(h: seq<Event>, e: Event, delivered: seq<Endpoint>) {
    && Routed(h, e) && DistinctIds(delivered)
    && forall s :: s in Opened(h) ==> Reaches(h, e, s, s in Ids(delivered))
  }

  // A routed packet goes to members of the bus, to each of them once at most.
  lemma DeliveredOnce(h: seq<Event>, sender: Endpoint, packet: Packet, delivered: seq<Endpoint>)
    requires Plausible(h) && BusHistory.Possible(Members(h), sender, packet, delivered)
    ensures forall i :: 0 <= i < |delivered| ==> delivered[i] in Members(h)
    ensures DistinctIds(delivered)
  {
    forall c
      ensures Copies(delivered, c) <= 1 && (Copies(delivered, c) == 1 ==> c in Members(h))
    {
      if InstanceOnly(packet) {
        BusHistory.PickedOnce(Members(h), sender, packet.recipientInstance, delivered, c);
      }
    }
    forall i | 0 <= i < |delivered|
      ensures delivered[i] in Members(h)
    {
      assert delivered[i] in delivered;
    }
    forall i, j | 0 <= i < j < |delivered|
      ensures delivered[i].id != delivered[j].id
    {
      BusHistory.OnceMeansDistinct(delivered, i, j);
      if delivered[i].id == delivered[j].id {
        OneObject(h, delivered[i], delivered[j]);
      }
    }
  }

  // Two members of the bus are two objects.
  lemma OneObject(h: seq<Event>, c: Endpoint, d: Endpoint)
    requires Plausible(h) && c in Members(h) && d in Members(h) && c.id == d.id
    ensures c == d
  {
    MembersAre(h, c);
    MembersAre(h, d);
    ObjectsApart(h);
  }

  // A client is handed the packet exactly if its socket is among those written to.
  lemma InIds(h: seq<Event>, delivered: seq<Endpoint>, s: nat)
    requires Plausible(h) && s in Opened(h) && forall i :: 0 <= i < |delivered| ==> delivered[i] in Members(h)
    ensures s in Ids(delivered) ==> Joined(h, s).Some?
    ensures Joined(h, s).Some? ==>
              (s in Ids(delivered) <==> Copies(delivered, OnBus(s, Joined(h, s).value)) > 0)
  {
    if s in Ids(delivered) {
      var k :| 0 <= k < |delivered| && delivered[k].id == s;
      MembersAre(h, delivered[k]);
      ObjectsApart(h);
      assert delivered[k] in delivered;
    }
    if Joined(h, s).Some? && Copies(delivered, OnBus(s, Joined(h, s).value)) > 0 {
      assert OnBus(s, Joined(h, s).value) in delivered;
    }
  }

  lemma PossibleIsRouting(h: seq<Event>, e: Event, delivered: seq<Endpoint>)
    requires Plausible(h) && Routed(h, e)
    requires BusHistory.Possible(Members(h), SenderOf(h, e).value, e.packet, delivered)
    ensures IsRouting(h, e, delivered)
  {
    DeliveredOnce(h, SenderOf(h, e).value, e.packet, delivered);
    forall s | s in Opened(h)
      ensures Reaches(h, e, s, s in Ids(delivered))
    {
      InIds(h, delivered, s);
      if Joined(h, s).Some? {
        Delivered(h, e, delivered, s);
      }
    }
  }
}
