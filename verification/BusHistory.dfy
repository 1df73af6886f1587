// comms-lib: what routing delivers after any history of connects and disconnects.
module BusHistory {
  import opened Sequences
  import opened Wrappers
  import opened Buses

  datatype Event = Connect(who: nat) | Disconnect(who: nat)

  // Which endpoints a history leaves connected.
  function ConnectedAfter(endpoints: seq<Endpoint>, history: seq<Event>): set<Endpoint>
    requires forall e :: e in history ==> e.who < |endpoints|
  {
    if history == [] then {}
    else
      var n := |history| - 1;
      var before := ConnectedAfter(endpoints, history[..n]);
      var changed := endpoints[history[n].who];
      if history[n].Connect? then before + {changed} else before - {changed}
  }

  // Every member the packet addresses gets it once, the sender and everyone else not at all.
  ghost predicate Exact(members: set<Endpoint>, sender: Endpoint, packet: Packet, delivered: seq<Endpoint>) {
    forall c ::
      Copies(delivered, c) == if c in members && c != sender && packet.Addresses(c.ctype, c.cinstance) then 1 else 0
  }

  // Per type, one of the members with this instance is picked; all picks but the sender get it.
  ghost predicate PicksOne(members: set<Endpoint>, sender: Endpoint, key: CInt, delivered: seq<Endpoint>) {
    exists found: map<CInt, Endpoint> :: IsPick(members, key, found) && DeliversPick(found, sender, delivered)
  }

  ghost predicate IsPick(members: set<Endpoint>, key: CInt, found: map<CInt, Endpoint>) {
    && (forall t :: t in found ==> found[t] in members && found[t].ctype == t && found[t].cinstance == key)
    && (forall c :: c in members && c.cinstance == key ==> c.ctype in found)
  }

  ghost predicate DeliversPick(found: map<CInt, Endpoint>, sender: Endpoint, delivered: seq<Endpoint>) {
    forall c :: Copies(delivered, c) == if c != sender && c in found.Values then 1 else 0
  }

  // What RouteMessage can hand out when exactly these endpoints are connected.
  ghost predicate Possible(members: set<Endpoint>, sender: Endpoint, packet: Packet, delivered: seq<Endpoint>) {
    if InstanceOnly(packet) then PicksOne(members, sender, packet.recipientInstance, delivered)
    else Exact(members, sender, packet, delivered)
  }

  // No two connected endpoints of one type share this instance.
  ghost predicate NoneShare(members: set<Endpoint>, key: CInt) {
    forall c, d ::
      c in members && d in members && c.ctype == d.ctype && c.cinstance == key && d.cinstance == key ==> c == d
  }

  ghost predicate UniqueAddresses(members: set<Endpoint>) {
    forall c, d :: c in members && d in members && c.ctype == d.ctype && c.cinstance == d.cinstance ==> c == d
  }

  lemma PickIsExact(members: set<Endpoint>, sender: Endpoint, packet: Packet, delivered: seq<Endpoint>)
    requires InstanceOnly(packet) && NoneShare(members, packet.recipientInstance)
    requires PicksOne(members, sender, packet.recipientInstance, delivered)
    ensures Exact(members, sender, packet, delivered)
  {
    var found: map<CInt, Endpoint> :|
      IsPick(members, packet.recipientInstance, found) && DeliversPick(found, sender, delivered);
    forall c
      ensures c in found.Values <==> c in members && packet.Addresses(c.ctype, c.cinstance)
    {
      if c in found.Values {
        var t: CInt :| t in found && found[t] == c;
      }
      if c in members && c.cinstance == packet.recipientInstance {
        assert found[c.ctype] == c;
      }
    }
  }

  // Some connected endpoint of the type with this instance.
  ghost function PickFor(members: set<Endpoint>, key: CInt, t: CInt): (c: Endpoint)
    requires exists c :: c in members && c.ctype == t && c.cinstance == key
    ensures c in members && c.ctype == t && c.cinstance == key
  {
    var c :| c in members && c.ctype == t && c.cinstance == key; c
  }

  lemma {:induction false} ListOf(s: set<Endpoint>) returns (list: seq<Endpoint>)
    ensures forall c :: Copies(list, c) == if c in s then 1 else 0
  {
    if s == {} {
      list := [];
    } else {
      var c :| c in s;
      var rest := ListOf(s - {c});
      list := [c] + rest;
    }
  }

  // Any member with this instance may be the one its type's lookup returns.
  lemma PickIncluding(members: set<Endpoint>, sender: Endpoint, key: CInt, d: Endpoint)
    returns (found: map<CInt, Endpoint>, delivered: seq<Endpoint>)
    requires d in members && d.cinstance == key
    ensures IsPick(members, key, found) && DeliversPick(found, sender, delivered) && found[d.ctype] == d
  {
    var types := set c | c in members && c.cinstance == key :: c.ctype;
    found := map t | t in types :: if t == d.ctype then d else PickFor(members, key, t);
    delivered := ListOf(found.Values - {sender});
  }

  // Routing can always hand out something.
  lemma SomeDelivery(members: set<Endpoint>, sender: Endpoint, packet: Packet) returns (delivered: seq<Endpoint>)
    ensures Possible(members, sender, packet, delivered)
  {
    if InstanceOnly(packet) {
      var key := packet.recipientInstance;
      var types := set c | c in members && c.cinstance == key :: c.ctype;
      var found := map t | t in types :: PickFor(members, key, t);
      delivered := ListOf(found.Values - {sender});
      assert IsPick(members, key, found) && DeliversPick(found, sender, delivered);
    } else {
      delivered := ListOf(set c | c in members && c != sender && packet.Addresses(c.ctype, c.cinstance));
    }
  }

  // The broadcast to one instance of all types is complete, whatever the lookups
  // return, exactly when no two connections of a type share that instance.
  lemma ExactIffNoneShare(members: set<Endpoint>, sender: Endpoint, packet: Packet)
    requires InstanceOnly(packet)
    ensures NoneShare(members, packet.recipientInstance)
            <==> forall delivered ::
                   Possible(members, sender, packet, delivered) ==> Exact(members, sender, packet, delivered)
  {
    var key := packet.recipientInstance;
    if NoneShare(members, key) {
      forall delivered | Possible(members, sender, packet, delivered)
        ensures Exact(members, sender, packet, delivered)
      {
        PickIsExact(members, sender, packet, delivered);
      }
    } else {
      var c, d :| c in members && d in members && c.ctype == d.ctype && c.cinstance == key && d.cinstance == key
        && c != d;
      // The lookup returns one of the two; the other is missed unless it is the sender.
      var hit, missed := if d == sender then d else c, if d == sender then c else d;
      var found, delivered := PickIncluding(members, sender, key, hit);
      assert PicksOne(members, sender, key, delivered);
      NotPicked(members, key, found, missed, hit);
      assert Copies(delivered, missed) == 0;
      assert Possible(members, sender, packet, delivered) && !Exact(members, sender, packet, delivered);
    }
  }

  lemma NotPicked(members: set<Endpoint>, key: CInt, found: map<CInt, Endpoint>, missed: Endpoint, hit: Endpoint)
    requires IsPick(members, key, found) && hit.ctype in found && found[hit.ctype] == hit
    requires missed.ctype == hit.ctype && missed != hit
    ensures missed !in found.Values
  {
  }

  // A pick hands out one copy at most, to a member with the instance that is not the sender.
  lemma PickedOnce(members: set<Endpoint>, sender: Endpoint, key: CInt, delivered: seq<Endpoint>, c: Endpoint)
    requires PicksOne(members, sender, key, delivered)
    ensures Copies(delivered, c) <= 1
    ensures Copies(delivered, c) == 1 ==> c in members && c.cinstance == key && c != sender
  {
    var found: map<CInt, Endpoint> :| IsPick(members, key, found) && DeliversPick(found, sender, delivered);
    if c in found.Values {
      var t: CInt :| t in found && found[t] == c;
    }
  }

  lemma OnceMeansDistinct(delivered: seq<Endpoint>, i: nat, j: nat)
    requires i < j < |delivered| && Copies(delivered, delivered[i]) <= 1
    ensures delivered[i] != delivered[j]
  {
    if delivered[i] == delivered[j] {
      TwoCopies(delivered, i, j);
    }
  }

  lemma TwoCopies(delivered: seq<Endpoint>, i: nat, j: nat)
    requires i < j < |delivered| && delivered[i] == delivered[j]
    ensures Copies(delivered, delivered[i]) >= 2
  {
    assert delivered == delivered[..j] + [delivered[j]] + delivered[j + 1..];
    assert delivered[..j][i] == delivered[i];
    assert delivered[i] in delivered[..j];
  }

  // Exactly the given endpoints are connected to the bus.
  ghost predicate Indexes(bus: Bus, members: set<Endpoint>)
    reads bus
  {
    bus.Valid() && forall e :: bus.Holds(e) == if e in members then 1 else 0
  }

  // The objects behind the endpoints: one per endpoint, all registered with the bus.
  ghost predicate Registered(bus: Bus, conns: seq<LocalConnection>, endpoints: seq<Endpoint>)
    reads conns
  {
    && |conns| == |endpoints| && Distinct(conns) && Distinct(endpoints)
    && forall i :: 0 <= i < |conns| ==> conns[i].self == endpoints[i] && conns[i].bus == bus
  }

  // Each object's flag says whether its endpoint is connected.
  ghost predicate FlagsAgree(conns: seq<LocalConnection>, members: set<Endpoint>)
    reads conns
  {
    forall i :: 0 <= i < |conns| ==> (conns[i].connected <==> conns[i].self in members)
  }

  // Replays a history through the guarded connections.
  method Replay(bus: Bus, conns: seq<LocalConnection>, ghost endpoints: seq<Endpoint>, history: seq<Event>)
    requires Registered(bus, conns, endpoints)
    requires forall e :: e in history ==> e.who < |endpoints|
    requires Indexes(bus, {}) && FlagsAgree(conns, {})
    modifies bus, conns
    ensures Registered(bus, conns, endpoints)
    ensures Indexes(bus, ConnectedAfter(endpoints, history)) && FlagsAgree(conns, ConnectedAfter(endpoints, history))
  {
    var k := 0;
    assert history[..0] == [];
    while k < |history|
      invariant 0 <= k <= |history|
      invariant Registered(bus, conns, endpoints)
      invariant Indexes(bus, ConnectedAfter(endpoints, history[..k]))
      invariant FlagsAgree(conns, ConnectedAfter(endpoints, history[..k]))
    {
      assert history[k] in history && history[..k + 1][..k] == history[..k];
      ReplayOne(bus, conns, endpoints, history[k], ConnectedAfter(endpoints, history[..k]));
      k := k + 1;
    }
    assert history[..k] == history;
  }

  method ReplayOne(bus: Bus, conns: seq<LocalConnection>, ghost endpoints: seq<Endpoint>, event: Event,
                   ghost members: set<Endpoint>)
    requires Registered(bus, conns, endpoints) && event.who < |conns|
    requires Indexes(bus, members) && FlagsAgree(conns, members)
    modifies bus, conns[event.who]
    ensures Registered(bus, conns, endpoints)
    ensures var changed := {endpoints[event.who]};
            var now := if event.Connect? then members + changed else members - changed;
            Indexes(bus, now) && FlagsAgree(conns, now)
  {
    var c := conns[event.who];
    assert forall i :: 0 <= i < |conns| && i != event.who ==> conns[i] != c && conns[i].self != c.self;
    if event.Connect? {
      var _ := c.Connect();
    } else {
      var _ := c.Disconnect();
    }
  }

  // After any history, a connected sender's packet reaches exactly its addressees,
  // provided no two connections share an address.
  method SendAfterHistory(bus: Bus, conns: seq<LocalConnection>, ghost endpoints: seq<Endpoint>,
                          history: seq<Event>, who: nat, packet: Packet)
    returns (r: Result<seq<Endpoint>, Failure>)
    requires Registered(bus, conns, endpoints) && who < |endpoints|
    requires forall e :: e in history ==> e.who < |endpoints|
    requires Indexes(bus, {}) && FlagsAgree(conns, {})
    modifies bus, conns
    ensures r.Ok? <==>
              endpoints[who] in ConnectedAfter(endpoints, history) && packet.message.kind in conns[who].registered
    ensures r.Ok? ==> Possible(ConnectedAfter(endpoints, history), endpoints[who], packet, r.value)
    ensures r.Ok? && UniqueAddresses(ConnectedAfter(endpoints, history)) ==>
              Exact(ConnectedAfter(endpoints, history), endpoints[who], packet, r.value)
  {
    Replay(bus, conns, endpoints, history);
    r := conns[who].SendPacket(packet);
    if r.Ok? {
      RoutedAmong(bus, ConnectedAfter(endpoints, history), endpoints[who], packet, r.value);
      if InstanceOnly(packet) && UniqueAddresses(ConnectedAfter(endpoints, history)) {
        PickIsExact(ConnectedAfter(endpoints, history), endpoints[who], packet, r.value);
      }
    }
  }

  method RouteAmong(bus: Bus, ghost members: set<Endpoint>, sender: Endpoint, packet: Packet)
    returns (delivered: seq<Endpoint>)
    requires Indexes(bus, members)
    ensures Possible(members, sender, packet, delivered)
  {
    delivered := bus.RouteMessage(sender, packet);
    RoutedAmong(bus, members, sender, packet, delivered);
  }

  lemma RoutedAmong(bus: Bus, members: set<Endpoint>, sender: Endpoint, packet: Packet, delivered: seq<Endpoint>)
    requires Indexes(bus, members)
    requires !InstanceOnly(packet) ==> forall c :: Copies(delivered, c) == bus.Wanted(sender, packet, c)
    requires InstanceOnly(packet) ==> bus.OnePerType(sender, packet, delivered)
    ensures Possible(members, sender, packet, delivered)
  {
    if InstanceOnly(packet) {
      var found: map<CInt, Endpoint> :| bus.IsFound(packet.recipientInstance, found)
        && forall c :: Copies(delivered, c) == if c != sender && c in found.Values then 1 else 0;
      assert IsPick(members, packet.recipientInstance, found);
      assert DeliversPick(found, sender, delivered);
    }
  }
}
