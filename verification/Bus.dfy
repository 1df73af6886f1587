// comms-lib: the bus index, the guarded local connections, and message routing.
module Buses {
  import opened Sequences
  import opened Wrappers

  // A C++ int.
  type CInt = n: int | -0x8000_0000 <= n < 0x8000_0000

  // Wildcard for either half of an address; every negative value is one.
  const BROADCAST: CInt := -1

  datatype Message = Message(kind: string, body: string)

  datatype Packet = Packet(message: Message, recipientType: CInt, recipientInstance: CInt)
  {
    predicate IsTypeBroadcast() { recipientType <= BROADCAST }

    predicate IsInstanceBroadcast() { recipientInstance <= BROADCAST }

    // Whether a connection with this address is meant.
    predicate Addresses(ctype: CInt, cinstance: CInt) {
      && (IsTypeBroadcast() || recipientType == ctype)
      && (IsInstanceBroadcast() || recipientInstance == cinstance)
    }
  }

  // An IBusConnection as the bus sees it: which object it is, and its fixed address.
  datatype Endpoint = Endpoint(id: nat, ctype: CInt, cinstance: CInt)

  datatype Entry = Entry(key: CInt, connection: Endpoint)

  // A multimap from instance to connection, in iteration order.
  ghost predicate Sorted(es: seq<Entry>) {
    forall i, j :: 0 <= i < j < |es| ==> es[i].key <= es[j].key
  }

  // The first position whose key is not below the given one.
  function LowerBound(es: seq<Entry>, key: CInt): (k: nat)
    ensures k <= |es|
  {
    if es == [] || key <= es[0].key then 0 else 1 + LowerBound(es[1..], key)
  }

  // The first position whose key is above the given one.
  function UpperBound(es: seq<Entry>, key: CInt): (k: nat)
    ensures k <= |es|
  {
    if es == [] || key < es[0].key then 0 else 1 + UpperBound(es[1..], key)
  }

  lemma {:induction false} EqualRange(es: seq<Entry>, key: CInt)
    requires Sorted(es)
    ensures LowerBound(es, key) <= UpperBound(es, key)
    ensures forall i :: 0 <= i < |es| ==> (es[i].key < key <==> i < LowerBound(es, key))
    ensures forall i :: 0 <= i < |es| ==> (es[i].key <= key <==> i < UpperBound(es, key))
  {
    if es != [] {
      EqualRange(es[1..], key);
      assert forall i :: 0 < i < |es| ==> es[i] == es[1..][i - 1];
    }
  }

  lemma RangeOrdered(es: seq<Entry>, key: CInt)
    requires Sorted(es)
    ensures LowerBound(es, key) <= UpperBound(es, key)
  {
    EqualRange(es, key);
  }

  // How often the connection occurs.
  function Count(es: seq<Entry>, c: Endpoint): nat {
    if es == [] then 0
    else Count(es[..|es| - 1], c) + if es[|es| - 1].connection == c then 1 else 0
  }

  lemma {:induction false} CountAppend(a: seq<Entry>, b: seq<Entry>, c: Endpoint)
    ensures Count(a + b, c) == Count(a, c) + Count(b, c)
  {
    if b == [] {
      assert a + b == a;
    } else {
      var n := |b| - 1;
      CountAppend(a, b[..n], c);
      assert (a + b)[..|a + b| - 1] == a + b[..n];
    }
  }

  lemma {:induction false} CountZero(es: seq<Entry>, c: Endpoint)
    requires forall i :: 0 <= i < |es| ==> es[i].connection != c
    ensures Count(es, c) == 0
  {
    if es != [] {
      CountZero(es[..|es| - 1], c);
    }
  }

  lemma {:induction false} CountPositive(es: seq<Entry>, i: nat)
    requires i < |es|
    ensures Count(es, es[i].connection) > 0
  {
    var n := |es| - 1;
    if i < n {
      CountPositive(es[..n], i);
    }
  }

  function Copies(delivered: seq<Endpoint>, c: Endpoint): nat {
    multiset(delivered)[c]
  }

  // Whom a walk over the entries reaches: everyone but the sender.
  function Deliver(es: seq<Entry>, sender: Endpoint): seq<Endpoint> {
    if es == [] then []
    else
      var last := es[|es| - 1].connection;
      Deliver(es[..|es| - 1], sender) + if last == sender then [] else [last]
  }

  lemma DeliverStep(es: seq<Entry>, first: nat, i: nat, sender: Endpoint)
    requires first <= i < |es|
    ensures Deliver(es[first..i + 1], sender)
         == Deliver(es[first..i], sender) + if es[i].connection == sender then [] else [es[i].connection]
  {
    assert es[first..i + 1][..i - first] == es[first..i];
  }

  lemma {:induction false} DeliverCount(es: seq<Entry>, sender: Endpoint, c: Endpoint)
    ensures Copies(Deliver(es, sender), c) == if c == sender then 0 else Count(es, c)
  {
    if es != [] {
      DeliverCount(es[..|es| - 1], sender, c);
    }
  }

  class Bus {
    // Per type, a multimap from instance to connection
    var connections: map<CInt, seq<Entry>>

    ghost predicate Valid()
      reads this
    {
      forall t :: t in connections ==> ValidInner(t, connections[t])
    }

    // How often the index holds the connection.
    ghost function Holds(c: Endpoint): nat
      reads this
    {
      if c.ctype in connections then Count(connections[c.ctype], c) else 0
    }

    constructor ()
      ensures Valid() && forall c :: Holds(c) == 0
    {
      connections := map[];
    }

    method Connected(connection: Endpoint)
      requires Valid()
      modifies this
      ensures Valid()
      ensures forall c :: Holds(c) == old(Holds(c)) + if c == connection then 1 else 0
    {
      var t, key := connection.ctype, connection.cinstance;
      var inner := if t in connections then connections[t] else [];
      var k := UpperBound(inner, key);
      InsertKeeps(t, inner, connection);
      forall c { InsertCount(inner, k, Entry(key, connection), c); }
      connections := connections[t := inner[..k] + [Entry(key, connection)] + inner[k..]];
    }

    // Removes one occurrence, if there is any.
    method Disconnected(connection: Endpoint)
      requires Valid()
      modifies this
      ensures Valid()
      ensures forall c :: Holds(c) == old(Holds(c)) - if c == connection && old(Holds(c)) > 0 then 1 else 0
    {
      var t, key := connection.ctype, connection.cinstance;
      var inner := if t in connections then connections[t] else [];
      connections := connections[t := inner];
      var i, end := LowerBound(inner, key), UpperBound(inner, key);
      EqualRange(inner, key);
      assert forall j :: 0 <= j < i ==> inner[j].connection != connection;
      while i < end
        invariant LowerBound(inner, key) <= i <= end
        invariant connections == old(connections)[t := inner]
        invariant forall j :: 0 <= j < i ==> inner[j].connection != connection
      {
        if inner[i].connection == connection {
          EraseKeeps(t, inner, i);
          connections := connections[t := Without(inner, i)];
          return;
        }
        i := i + 1;
      }
      CountZero(inner, connection);
    }

    // The connections the packet is handed to, in order.
    method RouteMessage(sender: Endpoint, packet: Packet) returns (delivered: seq<Endpoint>)
      requires Valid()
      ensures !InstanceOnly(packet) ==> forall c :: Copies(delivered, c) == Wanted(sender, packet, c)
      ensures InstanceOnly(packet) ==> OnePerType(sender, packet, delivered)
      // A negative half of the address matches everything, any other half itself alone; with a
      // type left open and an instance given, some connection of each type with that instance is met.
      ensures packet.recipientType >= 0 || packet.recipientInstance < 0 ==> forall c ::
                  Copies(delivered, c) ==
                  if c != sender && (packet.recipientType < 0 || c.ctype == packet.recipientType) &&
                     (packet.recipientInstance < 0 || c.cinstance == packet.recipientInstance) then Holds(c) else 0
      ensures packet.recipientType < 0 <= packet.recipientInstance ==> forall c :: Copies(delivered, c) <= 1
      ensures packet.recipientType < 0 <= packet.recipientInstance ==>
                forall c :: c in delivered ==>
                  Holds(c) > 0 && c != sender && c.cinstance == packet.recipientInstance
      ensures packet.recipientType < 0 <= packet.recipientInstance ==> forall c ::
                  Holds(c) > 0 && c.cinstance == packet.recipientInstance ==>
                  exists d: Endpoint ::
                    (d in delivered || d == sender) && d.ctype == c.ctype && d.cinstance == c.cinstance
    {
      if !packet.IsTypeBroadcast() {
        if !packet.IsInstanceBroadcast() {
          delivered := SendToSingleRecipient(sender, packet);
        } else {
          delivered := BroadcastToAllInstancesSingleType(sender, packet);
        }
      } else if !packet.IsInstanceBroadcast() {
        delivered := BroadcastToSingleInstanceAllTypes(sender, packet);
      } else {
        delivered := BroadcastToAll(sender, packet);
      }
      if InstanceOnly(packet) {
        OneOfEachType(sender, packet, delivered);
      }
    }

    // How many copies of the packet the connection should get.
    ghost function Wanted(sender: Endpoint, packet: Packet, c: Endpoint): nat
      reads this
    {
      if c != sender && packet.Addresses(c.ctype, c.cinstance) then Holds(c) else 0
    }

    // What a specific instance of all types reaches: per type, whichever connection find() returns.
    ghost predicate OnePerType(sender: Endpoint, packet: Packet, delivered: seq<Endpoint>)
      reads this
    {
      exists found: map<CInt, Endpoint> ::
        && IsFound(packet.recipientInstance, found)
        && forall c :: Copies(delivered, c) == if c != sender && c in found.Values then 1 else 0
    }

    ghost predicate IsFound(key: CInt, found: map<CInt, Endpoint>)
      reads this
    {
      && (forall t :: t in found ==> found[t].ctype == t && found[t].cinstance == key && Holds(found[t]) > 0)
      && (forall c: Endpoint :: Holds(c) > 0 && c.cinstance == key ==> c.ctype in found)
    }

    lemma OneOfEachType(sender: Endpoint, packet: Packet, delivered: seq<Endpoint>)
      requires OnePerType(sender, packet, delivered)
      ensures forall c :: Copies(delivered, c) <= 1
      ensures forall c :: c in delivered ==>
                Holds(c) > 0 && c != sender && c.cinstance == packet.recipientInstance
      ensures forall c :: Holds(c) > 0 && c.cinstance == packet.recipientInstance ==>
                exists d: Endpoint ::
                  (d in delivered || d == sender) && d.ctype == c.ctype && d.cinstance == c.cinstance
    {
      var found: map<CInt, Endpoint> :| IsFound(packet.recipientInstance, found)
        && forall c :: Copies(delivered, c) == if c != sender && c in found.Values then 1 else 0;
      forall c | c in delivered
        ensures c in found.Values && c != sender
      {
        assert Copies(delivered, c) > 0;
      }
      forall c | Holds(c) > 0 && c.cinstance == packet.recipientInstance
        ensures exists d: Endpoint ::
          (d in delivered || d == sender) && d.ctype == c.ctype && d.cinstance == c.cinstance
      {
        var d := found[c.ctype];
        assert d != sender ==> Copies(delivered, d) == 1;
      }
    }

    method SendToSingleRecipient(sender: Endpoint, packet: Packet) returns (delivered: seq<Endpoint>)
      requires Valid() && !packet.IsTypeBroadcast() && !packet.IsInstanceBroadcast()
      ensures forall c :: Copies(delivered, c) == Wanted(sender, packet, c)
    {
      var t, key := packet.recipientType, packet.recipientInstance;
      delivered := [];
      if t !in connections {
        return;
      }
      var inner := connections[t];
      RangeOrdered(inner, key);
      delivered := SendToRange(sender, inner, LowerBound(inner, key), UpperBound(inner, key));
      forall c
        ensures Copies(delivered, c) == Wanted(sender, packet, c)
      {
        RangeDelivered(t, inner, sender, key, c);
      }
    }

    // The loop over an equal range.
    method SendToRange(sender: Endpoint, inner: seq<Entry>, first: nat, end: nat) returns (delivered: seq<Endpoint>)
      requires first <= end <= |inner|
      ensures delivered == Deliver(inner[first..end], sender)
    {
      delivered := [];
      var i := first;
      while i < end
        invariant first <= i <= end
        invariant delivered == Deliver(inner[first..i], sender)
      {
        DeliverStep(inner, first, i, sender);
        delivered := SendToRecipient(sender, inner[i].connection, delivered);
        i := i + 1;
      }
    }

    method BroadcastToAllInstancesSingleType(sender: Endpoint, packet: Packet) returns (delivered: seq<Endpoint>)
      requires Valid() && !packet.IsTypeBroadcast() && packet.IsInstanceBroadcast()
      ensures forall c :: Copies(delivered, c) == Wanted(sender, packet, c)
    {
      if packet.recipientType !in connections {
        return [];
      }
      delivered := BroadcastToAllInstances(sender, connections[packet.recipientType]);
      forall c
        ensures Copies(delivered, c) == Wanted(sender, packet, c)
      {
        DeliverCount(connections[packet.recipientType], sender, c);
        ForeignCount(packet.recipientType, connections[packet.recipientType], c);
      }
    }

    method BroadcastToAllInstances(sender: Endpoint, inner: seq<Entry>) returns (delivered: seq<Endpoint>)
      ensures delivered == Deliver(inner, sender)
    {
      delivered := [];
      var i := 0;
      while i < |inner|
        invariant 0 <= i <= |inner|
        invariant delivered == Deliver(inner[0..i], sender)
      {
        DeliverStep(inner, 0, i, sender);
        delivered := SendToRecipient(sender, inner[i].connection, delivered);
        i := i + 1;
      }
      assert inner[0..i] == inner;
    }

    method BroadcastToAll(sender: Endpoint, packet: Packet) returns (delivered: seq<Endpoint>)
      requires Valid() && packet.IsTypeBroadcast() && packet.IsInstanceBroadcast()
      ensures forall c :: Copies(delivered, c) == Wanted(sender, packet, c)
    {
      delivered := [];
      // The source iterates in type order; any order reaches the same connections.
      var pending := connections.Keys;
      while pending != {}
        invariant pending <= connections.Keys
        invariant forall c: Endpoint ::
                    Copies(delivered, c) == if c.ctype in pending then 0 else Wanted(sender, packet, c)
        decreases |pending|
      {
        var t :| t in pending;
        var more := BroadcastToAllInstances(sender, connections[t]);
        forall c: Endpoint
          ensures Copies(more, c) == if c.ctype == t then Wanted(sender, packet, c) else 0
        {
          DeliverCount(connections[t], sender, c);
          ForeignCount(t, connections[t], c);
        }
        delivered := delivered + more;
        pending := pending - {t};
      }
    }

    method BroadcastToSingleInstanceAllTypes(sender: Endpoint, packet: Packet) returns (delivered: seq<Endpoint>)
      requires Valid() && packet.IsTypeBroadcast() && !packet.IsInstanceBroadcast()
      ensures OnePerType(sender, packet, delivered)
    {
      var key := packet.recipientInstance;
      ghost var found: map<CInt, Endpoint> := map[];
      delivered := [];
      var pending := connections.Keys;
      while pending != {}
        invariant pending <= connections.Keys && found.Keys <= connections.Keys - pending
        invariant forall t :: t in found ==> found[t].ctype == t && found[t].cinstance == key && Holds(found[t]) > 0
        invariant forall c: Endpoint :: Holds(c) > 0 && c.cinstance == key && c.ctype !in pending ==> c.ctype in found
        invariant forall c :: Copies(delivered, c) == if c != sender && c in found.Values then 1 else 0
        decreases |pending|
      {
        var t :| t in pending;
        var inner := connections[t];
        pending := pending - {t};
        var hit := FindInstance(t, inner, key);
        if hit.Some? {
          ghost var before := delivered;
          delivered := SendToRecipient(sender, hit.value, delivered);
          FoundValues(found, t, hit.value);
          found := found[t := hit.value];
          CopiesPush(before, delivered, sender, hit.value);
        }
      }
      assert IsFound(key, found);
    }

    // find() on a multimap may return any of the equal keys.
    method FindInstance(ghost t: CInt, inner: seq<Entry>, key: CInt) returns (hit: Option<Endpoint>)
      requires ValidInner(t, inner)
      ensures hit.Some? ==> hit.value.ctype == t && hit.value.cinstance == key && Count(inner, hit.value) > 0
      ensures hit.None? ==> forall c: Endpoint :: c.cinstance == key ==> Count(inner, c) == 0
    {
      if exists i :: 0 <= i < |inner| && inner[i].key == key {
        var i :| 0 <= i < |inner| && inner[i].key == key;
        CountPositive(inner, i);
        return Some(inner[i].connection);
      }
      forall c: Endpoint | c.cinstance == key
        ensures Count(inner, c) == 0
      {
        CountZero(inner, c);
      }
      return None;
    }

    // Never hands a message back to its sender.
    method SendToRecipient(sender: Endpoint, recipient: Endpoint, before: seq<Endpoint>)
      returns (delivered: seq<Endpoint>)
      ensures delivered == before + if recipient == sender then [] else [recipient]
    {
      if sender == recipient {
        return before;
      }
      return before + [recipient];
    }
  }

  predicate InstanceOnly(packet: Packet) {
    packet.IsTypeBroadcast() && !packet.IsInstanceBroadcast()
  }

  ghost predicate ValidInner(t: CInt, es: seq<Entry>) {
    Sorted(es) && forall i :: 0 <= i < |es| ==> es[i].connection.ctype == t && es[i].connection.cinstance == es[i].key
  }

  lemma CopiesPush(before: seq<Endpoint>, after: seq<Endpoint>, sender: Endpoint, recipient: Endpoint)
    requires after == before + if recipient == sender then [] else [recipient]
    ensures forall c :: Copies(after, c) == Copies(before, c) + if c == recipient && c != sender then 1 else 0
  {
  }

  lemma FoundValues(found: map<CInt, Endpoint>, t: CInt, c: Endpoint)
    requires t !in found && c.ctype == t
    requires forall u :: u in found ==> found[u].ctype == u
    ensures c !in found.Values && found[t := c].Values == found.Values + {c}
  {
    var more := found[t := c];
    assert more[t] == c;
    forall d | d in found.Values
      ensures d in more.Values
    {
      var u :| u in found && found[u] == d;
      assert more[u] == d;
    }
  }

  // Inserting a value in the middle adds exactly its one occurrence.
  lemma InsertCount(inner: seq<Entry>, k: nat, e: Entry, c: Endpoint)
    requires k <= |inner|
    ensures Count(inner[..k] + [e] + inner[k..], c) == Count(inner, c) + if c == e.connection then 1 else 0
  {
    assert inner == inner[..k] + inner[k..];
    CountAppend(inner[..k] + [e], inner[k..], c);
    CountAppend(inner[..k], [e], c);
    CountAppend(inner[..k], inner[k..], c);
    assert [e][..0] == [];
  }

  lemma InsertKeeps(t: CInt, inner: seq<Entry>, connection: Endpoint)
    requires ValidInner(t, inner) && connection.ctype == t
    ensures var k := UpperBound(inner, connection.cinstance);
            ValidInner(t, inner[..k] + [Entry(connection.cinstance, connection)] + inner[k..])
  {
    var k := UpperBound(inner, connection.cinstance);
    EqualRange(inner, connection.cinstance);
    InsertSorted(inner, k, Entry(connection.cinstance, connection));
  }

  lemma InsertSorted(inner: seq<Entry>, k: nat, e: Entry)
    requires Sorted(inner) && k <= |inner|
    requires forall i :: 0 <= i < |inner| ==> (inner[i].key <= e.key <==> i < k)
    ensures Sorted(inner[..k] + [e] + inner[k..])
  {
  }

  lemma EraseKeeps(t: CInt, inner: seq<Entry>, i: nat)
    requires ValidInner(t, inner) && i < |inner|
    ensures ValidInner(t, Without(inner, i))
    ensures forall c :: Count(inner, c) == Count(Without(inner, i), c) + if c == inner[i].connection then 1 else 0
  {
    var rest := Without(inner, i);
    assert inner == rest[..i] + [inner[i]] + rest[i..];
    forall c
      ensures Count(inner, c) == Count(rest, c) + if c == inner[i].connection then 1 else 0
    {
      InsertCount(rest, i, inner[i], c);
    }
  }

  // Within one type, the equal range holds exactly the connections with that instance.
  lemma RangeCount(t: CInt, inner: seq<Entry>, key: CInt, c: Endpoint)
    requires ValidInner(t, inner)
    ensures LowerBound(inner, key) <= UpperBound(inner, key)
    ensures Count(inner[LowerBound(inner, key)..UpperBound(inner, key)], c)
         == if c.ctype == t && c.cinstance == key then Count(inner, c) else 0
  {
    EqualRange(inner, key);
    SliceCount(inner, LowerBound(inner, key), UpperBound(inner, key), c);
  }

  // A slice holds all occurrences of c, or none, when the entries say so.
  lemma SliceCount(inner: seq<Entry>, lo: nat, hi: nat, c: Endpoint)
    requires lo <= hi <= |inner|
    ensures (forall i :: 0 <= i < |inner| && !(lo <= i < hi) ==> inner[i].connection != c) ==>
              Count(inner[lo..hi], c) == Count(inner, c)
    ensures (forall i :: lo <= i < hi ==> inner[i].connection != c) ==> Count(inner[lo..hi], c) == 0
  {
    assert inner == inner[..lo] + inner[lo..hi] + inner[hi..];
    CountAppend(inner[..lo] + inner[lo..hi], inner[hi..], c);
    CountAppend(inner[..lo], inner[lo..hi], c);
    if forall i :: 0 <= i < |inner| && !(lo <= i < hi) ==> inner[i].connection != c {
      CountZero(inner[..lo], c);
      CountZero(inner[hi..], c);
    }
    if forall i :: lo <= i < hi ==> inner[i].connection != c {
      CountZero(inner[lo..hi], c);
    }
  }

  lemma RangeDelivered(t: CInt, inner: seq<Entry>, sender: Endpoint, key: CInt, c: Endpoint)
    requires ValidInner(t, inner)
    ensures LowerBound(inner, key) <= UpperBound(inner, key)
    ensures Copies(Deliver(inner[LowerBound(inner, key)..UpperBound(inner, key)], sender), c)
         == if c != sender && c.ctype == t && c.cinstance == key then Count(inner, c) else 0
  {
    EqualRange(inner, key);
    DeliverCount(inner[LowerBound(inner, key)..UpperBound(inner, key)], sender, c);
    RangeCount(t, inner, key, c);
  }

  lemma ForeignCount(t: CInt, inner: seq<Entry>, c: Endpoint)
    requires ValidInner(t, inner)
    ensures c.ctype != t ==> Count(inner, c) == 0
  {
    if c.ctype != t {
      CountZero(inner, c);
    }
  }

  // How connect, disconnect and send can fail.
  datatype Failure = NoBus | BusAlreadyRegistered | NotConnected | UnknownMessage

  class LocalConnection {
    const self: Endpoint
    // The message types known to the connection's message factory
    const registered: set<string>
    var bus: Bus?
    var connected: bool

    // The index holds this connection once while it is connected, and not otherwise.
    ghost predicate Tracked()
      reads this, bus
    {
      && (bus == null ==> !connected)
      && (bus != null ==> bus.Valid() && bus.Holds(self) == if connected then 1 else 0)
    }

    constructor (self: Endpoint, registered: set<string>)
      ensures this.self == self && this.registered == registered
      ensures bus == null && !connected && Tracked()
    {
      this.self, this.registered := self, registered;
      bus, connected := null, false;
    }

    method RegisterBus(newBus: Bus) returns (r: Result<(), Failure>)
      requires Tracked()
      modifies this`bus
      ensures r == if old(bus) != null then Err(BusAlreadyRegistered) else Ok(())
      ensures bus == if old(bus) != null then old(bus) else newBus
    {
      if bus != null {
        return Err(BusAlreadyRegistered);
      }
      bus := newBus;
      return Ok(());
    }

    method Connect() returns (r: Result<bool, Failure>)
      requires Tracked()
      modifies this`connected, bus
      ensures Tracked() && bus == old(bus)
      ensures r == if bus == null then Err(NoBus) else Ok(true)
      ensures bus != null ==> connected && forall c :: c != self ==> bus.Holds(c) == old(bus.Holds(c))
    {
      if bus == null {
        return Err(NoBus);
      }
      if connected {
        return Ok(true);
      }
      bus.Connected(self);
      connected := true;
      return Ok(true);
    }

    method Disconnect() returns (r: Result<bool, Failure>)
      requires Tracked()
      modifies this`connected, bus
      ensures Tracked() && bus == old(bus)
      ensures r == if bus == null then Err(NoBus) else Ok(true)
      ensures !connected
      ensures bus != null ==> forall c :: c != self ==> bus.Holds(c) == old(bus.Holds(c))
    {
      if bus == null {
        return Err(NoBus);
      }
      if !connected {
        return Ok(true);
      }
      bus.Disconnected(self);
      connected := false;
      return Ok(true);
    }

    // Hands the packet to the bus, after the checks of sendPacket.
    method SendPacket(packet: Packet) returns (r: Result<seq<Endpoint>, Failure>)
      requires Tracked()
      ensures r.Err? <==> bus == null || !connected || packet.message.kind !in registered
      ensures r == Err(NoBus) <==> bus == null
      ensures r == Err(NotConnected) <==> bus != null && !connected
      ensures r == Err(UnknownMessage) <==> bus != null && connected && packet.message.kind !in registered
      ensures r.Ok? && !InstanceOnly(packet) ==> forall c :: Copies(r.value, c) == bus.Wanted(self, packet, c)
      ensures r.Ok? && InstanceOnly(packet) ==> bus.OnePerType(self, packet, r.value)
    {
      if bus == null {
        return Err(NoBus);
      }
      if !connected {
        return Err(NotConnected);
      }
      if packet.message.kind !in registered {
        return Err(UnknownMessage);
      }
      var delivered := bus.RouteMessage(self, packet);
      return Ok(delivered);
    }
  }
}
