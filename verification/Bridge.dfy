// comms-lib: bridges between buses, and the routes a message can take over them. In a
// forest of buses no connection is led to by two routes, however the rules are set.
module Bridges {
  import opened Sequences
  import opened Wrappers
  import opened Buses

  // One direction of a bridge: which message types go on, and to whom.
  type Rules = map<string, (CInt, CInt)>

  function Forwarded(rules: Rules, message: Message): Option<Packet> {
    if message.kind in rules then Some(Packet(message, rules[message.kind].0, rules[message.kind].1)) else None
  }

  class MessageForwarder {
    var routing: Rules

    constructor ()
      ensures routing == map[]
    {
      routing := map[];
    }

    // A later rule for the same message type replaces the earlier one.
    method AddRule(messageType: string, nodeType: CInt, nodeInstance: CInt)
      modifies this
      ensures routing == old(routing)[messageType := (nodeType, nodeInstance)]
    {
      routing := routing[messageType := (nodeType, nodeInstance)];
    }

    // The packet to send on the other connection, if any; the address it came with is dropped.
    method MessageReceived(packet: Packet) returns (sent: Option<Packet>)
      ensures sent == Forwarded(routing, packet.message)
      ensures packet.message.kind !in routing ==> sent.None?
      ensures packet.message.kind in routing ==>
                && sent.Some? && sent.value.message == packet.message
                && (sent.value.recipientType, sent.value.recipientInstance) == routing[packet.message.kind]
    {
      if packet.message.kind !in routing {
        return None;
      }
      var (nodeType, nodeInstance) := routing[packet.message.kind];
      return Some(Packet(packet.message, nodeType, nodeInstance));
    }
  }

  // A message goes where the newest rule for its type sends it, and stays if there is none.
  method AddRuleAndReceive(forwarder: MessageForwarder, messageType: string, nodeType: CInt, nodeInstance: CInt,
                           packet: Packet)
    returns (sent: Option<Packet>)
    modifies forwarder
    ensures packet.message.kind == messageType ==>
              && sent.Some? && sent.value.message == packet.message
              && sent.value.recipientType == nodeType && sent.value.recipientInstance == nodeInstance
    ensures packet.message.kind != messageType ==> (sent.Some? <==> packet.message.kind in old(forwarder.routing))
  {
    forwarder.AddRule(messageType, nodeType, nodeInstance);
    sent := forwarder.MessageReceived(packet);
  }

  datatype BusId = BusId(n: nat)

  // Connected endpoints and their buses; each bridge owns two endpoints that are each
  // other's peer, with the rules for what arrives on either.
  datatype Network = Network(busOf: map<Endpoint, BusId>, peer: map<Endpoint, Endpoint>, rules: map<Endpoint, Rules>)
  {
    ghost predicate Valid() {
      && (forall e :: e in peer ==>
            e in busOf && peer[e] in peer && peer[e] in busOf && peer[peer[e]] == e && busOf[e] != busOf[peer[e]])
      && rules.Keys == peer.Keys
    }

    // The bus an endpoint is on.
    function Near(e: Endpoint): BusId {
      if e in busOf then busOf[e] else BusId(0)
    }

    // The bus on the other side of a bridge endpoint.
    function Far(e: Endpoint): BusId {
      if e in peer then Near(peer[e]) else BusId(0)
    }

    // Where a walk over bridges stands before its j-th crossing.
    function At(start: BusId, w: seq<Endpoint>, j: nat): BusId
      requires j <= |w|
    {
      if j == 0 then start else Far(w[j - 1])
    }

    // A walk over bridges, each crossed from the bus the walk has reached.
    ghost predicate IsWalk(start: BusId, w: seq<Endpoint>) {
      && (forall j :: 0 <= j < |w| ==> w[j] in peer)
      && (forall j {:trigger At(start, w, j)} :: 0 <= j < |w| ==> Near(w[j]) == At(start, w, j))
    }

    // A walk that never turns back over the bridge it has just crossed.
    ghost predicate IsTrail(start: BusId, w: seq<Endpoint>) {
      IsWalk(start, w) && forall i, j :: 0 <= i && j == i + 1 && j < |w| ==> w[j] != peer[w[i]]
    }

    // A closed walk that crosses no bridge twice.
    ghost predicate IsCycle(start: BusId, w: seq<Endpoint>) {
      && w != [] && IsWalk(start, w) && At(start, w, |w|) == start
      && forall i, j :: 0 <= i < j < |w| ==> w[i] != w[j] && w[i] != peer[w[j]]
    }

    ghost predicate IsForest() {
      forall start, w :: !IsCycle(start, w)
    }

    function Buses(): set<BusId> {
      busOf.Values
    }

    function Members(b: BusId): set<Endpoint> {
      set e | e in busOf && busOf[e] == b
    }

    // Whom the packet is for. Of several with one type and instance, a packet for one
    // instance of all types reaches the one the lookup returns.
    function Recipients(b: BusId, sender: Endpoint, packet: Packet): set<Endpoint> {
      set e | e in Members(b) && e != sender && packet.Addresses(e.ctype, e.cinstance)
    }
  }

  // The buses met on the way, the first and the last included.
  function Stops(net: Network, start: BusId, w: seq<Endpoint>): (stops: seq<BusId>)
    ensures |stops| == |w| + 1
    ensures forall j :: 0 <= j <= |w| ==> stops[j] == net.At(start, w, j)
  {
    seq(|w| + 1, j requires 0 <= j <= |w| => net.At(start, w, j))
  }

  lemma TrailSlice(net: Network, start: BusId, w: seq<Endpoint>, i: nat, j: nat)
    requires net.IsTrail(start, w) && i <= j <= |w|
    ensures net.IsTrail(net.At(start, w, i), w[i..j])
    ensures forall k :: 0 <= k <= j - i ==> net.At(net.At(start, w, i), w[i..j], k) == net.At(start, w, i + k)
  {
    var s := w[i..j];
    forall k | 0 <= k <= |s|
      ensures net.At(net.At(start, w, i), s, k) == net.At(start, w, i + k)
      ensures k < |s| ==> net.Near(s[k]) == net.At(start, w, i + k)
    {
      assert k > 0 ==> s[k - 1] == w[i + k - 1];
      assert k < |s| ==> s[k] == w[i + k];
    }
  }

  // The buses met from stop i up to, but not including, stop j are all different.
  ghost predicate Fresh(net: Network, start: BusId, w: seq<Endpoint>, i: nat, j: nat)
    requires j <= |w|
  {
    forall a, b :: i <= a < b < j ==> net.At(start, w, a) != net.At(start, w, b)
  }

  // In a forest a walk that never turns back never meets a bus again.
  lemma TrailStopsDistinct(net: Network, start: BusId, w: seq<Endpoint>)
    requires net.Valid() && net.IsForest() && net.IsTrail(start, w)
    ensures Distinct(Stops(net, start, w))
  {
    var stops := Stops(net, start, w);
    if !Distinct(stops) {
      var i, j := FirstRepeat(stops);
      forall a, b | i <= a < b < j
        ensures net.At(start, w, a) != net.At(start, w, b)
      {
        assert stops[..j][a] != stops[..j][b];
      }
      ReturnIsCycle(net, start, w, i, j);
    }
  }

  // The first return to a bus closes a cycle that crosses no bridge twice.
  lemma ReturnIsCycle(net: Network, start: BusId, w: seq<Endpoint>, i: nat, j: nat)
    requires net.Valid() && net.IsTrail(start, w) && i < j <= |w|
    requires net.At(start, w, i) == net.At(start, w, j) && Fresh(net, start, w, i, j)
    ensures net.IsCycle(net.At(start, w, i), w[i..j])
  {
    var part := w[i..j];
    TrailSlice(net, start, w, i, j);
    forall a, b | 0 <= a < b < |part|
      ensures part[a] != part[b] && part[a] != net.peer[part[b]]
    {
      NoBridgeTwice(net, start, w, i, j, i + a, i + b);
    }
    assert net.At(net.At(start, w, i), part, j - i) == net.At(start, w, i + (j - i));
  }

  lemma NoBridgeTwice(net: Network, start: BusId, w: seq<Endpoint>, i: nat, j: nat, a: nat, b: nat)
    requires net.Valid() && net.IsTrail(start, w) && i <= a < b < j <= |w|
    requires net.At(start, w, i) == net.At(start, w, j) && Fresh(net, start, w, i, j)
    ensures w[a] != w[b] && w[a] != net.peer[w[b]]
  {
    assert net.Near(w[a]) == net.At(start, w, a) && net.Far(w[a]) == net.At(start, w, a + 1);
    assert net.Near(w[b]) == net.At(start, w, b) && net.Far(w[b]) == net.At(start, w, b + 1);
  }

  function Reversed(net: Network, w: seq<Endpoint>): (r: seq<Endpoint>)
    requires forall j :: 0 <= j < |w| ==> w[j] in net.peer
    ensures |r| == |w| && forall j :: 0 <= j < |w| ==> r[j] == net.peer[w[|w| - 1 - j]]
  {
    seq(|w|, j requires 0 <= j < |w| => net.peer[w[|w| - 1 - j]])
  }

  lemma ReverseTrail(net: Network, start: BusId, w: seq<Endpoint>)
    requires net.Valid() && net.IsTrail(start, w)
    ensures net.IsTrail(net.At(start, w, |w|), Reversed(net, w))
    ensures net.At(net.At(start, w, |w|), Reversed(net, w), |w|) == start
  {
    var r, end := Reversed(net, w), net.At(start, w, |w|);
    forall j | 0 <= j <= |r|
      ensures net.At(end, r, j) == net.At(start, w, |w| - j)
      ensures j < |r| ==> net.Near(r[j]) == net.At(start, w, |w| - j)
    {
      assert j > 0 ==> net.Far(r[j - 1]) == net.Near(w[|w| - j]);
    }
    forall i, j | 0 <= i && j == i + 1 && j < |r|
      ensures r[j] != net.peer[r[i]]
    {
      assert r[i] == net.peer[w[|w| - 1 - i]] && r[j] == net.peer[w[|w| - 2 - i]];
    }
  }

  lemma JoinTrails(net: Network, start: BusId, a: seq<Endpoint>, b: seq<Endpoint>)
    requires net.IsTrail(start, a) && net.IsTrail(net.At(start, a, |a|), b)
    requires a != [] && b != [] ==> b[0] != net.peer[a[|a| - 1]]
    ensures net.IsTrail(start, a + b)
    ensures net.At(start, a + b, |a + b|) == net.At(net.At(start, a, |a|), b, |b|)
  {
    var w := a + b;
    forall k | 0 <= k <= |w|
      ensures net.At(start, w, k) == if k <= |a| then net.At(start, a, k) else net.At(net.At(start, a, |a|), b, k - |a|)
      ensures k < |w| ==> net.Near(w[k]) == net.At(start, w, k)
    {
      assert k < |a| ==> net.Near(a[k]) == net.At(start, a, k);
      assert |a| <= k < |w| ==> net.Near(b[k - |a|]) == net.At(net.At(start, a, |a|), b, k - |a|);
    }
  }

  // In a forest there is one trail between two buses.
  lemma {:induction false} UniqueTrail(net: Network, start: BusId, a: seq<Endpoint>, b: seq<Endpoint>)
    requires net.Valid() && net.IsForest() && net.IsTrail(start, a) && net.IsTrail(start, b)
    requires net.At(start, a, |a|) == net.At(start, b, |b|)
    ensures a == b
    decreases |a|
  {
    if a != [] && b != [] && a[0] == b[0] {
      TrailSlice(net, start, a, 1, |a|);
      TrailSlice(net, start, b, 1, |b|);
      assert net.At(net.Far(a[0]), a[1..|a|], |a| - 1) == net.At(start, a, 1 + (|a| - 1));
      assert net.At(net.Far(b[0]), b[1..|b|], |b| - 1) == net.At(start, b, 1 + (|b| - 1));
      UniqueTrail(net, net.Far(a[0]), a[1..|a|], b[1..|b|]);
      assert a == [a[0]] + a[1..|a|] && b == [b[0]] + b[1..|b|];
    } else if a != [] || b != [] {
      ForkClosesTrail(net, start, a, b);
    }
  }

  // Two trails that part at the first crossing and meet again close a cycle.
  lemma ForkClosesTrail(net: Network, start: BusId, a: seq<Endpoint>, b: seq<Endpoint>)
    requires net.Valid() && net.IsTrail(start, a) && net.IsTrail(start, b)
    requires net.At(start, a, |a|) == net.At(start, b, |b|)
    requires a != [] && b != [] ==> a[0] != b[0]
    requires a != [] || b != []
    ensures !net.IsForest()
  {
    var end, r := net.At(start, a, |a|), Reversed(net, a);
    ReverseTrail(net, start, a);
    JoinTrails(net, end, r, b);
    var loop := r + b;
    assert net.At(end, loop, 0) == end == net.At(end, loop, |loop|);
    if net.IsForest() {
      TrailStopsDistinct(net, end, loop);
    }
  }

  // Who puts the packet on the bus a route has reached.
  function SenderAfter(net: Network, sender: Endpoint, w: seq<Endpoint>): Endpoint {
    if w == [] then sender
    else if w[|w| - 1] in net.peer then net.peer[w[|w| - 1]] else sender
  }

  // The packet as it arrives after the bridges of a route have forwarded it, if they all do.
  function Carry(net: Network, sender: Endpoint, packet: Packet, w: seq<Endpoint>): Option<Packet> {
    if w == [] then Some(packet)
    else
      var n := |w| - 1;
      match Carry(net, sender, packet, w[..n])
      case None => None
      case Some(p) =>
        if w[n] in net.rules && Hears(net, SenderAfter(net, sender, w[..n]), p, w[n])
        then Forwarded(net.rules[w[n]], p.message) else None
  }

  // The endpoint is on the sender's bus and the packet is for it.
  predicate Hears(net: Network, sender: Endpoint, packet: Packet, e: Endpoint) {
    e in net.Recipients(net.Near(sender), sender, packet)
  }

  // Exactly this route leads the packet to the endpoint.
  ghost predicate Reached(net: Network, sender: Endpoint, packet: Packet, w: seq<Endpoint>, e: Endpoint) {
    var p := Carry(net, sender, packet, w);
    p.Some? && Hears(net, SenderAfter(net, sender, w), p.value, e)
  }

  // Some route that begins this way leads the packet to the endpoint.
  ghost predicate ReachedVia(net: Network, sender: Endpoint, packet: Packet, w: seq<Endpoint>, e: Endpoint) {
    exists ext :: Reached(net, sender, packet, w + ext, e)
  }

  // The bridge endpoint has a rule for the message.
  predicate Passes(net: Network, packet: Packet, c: Endpoint) {
    c in net.peer && c in net.rules && packet.message.kind in net.rules[c]
  }

  // Whom the rule of a bridge endpoint, just crossed, asks for on the bus beyond.
  predicate AskedFor(net: Network, packet: Packet, c: Endpoint, e: Endpoint)
    requires Passes(net, packet, c)
  {
    var (t, n) := net.rules[c][packet.message.kind];
    && e in net.busOf && net.peer[c] in net.busOf && net.busOf[e] == net.busOf[net.peer[c]] && e != net.peer[c]
    && (t < 0 || e.ctype == t) && (n < 0 || e.cinstance == n)
  }

  // The i-th hop of a route: the next bridge endpoint, or the end of the route, hears what was put
  // on its bus by the sender, or by the peer of the bridge endpoint crossed last, for the address
  // the packet set out with, or the one the last rule gave it.
  ghost predicate HopHeard(net: Network, sender: Endpoint, packet: Packet, w: seq<Endpoint>, e: Endpoint, i: nat)
    requires sender in net.busOf && i <= |w| && PassesAll(net, packet, w)
  {
    var c := if i < |w| then w[i] else e;
    if i == 0 then
      && c in net.busOf && net.busOf[c] == net.busOf[sender] && c != sender
      && (packet.recipientType < 0 || c.ctype == packet.recipientType)
      && (packet.recipientInstance < 0 || c.cinstance == packet.recipientInstance)
    else AskedFor(net, packet, w[i - 1], c)
  }

  ghost predicate PassesAll(net: Network, packet: Packet, w: seq<Endpoint>) {
    forall i :: 0 <= i < |w| ==> Passes(net, packet, w[i])
  }

  ghost predicate HopsHeard(net: Network, sender: Endpoint, packet: Packet, w: seq<Endpoint>, e: Endpoint)
    requires sender in net.busOf && PassesAll(net, packet, w)
  {
    forall i {:trigger HopHeard(net, sender, packet, w, e, i)} :: 0 <= i <= |w| ==>
      HopHeard(net, sender, packet, w, e, i)
  }

  // Routes, crossing by crossing: each bridge endpoint on the way, and the endpoint at the end,
  // hears the message from the peer of the one before under the address its rule gave.
  lemma {:induction false} ReachedIff(net: Network, sender: Endpoint, packet: Packet, w: seq<Endpoint>, e: Endpoint)
    requires net.Valid() && sender in net.busOf
    ensures Reached(net, sender, packet, w, e) <==> PassesAll(net, packet, w) && HopsHeard(net, sender, packet, w, e)
  {
    if w == [] {
      assert HopHeard(net, sender, packet, w, e, 0) ==> HopsHeard(net, sender, packet, w, e);
    } else {
      var n := |w| - 1;
      ReachedIff(net, sender, packet, w[..n], w[n]);
      assert w[..n] + [w[n]] == w;
      ReachedOver(net, sender, packet, w[..n], w[n], e);
      HopsOver(net, sender, packet, w[..n], w[n], e);
    }
  }

  lemma ReachedOver(net: Network, sender: Endpoint, packet: Packet, v: seq<Endpoint>, c: Endpoint, e: Endpoint)
    requires net.Valid() && sender in net.busOf
    ensures Reached(net, sender, packet, v + [c], e)
            <==> Reached(net, sender, packet, v, c) && Passes(net, packet, c) && AskedFor(net, packet, c, e)
  {
    assert (v + [c])[..|v|] == v;
    if Carry(net, sender, packet, v).Some? {
      CarryIsTrail(net, sender, packet, v);
    }
  }

  lemma HopsOver(net: Network, sender: Endpoint, packet: Packet, v: seq<Endpoint>, c: Endpoint, e: Endpoint)
    requires net.Valid() && sender in net.busOf
    ensures PassesAll(net, packet, v + [c]) <==> PassesAll(net, packet, v) && Passes(net, packet, c)
    ensures PassesAll(net, packet, v + [c]) ==>
              (HopsHeard(net, sender, packet, v + [c], e)
               <==> HopsHeard(net, sender, packet, v, c) && AskedFor(net, packet, c, e))
  {
    var w := v + [c];
    assert w[|v|] == c && forall i :: 0 <= i < |v| ==> w[i] == v[i];
    if PassesAll(net, packet, w) {
      forall i | 0 <= i <= |v|
        ensures HopHeard(net, sender, packet, w, e, i) <==> HopHeard(net, sender, packet, v, c, i)
      {
        assert i > 0 ==> w[i - 1] == v[i - 1];
      }
      assert HopHeard(net, sender, packet, w, e, |v| + 1) <==> AskedFor(net, packet, c, e);
    }
  }

  lemma {:induction false} CarryIsTrail(net: Network, sender: Endpoint, packet: Packet, w: seq<Endpoint>)
    requires net.Valid() && Carry(net, sender, packet, w).Some?
    ensures net.IsTrail(net.Near(sender), w)
    ensures net.At(net.Near(sender), w, |w|) == net.Near(SenderAfter(net, sender, w))
    ensures Carry(net, sender, packet, w).value.message == packet.message
  {
    if w != [] {
      var n := |w| - 1;
      var init := w[..n];
      CarryIsTrail(net, sender, packet, init);
      assert w == init + [w[n]];
      assert net.IsTrail(net.At(net.Near(sender), init, n), [w[n]]);
      assert init != [] ==> w[n] != net.peer[init[n - 1]];
      JoinTrails(net, net.Near(sender), init, [w[n]]);
    }
  }

  lemma {:induction false} CarryPrefix(net: Network, sender: Endpoint, packet: Packet, w: seq<Endpoint>, k: nat)
    requires k <= |w| && Carry(net, sender, packet, w).Some?
    ensures Carry(net, sender, packet, w[..k]).Some?
  {
    if k < |w| {
      CarryPrefix(net, sender, packet, w[..|w| - 1], k);
      assert w[..|w| - 1][..k] == w[..k];
    } else {
      assert w[..k] == w;
    }
  }

  // No connection is led to by two routes.
  lemma OneRoute(net: Network, sender: Endpoint, packet: Packet, v: seq<Endpoint>, w: seq<Endpoint>, e: Endpoint)
    requires net.Valid() && net.IsForest()
    requires Reached(net, sender, packet, v, e) && Reached(net, sender, packet, w, e)
    ensures v == w
  {
    CarryIsTrail(net, sender, packet, v);
    CarryIsTrail(net, sender, packet, w);
    UniqueTrail(net, net.Near(sender), v, w);
  }

  // Each crossing reaches a bus not met before, so there are fewer crossings than buses.
  lemma RouteBounded(net: Network, sender: Endpoint, packet: Packet, w: seq<Endpoint>)
    requires net.Valid() && net.IsForest() && sender in net.busOf
    requires Carry(net, sender, packet, w).Some?
    ensures |w| < |net.Buses()|
  {
    CarryIsTrail(net, sender, packet, w);
    var stops := Stops(net, net.Near(sender), w);
    TrailStopsDistinct(net, net.Near(sender), w);
    forall b | b in stops
      ensures b in net.Buses()
    {
      var j :| 0 <= j < |stops| && stops[j] == b;
      if j > 0 {
        assert w[j - 1] in net.peer && net.peer[w[j - 1]] in net.busOf;
      }
    }
    DistinctBound(stops, net.Buses());
  }

  // Recipients visited so far on this bus, and whatever their forwards reach.
  ghost predicate Covered(net: Network, sender: Endpoint, packet: Packet, w: seq<Endpoint>, done: set<Endpoint>,
                          e: Endpoint) {
    e in done || exists c :: c in done && ReachedVia(net, sender, packet, w + [c], e)
  }

  lemma SameCrossing(w: seq<Endpoint>, c: Endpoint, ext: seq<Endpoint>, d: Endpoint, other: seq<Endpoint>)
    requires w + [c] + ext == w + [d] + other
    ensures c == d
  {
    assert (w + [c] + ext)[|w|] == c && (w + [d] + other)[|w|] == d;
  }

  // What one more recipient adds is new: itself, and everything beyond its bridge.
  lemma AddsNew(net: Network, sender: Endpoint, packet: Packet, w: seq<Endpoint>, done: set<Endpoint>, c: Endpoint,
                e: Endpoint)
    requires net.Valid() && net.IsForest() && c !in done && Reached(net, sender, packet, w, c)
    requires forall d :: d in done ==> Reached(net, sender, packet, w, d)
    ensures !Covered(net, sender, packet, w, done, c) && !ReachedVia(net, sender, packet, w + [c], c)
    ensures ReachedVia(net, sender, packet, w + [c], e) ==> !Covered(net, sender, packet, w, done, e)
  {
    BeyondIsElsewhere(net, sender, packet, w, c, c);
    forall d | d in done
      ensures !ReachedVia(net, sender, packet, w + [d], c)
    {
      BeyondIsElsewhere(net, sender, packet, w, d, c);
    }
    if ext :| Reached(net, sender, packet, w + [c] + ext, e) {
      forall d, other | d in done && Reached(net, sender, packet, w + [d] + other, e)
        ensures false
      {
        OneRoute(net, sender, packet, w + [c] + ext, w + [d] + other, e);
        SameCrossing(w, c, ext, d, other);
      }
      if e in done {
        BeyondIsElsewhere(net, sender, packet, w, c, e);
      }
    }
  }

  // A recipient of this bus is not reached again from beyond a bridge.
  lemma BeyondIsElsewhere(net: Network, sender: Endpoint, packet: Packet, w: seq<Endpoint>, c: Endpoint, e: Endpoint)
    requires net.Valid() && net.IsForest() && Reached(net, sender, packet, w, e)
    ensures !ReachedVia(net, sender, packet, w + [c], e)
  {
    forall ext | Reached(net, sender, packet, w + [c] + ext, e)
      ensures false
    {
      OneRoute(net, sender, packet, w, w + [c] + ext, e);
    }
  }

  // The first crossing of a longer route is over a recipient of this bus.
  lemma FirstCrossing(net: Network, sender: Endpoint, packet: Packet, w: seq<Endpoint>, ext: seq<Endpoint>,
                      e: Endpoint)
    requires Carry(net, sender, packet, w).Some? && ext != []
    requires Reached(net, sender, packet, w + ext, e)
    ensures Hears(net, SenderAfter(net, sender, w), Carry(net, sender, packet, w).value, ext[0])
    ensures ReachedVia(net, sender, packet, w + [ext[0]], e)
  {
    var c, rest := ext[0], ext[1..];
    assert w + ext == w + [c] + rest;
    CarryPrefix(net, sender, packet, w + ext, |w| + 1);
    assert (w + ext)[..|w| + 1] == w + [c];
    CrossingHeard(net, sender, packet, w, c);
  }

  lemma CrossingHeard(net: Network, sender: Endpoint, packet: Packet, w: seq<Endpoint>, c: Endpoint)
    requires Carry(net, sender, packet, w + [c]).Some?
    ensures Reached(net, sender, packet, w, c)
  {
    assert (w + [c])[..|w|] == w;
  }

  // Routes lead from a bus to whom the packet is for there and, over their bridges, onward.
  lemma RoutesSplit(net: Network, sender: Endpoint, packet: Packet, w: seq<Endpoint>, e: Endpoint)
    requires Carry(net, sender, packet, w).Some?
    ensures var from, p := SenderAfter(net, sender, w), Carry(net, sender, packet, w).value;
            ReachedVia(net, sender, packet, w, e)
            <==> Covered(net, sender, packet, w, net.Recipients(net.Near(from), from, p), e)
  {
    var from, p := SenderAfter(net, sender, w), Carry(net, sender, packet, w).value;
    var here := net.Recipients(net.Near(from), from, p);
    assert w + [] == w;
    if ReachedVia(net, sender, packet, w, e) {
      RouteLeavesHere(net, sender, packet, w, e);
    }
    if e in here {
      assert Reached(net, sender, packet, w + [], e);
    } else if Covered(net, sender, packet, w, here, e) {
      var c :| c in here && ReachedVia(net, sender, packet, w + [c], e);
      RouteExtends(net, sender, packet, w, c, e);
    }
  }

  lemma RouteLeavesHere(net: Network, sender: Endpoint, packet: Packet, w: seq<Endpoint>, e: Endpoint)
    requires Carry(net, sender, packet, w).Some? && ReachedVia(net, sender, packet, w, e)
    ensures var from, p := SenderAfter(net, sender, w), Carry(net, sender, packet, w).value;
            Covered(net, sender, packet, w, net.Recipients(net.Near(from), from, p), e)
  {
    var ext :| Reached(net, sender, packet, w + ext, e);
    if ext == [] {
      assert w + ext == w;
    } else {
      FirstCrossing(net, sender, packet, w, ext, e);
    }
  }

  lemma RouteExtends(net: Network, sender: Endpoint, packet: Packet, w: seq<Endpoint>, c: Endpoint, e: Endpoint)
    requires ReachedVia(net, sender, packet, w + [c], e)
    ensures ReachedVia(net, sender, packet, w, e)
  {
    var ext :| Reached(net, sender, packet, w + [c] + ext, e);
    assert w + [c] + ext == w + ([c] + ext);
  }

  // An endpoint that does not forward the packet leads nowhere.
  lemma NothingBeyond(net: Network, sender: Endpoint, packet: Packet, w: seq<Endpoint>, c: Endpoint)
    requires Carry(net, sender, packet, w + [c]).None?
    ensures forall e :: !ReachedVia(net, sender, packet, w + [c], e)
  {
    forall e
      ensures !ReachedVia(net, sender, packet, w + [c], e)
    {
      if ReachedVia(net, sender, packet, w + [c], e) {
        RouteStartForwards(net, sender, packet, w + [c], e);
      }
    }
  }

  lemma RouteStartForwards(net: Network, sender: Endpoint, packet: Packet, w: seq<Endpoint>, e: Endpoint)
    requires ReachedVia(net, sender, packet, w, e)
    ensures Carry(net, sender, packet, w).Some?
  {
    var ext :| Reached(net, sender, packet, w + ext, e);
    CarryPrefix(net, sender, packet, w + ext, |w|);
    assert (w + ext)[..|w|] == w;
  }

  lemma CoveredGrows(net: Network, sender: Endpoint, packet: Packet, w: seq<Endpoint>, done: set<Endpoint>,
                     c: Endpoint, e: Endpoint)
    ensures Covered(net, sender, packet, w, done + {c}, e)
            <==> Covered(net, sender, packet, w, done, e) || e == c || ReachedVia(net, sender, packet, w + [c], e)
  {
  }

  // Crossing one more bridge.
  lemma CarryOver(net: Network, sender: Endpoint, packet: Packet, w: seq<Endpoint>, c: Endpoint)
    requires net.Valid() && Reached(net, sender, packet, w, c)
    ensures Carry(net, sender, packet, w + [c])
         == if c in net.rules then Forwarded(net.rules[c], Carry(net, sender, packet, w).value.message) else None
    ensures c in net.rules ==> c in net.peer && SenderAfter(net, sender, w + [c]) == net.peer[c]
  {
    assert (w + [c])[..|w|] == w;
  }

  lemma NeverBack(net: Network, sender: Endpoint, packet: Packet, route: seq<Endpoint>)
    requires net.Valid() && net.IsForest()
    ensures !Reached(net, sender, packet, route, sender)
  {
    if Reached(net, sender, packet, route, sender) {
      CarryIsTrail(net, sender, packet, route);
      UniqueTrail(net, net.Near(sender), [], route);
    }
  }

  // What a route would carry if a bus also handed a packet back to its sender.
  function EchoCarry(net: Network, sender: Endpoint, packet: Packet, w: seq<Endpoint>): Option<Packet> {
    if w == [] then Some(packet)
    else
      var n := |w| - 1;
      match EchoCarry(net, sender, packet, w[..n])
      case None => None
      case Some(p) =>
        var from := SenderAfter(net, sender, w[..n]);
        if w[n] in net.rules && w[n] in net.Members(net.Near(from)) && p.Addresses(w[n].ctype, w[n].cinstance)
        then Forwarded(net.rules[w[n]], p.message) else None
  }

  // The bridge endpoint passes this message on, addressed to its own other end among others.
  predicate Bounces(net: Network, message: Message, c: Endpoint) {
    && c in net.peer && c in net.rules
    && var sent := Forwarded(net.rules[c], message);
       sent.Some? && sent.value.Addresses(net.peer[c].ctype, net.peer[c].cinstance)
  }

  // Excluding the sender is what stops echo: without it one bridge that passes a message
  // both ways already makes routes of every length, even in a forest.
  lemma {:induction false} EchoWithoutExclusion(net: Network, sender: Endpoint, packet: Packet, c: Endpoint, n: nat)
    returns (w: seq<Endpoint>)
    requires net.Valid() && sender in net.busOf && c in net.Members(net.Near(sender))
    requires packet.Addresses(c.ctype, c.cinstance)
    requires Bounces(net, packet.message, c) && Bounces(net, packet.message, net.peer[c])
    ensures |w| == n && EchoCarry(net, sender, packet, w).Some?
    ensures var last := if n % 2 == 1 then c else net.peer[c];
            n > 0 ==>
              w[n - 1] == last && EchoCarry(net, sender, packet, w) == Forwarded(net.rules[last], packet.message)
  {
    if n == 0 {
      w := [];
    } else {
      var init := EchoWithoutExclusion(net, sender, packet, c, n - 1);
      var last := if n % 2 == 1 then c else net.peer[c];
      w := init + [last];
      assert w[..n - 1] == init;
    }
  }
}
