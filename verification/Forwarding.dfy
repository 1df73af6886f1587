// comms-lib: sending over bridged buses. Each bus delivers as its index does, a lookup that
// picks one of several connections included, and each bridge forwards by its rules.
module Forwarding {
  import opened Sequences
  import opened Wrappers
  import opened Buses
  import opened Bridges
  import BusHistory

  ghost predicate Usable(net: Network, sender: Endpoint) {
    net.Valid() && net.IsForest() && sender in net.busOf
  }

  // What the bus the packet is put on may do with it.
  ghost predicate MayDeliver(net: Network, from: Endpoint, p: Packet, delivered: seq<Endpoint>) {
    BusHistory.Possible(net.Members(net.Near(from)), from, p, delivered)
  }

  // A log the send may leave behind from where route w has got to.
  ghost predicate Outcome(net: Network, sender: Endpoint, packet: Packet, w: seq<Endpoint>, log: seq<Endpoint>)
    requires Usable(net, sender) && Carry(net, sender, packet, w).Some?
    decreases |net.Buses()| - |w|, 1, 0
  {
    RouteBounded(net, sender, packet, w);
    exists delivered ::
      && MayDeliver(net, SenderAfter(net, sender, w), Carry(net, sender, packet, w).value, delivered)
      && Serves(net, sender, packet, w, delivered, log)
  }

  // Each connection the bus hands the packet to is logged, then what its bridge passes on.
  ghost predicate Serves(net: Network, sender: Endpoint, packet: Packet, w: seq<Endpoint>, delivered: seq<Endpoint>,
                         log: seq<Endpoint>)
    requires Usable(net, sender) && Carry(net, sender, packet, w).Some?
    decreases |net.Buses()| - |w|, 0, 2 * |delivered|
  {
    if delivered == [] then log == []
    else
      var n := |delivered| - 1;
      exists before, more ::
        && Serves(net, sender, packet, w, delivered[..n], before)
        && Onward(net, sender, packet, w, delivered[n], more)
        && log == before + [delivered[n]] + more
  }

  ghost predicate Onward(net: Network, sender: Endpoint, packet: Packet, w: seq<Endpoint>, c: Endpoint,
                         more: seq<Endpoint>)
    requires Usable(net, sender) && Carry(net, sender, packet, w).Some?
    decreases |net.Buses()| - |w|, 0, 1
  {
    RouteBounded(net, sender, packet, w);
    if Carry(net, sender, packet, w + [c]).Some? then Outcome(net, sender, packet, w + [c], more) else more == []
  }

  // No packet for one instance of all types comes to a bus where two connections of a type
  // have that instance.
  ghost predicate Clear(net: Network, sender: Endpoint, packet: Packet) {
    forall w :: Carry(net, sender, packet, w).Some? ==> ClearAt(net, sender, packet, w)
  }

  ghost predicate ClearAt(net: Network, sender: Endpoint, packet: Packet, w: seq<Endpoint>)
    requires Carry(net, sender, packet, w).Some?
  {
    var p := Carry(net, sender, packet, w).value;
    InstanceOnly(p) ==>
      BusHistory.NoneShare(net.Members(net.Near(SenderAfter(net, sender, w))), p.recipientInstance)
  }

  // At most one copy for whom a route leads to, none for others, and no copy missing if exact.
  ghost predicate Counted(copies: nat, led: bool, exact: bool) {
    copies <= (if led then 1 else 0) && (exact ==> copies == if led then 1 else 0)
  }

  // Whoever gets the packet is on the bus and meant, and gets it once.
  lemma DeliversOnce(net: Network, from: Endpoint, p: Packet, delivered: seq<Endpoint>)
    requires MayDeliver(net, from, p, delivered)
    ensures Distinct(delivered)
    ensures forall c :: c in delivered ==> Hears(net, from, p, c)
  {
    var members := net.Members(net.Near(from));
    forall c
      ensures Copies(delivered, c) <= 1 && (Copies(delivered, c) == 1 ==> Hears(net, from, p, c))
    {
      if InstanceOnly(p) {
        BusHistory.PickedOnce(members, from, p.recipientInstance, delivered, c);
      }
    }
    forall i, j | 0 <= i < j < |delivered|
      ensures delivered[i] != delivered[j]
    {
      BusHistory.OnceMeansDistinct(delivered, i, j);
    }
  }

  lemma DeliversAll(net: Network, sender: Endpoint, packet: Packet, w: seq<Endpoint>, delivered: seq<Endpoint>)
    requires Carry(net, sender, packet, w).Some? && ClearAt(net, sender, packet, w)
    requires MayDeliver(net, SenderAfter(net, sender, w), Carry(net, sender, packet, w).value, delivered)
    ensures var from, p := SenderAfter(net, sender, w), Carry(net, sender, packet, w).value;
            ToSet(delivered) == net.Recipients(net.Near(from), from, p)
  {
    var from, p := SenderAfter(net, sender, w), Carry(net, sender, packet, w).value;
    if InstanceOnly(p) {
      BusHistory.PickIsExact(net.Members(net.Near(from)), from, p, delivered);
    }
    forall c
      ensures c in ToSet(delivered) <==> Copies(delivered, c) > 0
    {
    }
  }

  // Whatever the lookups return: at most one copy each, only where a route leads, and all
  // of them if no lookup had a choice.
  lemma {:induction false} OutcomeCounted(net: Network, sender: Endpoint, packet: Packet, w: seq<Endpoint>,
                                          log: seq<Endpoint>)
    requires Usable(net, sender) && Carry(net, sender, packet, w).Some?
    requires Outcome(net, sender, packet, w, log)
    ensures forall e :: Counted(Copies(log, e), ReachedVia(net, sender, packet, w, e), Clear(net, sender, packet))
    decreases |net.Buses()| - |w|, 1, 0
  {
    RouteBounded(net, sender, packet, w);
    var from, p := SenderAfter(net, sender, w), Carry(net, sender, packet, w).value;
    var delivered :| MayDeliver(net, from, p, delivered) && Serves(net, sender, packet, w, delivered, log);
    DeliversOnce(net, from, p, delivered);
    ServesCounted(net, sender, packet, w, delivered, log);
    if Clear(net, sender, packet) {
      DeliversAll(net, sender, packet, w, delivered);
    }
    forall e
      ensures Counted(Copies(log, e), ReachedVia(net, sender, packet, w, e), Clear(net, sender, packet))
    {
      RoutesSplit(net, sender, packet, w, e);
      assert CountedAt(net, sender, packet, w, delivered, log, e);
    }
  }

  ghost predicate CountedAt(net: Network, sender: Endpoint, packet: Packet, w: seq<Endpoint>, delivered: seq<Endpoint>,
                            log: seq<Endpoint>, e: Endpoint) {
    Counted(Copies(log, e), Covered(net, sender, packet, w, ToSet(delivered), e), Clear(net, sender, packet))
  }

  lemma {:induction false} ServesCounted(net: Network, sender: Endpoint, packet: Packet, w: seq<Endpoint>,
                                         delivered: seq<Endpoint>, log: seq<Endpoint>)
    requires Usable(net, sender) && Carry(net, sender, packet, w).Some?
    requires Distinct(delivered) && forall c :: c in delivered ==> Reached(net, sender, packet, w, c)
    requires Serves(net, sender, packet, w, delivered, log)
    ensures forall e :: CountedAt(net, sender, packet, w, delivered, log, e)
    decreases |net.Buses()| - |w|, 0, 2 * |delivered|
  {
    if delivered != [] {
      var n := |delivered| - 1;
      var c := delivered[n];
      var before, more :| Serves(net, sender, packet, w, delivered[..n], before)
        && Onward(net, sender, packet, w, c, more) && log == before + [c] + more;
      ServesCounted(net, sender, packet, w, delivered[..n], before);
      OnwardCounted(net, sender, packet, w, c, more);
      assert c in delivered && c !in delivered[..n];
      CountedNext(net, sender, packet, w, delivered[..n], c, before, more);
      assert delivered[..n] + [c] == delivered;
    }
  }

  lemma CountedNext(net: Network, sender: Endpoint, packet: Packet, w: seq<Endpoint>, delivered: seq<Endpoint>,
                    c: Endpoint, before: seq<Endpoint>, more: seq<Endpoint>)
    requires Usable(net, sender) && c !in delivered && Reached(net, sender, packet, w, c)
    requires forall d :: d in delivered ==> Reached(net, sender, packet, w, d)
    requires forall e :: CountedAt(net, sender, packet, w, delivered, before, e)
    requires forall e ::
               Counted(Copies(more, e), ReachedVia(net, sender, packet, w + [c], e), Clear(net, sender, packet))
    ensures forall e :: CountedAt(net, sender, packet, w, delivered + [c], before + [c] + more, e)
  {
    var log, done := before + [c] + more, ToSet(delivered);
    assert ToSet(delivered + [c]) == done + {c};
    forall e
      ensures CountedAt(net, sender, packet, w, delivered + [c], log, e)
    {
      assert CountedAt(net, sender, packet, w, delivered, before, e);
      AddsNew(net, sender, packet, w, done, c, e);
      assert Copies(log, e) == Copies(before, e) + (if e == c then 1 else 0) + Copies(more, e);
      CoveredGrows(net, sender, packet, w, done, c, e);
    }
  }

  lemma {:induction false} OnwardCounted(net: Network, sender: Endpoint, packet: Packet, w: seq<Endpoint>, c: Endpoint,
                                         more: seq<Endpoint>)
    requires Usable(net, sender) && Carry(net, sender, packet, w).Some? && Onward(net, sender, packet, w, c, more)
    ensures forall e ::
              Counted(Copies(more, e), ReachedVia(net, sender, packet, w + [c], e), Clear(net, sender, packet))
    decreases |net.Buses()| - |w|, 0, 1
  {
    RouteBounded(net, sender, packet, w);
    if Carry(net, sender, packet, w + [c]).Some? {
      OutcomeCounted(net, sender, packet, w + [c], more);
    } else {
      NothingBeyond(net, sender, packet, w, c);
    }
  }

  // On the bus that route v leads to, the lookup may return hit and so miss another one.
  ghost predicate CanMiss(net: Network, sender: Endpoint, packet: Packet, v: seq<Endpoint>, hit: Endpoint,
                          missed: Endpoint) {
    && Carry(net, sender, packet, v).Some?
    && InstanceOnly(Carry(net, sender, packet, v).value)
    && hit.ctype == missed.ctype && hit != missed
    && hit.cinstance == Carry(net, sender, packet, v).value.recipientInstance
    && hit in net.Members(net.Near(SenderAfter(net, sender, v))) && Reached(net, sender, packet, v, missed)
  }

  // Every bus can deliver without this endpoint.
  lemma DeliverWithout(net: Network, sender: Endpoint, packet: Packet, v: seq<Endpoint>, hit: Endpoint,
                       missed: Endpoint, w: seq<Endpoint>)
    returns (delivered: seq<Endpoint>)
    requires Usable(net, sender) && CanMiss(net, sender, packet, v, hit, missed)
    requires Carry(net, sender, packet, w).Some?
    ensures MayDeliver(net, SenderAfter(net, sender, w), Carry(net, sender, packet, w).value, delivered)
    ensures missed !in delivered
  {
    var from, p := SenderAfter(net, sender, w), Carry(net, sender, packet, w).value;
    var members := net.Members(net.Near(from));
    if w == v {
      var found;
      found, delivered := BusHistory.PickIncluding(members, from, p.recipientInstance, hit);
      BusHistory.NotPicked(members, p.recipientInstance, found, missed, hit);
      assert Copies(delivered, missed) == 0;
    } else {
      delivered := BusHistory.SomeDelivery(members, from, p);
      DeliversOnce(net, from, p, delivered);
      if missed in delivered {
        OneRoute(net, sender, packet, v, w, missed);
      }
    }
  }

  // A whole send that misses it.
  lemma {:induction false} OutcomeWithout(net: Network, sender: Endpoint, packet: Packet, v: seq<Endpoint>,
                                          hit: Endpoint, missed: Endpoint, w: seq<Endpoint>)
    returns (log: seq<Endpoint>)
    requires Usable(net, sender) && CanMiss(net, sender, packet, v, hit, missed)
    requires Carry(net, sender, packet, w).Some?
    ensures Outcome(net, sender, packet, w, log) && missed !in log
    decreases |net.Buses()| - |w|, 1, 0
  {
    RouteBounded(net, sender, packet, w);
    var delivered := DeliverWithout(net, sender, packet, v, hit, missed, w);
    log := ServesWithout(net, sender, packet, v, hit, missed, w, delivered);
  }

  lemma {:induction false} ServesWithout(net: Network, sender: Endpoint, packet: Packet, v: seq<Endpoint>,
                                         hit: Endpoint, missed: Endpoint, w: seq<Endpoint>, delivered: seq<Endpoint>)
    returns (log: seq<Endpoint>)
    requires Usable(net, sender) && CanMiss(net, sender, packet, v, hit, missed)
    requires Carry(net, sender, packet, w).Some? && missed !in delivered
    ensures Serves(net, sender, packet, w, delivered, log) && missed !in log
    decreases |net.Buses()| - |w|, 0, 2 * |delivered|
  {
    if delivered == [] {
      log := [];
    } else {
      var n := |delivered| - 1;
      var before := ServesWithout(net, sender, packet, v, hit, missed, w, delivered[..n]);
      var more: seq<Endpoint> := [];
      RouteBounded(net, sender, packet, w);
      if Carry(net, sender, packet, w + [delivered[n]]).Some? {
        more := OutcomeWithout(net, sender, packet, v, hit, missed, w + [delivered[n]]);
      }
      assert Onward(net, sender, packet, w, delivered[n], more);
      log := before + [delivered[n]] + more;
    }
  }

  // All connections that routes lead to, and no others, each once.
  ghost predicate IsExact(net: Network, sender: Endpoint, packet: Packet, log: seq<Endpoint>) {
    forall e :: Copies(log, e) == if ReachedVia(net, sender, packet, [], e) then 1 else 0
  }

  // Sends are exact, whatever the lookups return, if and only if no lookup on the way has a choice.
  lemma ExactIffClear(net: Network, sender: Endpoint, packet: Packet)
    requires Usable(net, sender)
    ensures Clear(net, sender, packet)
            <==> forall log :: Outcome(net, sender, packet, [], log) ==> IsExact(net, sender, packet, log)
  {
    if Clear(net, sender, packet) {
      forall log | Outcome(net, sender, packet, [], log)
        ensures IsExact(net, sender, packet, log)
      {
        OutcomeCounted(net, sender, packet, [], log);
      }
    } else {
      var v, hit, missed := SomeoneMissed(net, sender, packet);
      var log := OutcomeWithout(net, sender, packet, v, hit, missed, []);
      assert [] + v == v && Reached(net, sender, packet, [] + v, missed);
      assert Copies(log, missed) == 0 && !IsExact(net, sender, packet, log);
    }
  }

  lemma SomeoneMissed(net: Network, sender: Endpoint, packet: Packet)
    returns (v: seq<Endpoint>, hit: Endpoint, missed: Endpoint)
    requires !Clear(net, sender, packet)
    ensures CanMiss(net, sender, packet, v, hit, missed)
  {
    v :| Carry(net, sender, packet, v).Some? && !ClearAt(net, sender, packet, v);
    var from, key := SenderAfter(net, sender, v), Carry(net, sender, packet, v).value.recipientInstance;
    var members := net.Members(net.Near(from));
    var c, d :| c in members && d in members && c.ctype == d.ctype && c.cinstance == key && d.cinstance == key
      && c != d;
    // The one that is not the sender can be missed.
    hit, missed := if d == from then d else c, if d == from then c else d;
  }

  // In particular when no two connections of a bus share an address.
  lemma UniqueIsClear(net: Network, sender: Endpoint, packet: Packet)
    requires forall b :: BusHistory.UniqueAddresses(net.Members(b))
    ensures Clear(net, sender, packet)
  {
    forall w | Carry(net, sender, packet, w).Some?
      ensures ClearAt(net, sender, packet, w)
    {
      assert BusHistory.UniqueAddresses(net.Members(net.Near(SenderAfter(net, sender, w))));
    }
  }

  // A send that is not exact: two connections of one bus with the same address.
  lemma TwinsAreNotClear()
    ensures var s, a, b := Endpoint(0, 0, 0), Endpoint(1, 1, 5), Endpoint(2, 1, 5);
            var net := Network(map[s := BusId(0), a := BusId(0), b := BusId(0)], map[], map[]);
            var packet := Packet(Message("m", ""), BROADCAST, 5);
            && Usable(net, s) && !Clear(net, s, packet)
            && Reached(net, s, packet, [], a) && Reached(net, s, packet, [], b)
  {
    var s, a, b := Endpoint(0, 0, 0), Endpoint(1, 1, 5), Endpoint(2, 1, 5);
    var net := Network(map[s := BusId(0), a := BusId(0), b := BusId(0)], map[], map[]);
    var packet := Packet(Message("m", ""), BROADCAST, 5);
    assert a in net.Members(BusId(0)) && b in net.Members(BusId(0));
    assert Carry(net, s, packet, []) == Some(packet) && !ClearAt(net, s, packet, []);
  }

  lemma ServesNext(net: Network, sender: Endpoint, packet: Packet, w: seq<Endpoint>, delivered: seq<Endpoint>,
                   before: seq<Endpoint>, c: Endpoint, more: seq<Endpoint>)
    requires Usable(net, sender) && Carry(net, sender, packet, w).Some?
    requires Serves(net, sender, packet, w, delivered, before) && Onward(net, sender, packet, w, c, more)
    ensures Serves(net, sender, packet, w, delivered + [c], before + [c] + more)
  {
    assert (delivered + [c])[..|delivered|] == delivered;
  }

  // The buses and forwarders of the network are the real ones.
  ghost predicate Wired(net: Network, buses: map<BusId, Bus>, forwarders: map<Endpoint, MessageForwarder>)
    reads buses.Values, forwarders.Values
  {
    && net.Buses() <= buses.Keys && forwarders.Keys == net.rules.Keys
    && (forall b :: b in buses ==> BusHistory.Indexes(buses[b], net.Members(b)))
    && forall c :: c in forwarders ==> forwarders[c].routing == net.rules[c]
  }

  // Puts a packet that arrived by route w on the next bus. Delivery is depth first: a bridge
  // forwards before the next connection of the same bus is served. It ends for every rule table.
  method Send(net: Network, buses: map<BusId, Bus>, forwarders: map<Endpoint, MessageForwarder>, from: Endpoint,
              p: Packet, ghost sender: Endpoint, ghost packet: Packet, ghost w: seq<Endpoint>)
    returns (log: seq<Endpoint>)
    requires Usable(net, sender) && Wired(net, buses, forwarders)
    requires Carry(net, sender, packet, w) == Some(p) && from == SenderAfter(net, sender, w)
    ensures Outcome(net, sender, packet, w, log)
    decreases |net.Buses()| - |w|, 1
  {
    RouteBounded(net, sender, packet, w);
    assert from in net.busOf && net.Near(from) in net.Buses();
    var delivered := BusHistory.RouteAmong(buses[net.Near(from)], net.Members(net.Near(from)), from, p);
    DeliversOnce(net, from, p, delivered);
    log := [];
    for i := 0 to |delivered|
      invariant Serves(net, sender, packet, w, delivered[..i], log)
    {
      assert delivered[i] in delivered && delivered[..i + 1] == delivered[..i] + [delivered[i]];
      var more := PassOn(net, buses, forwarders, delivered[i], p, sender, packet, w);
      ServesNext(net, sender, packet, w, delivered[..i], log, delivered[i], more);
      log := log + [delivered[i]] + more;
    }
    assert delivered[..|delivered|] == delivered;
  }

  // A connection was handed the packet: if it is a bridge's, its rule for the message decides.
  method PassOn(net: Network, buses: map<BusId, Bus>, forwarders: map<Endpoint, MessageForwarder>, c: Endpoint,
                p: Packet, ghost sender: Endpoint, ghost packet: Packet, ghost w: seq<Endpoint>)
    returns (more: seq<Endpoint>)
    requires Usable(net, sender) && Wired(net, buses, forwarders)
    requires Carry(net, sender, packet, w) == Some(p) && Reached(net, sender, packet, w, c)
    ensures Onward(net, sender, packet, w, c, more)
    decreases |net.Buses()| - |w|, 0
  {
    RouteBounded(net, sender, packet, w);
    CarryOver(net, sender, packet, w, c);
    if c !in forwarders {
      return [];
    }
    var sent := forwarders[c].MessageReceived(p);
    if sent.None? {
      return [];
    }
    RouteBounded(net, sender, packet, w + [c]);
    more := Send(net, buses, forwarders, net.peer[c], sent.value, sender, packet, w + [c]);
  }

  lemma LedTo(net: Network, sender: Endpoint, packet: Packet, e: Endpoint)
    requires Usable(net, sender)
    ensures ReachedVia(net, sender, packet, [], e) <==> exists route :: Reached(net, sender, packet, route, e)
    ensures ReachedVia(net, sender, packet, [], e) <==> exists route ::
                PassesAll(net, packet, route) && HopsHeard(net, sender, packet, route, e)
  {
    if route :| Reached(net, sender, packet, route, e) {
      assert [] + route == route;
    }
    forall route
      ensures Reached(net, sender, packet, route, e)
              <==> PassesAll(net, packet, route) && HopsHeard(net, sender, packet, route, e)
    {
      ReachedIff(net, sender, packet, route, e);
    }
  }

  // One send from any connection: nobody gets the packet twice, the sender not at all, and
  // nobody gets it without a route; everyone a route leads to gets it if no lookup has a choice.
  method SendMessage(net: Network, buses: map<BusId, Bus>, forwarders: map<Endpoint, MessageForwarder>,
                     sender: Endpoint, packet: Packet)
    returns (log: seq<Endpoint>)
    requires Usable(net, sender) && Wired(net, buses, forwarders)
    ensures Outcome(net, sender, packet, [], log)
    ensures forall e :: Copies(log, e) <= 1
    ensures forall e :: Copies(log, e) == 1 ==> exists route :: Reached(net, sender, packet, route, e)
    ensures forall e :: Copies(log, e) == 1 ==> exists route ::
                PassesAll(net, packet, route) && HopsHeard(net, sender, packet, route, e)
    ensures Copies(log, sender) == 0
    ensures Clear(net, sender, packet) ==>
              forall e :: Copies(log, e) == 1 <==> exists route :: Reached(net, sender, packet, route, e)
    ensures Clear(net, sender, packet) ==> forall e :: Copies(log, e) == 1 <==> exists route ::
                PassesAll(net, packet, route) && HopsHeard(net, sender, packet, route, e)
  {
    log := Send(net, buses, forwarders, sender, packet, sender, packet, []);
    OutcomeCounted(net, sender, packet, [], log);
    forall e { LedTo(net, sender, packet, e); }
    forall route | Reached(net, sender, packet, route, sender)
      ensures false
    {
      NeverBack(net, sender, packet, route);
    }
  }
}
