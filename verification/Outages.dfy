/** Neighbours that fall silent and come back, in any run: who is told what, what a receipt does to any table, and
    where every packet went. */
module Outages {
  import opened Bytes
  import opened Tables
  import opened Timeouts
  import opened Advertising
  import opened Codec
  import opened Graphs
  import opened Network
  import opened Grounding
  import opened Revival
  import opened Convergence
  import N = Nodes

  // ---- what can happen ----

  /** In every state of every run each node can do exactly what its state allows. */
  lemma NodesCanAct(sys: System, nets: seq<Network.Net>, evs: seq<Event>, k: nat, v: byte, d: byte)
    requires ValidSystem(sys) && Run(sys, nets, evs) && k <= |evs| && v in sys.g.nodes
    ensures v in nets[k].nodes
    ensures Enabled(nets[k], Network.Event.Hello(v)) <==> nets[k].nodes[v].state == N.Hello
    ensures Enabled(nets[k], Advertise(v)) <==> nets[k].nodes[v].state == N.Update
    ensures Enabled(nets[k], Network.Event.Tick(v)) <==> nets[k].nodes[v].state == N.Wait
    ensures Enabled(nets[k], Request(v, d)) <==> nets[k].nodes[v].state == N.Wait
  {
    RunKeepsNet(sys, nets, evs, k);
  }

  /** Each packet in flight can be lost or duplicated at any time, and received whenever its receiver waits. */
  lemma PacketsCanMove(sys: System, nets: seq<Network.Net>, evs: seq<Event>, k: nat, p: Packet)
    requires ValidSystem(sys) && Run(sys, nets, evs) && k <= |evs| && p in nets[k].flight
    ensures Enabled(nets[k], Lose(p)) && Enabled(nets[k], Duplicate(p)) && p.to in nets[k].nodes
    ensures Enabled(nets[k], Deliver(p)) <==> nets[k].nodes[p.to].state == N.Wait
  {
    RunKeepsNet(sys, nets, evs, k);
    assert PacketOK(sys.g, p);
  }

  /** Step k of a run. */
  lemma RunStep(sys: System, nets: seq<Network.Net>, evs: seq<Event>, k: nat)
    requires ValidSystem(sys) && Run(sys, nets, evs) && k < |evs|
    ensures NetOK(sys, nets[k]) && Enabled(nets[k], evs[k]) && nets[k+1] == After(sys, nets[k], evs[k])
  {
    RunKeepsNet(sys, nets, evs, k);
  }

  // ---- what is sent ----

  /** One packet to each neighbour that t holds at one hop and to nobody else, each with all that t has to tell. */
  ghost predicate TellsAll(sys: System, v: byte, t: Table, ps: seq<Packet>) {
    && (forall i, j :: 0 <= i < j < |ps| ==> ps[i].to != ps[j].to)
    && (forall n :: SentTo(ps, n) <==> HoldsLink(t, n))
    && (forall i :: 0 <= i < |ps| ==> IsUpdateOf(ps[i].payload, v, Advertised(sys.signed, t)))
  }

  lemma UpdatesTellAll(sys: System, v: byte, t: Table)
    requires ValidSystem(sys) && v in sys.g.nodes && TableOK(sys.g, v, t)
    ensures TellsAll(sys, v, t, UpdatesOf(sys, v, t))
  {
    SentToTargets(sys, v, t);
    UpdatesReachLinks(sys, v, t);
    TargetsOfTable(sys.g, v, t);
  }

  ghost predicate OthersStay(net: Network.Net, net': Network.Net, v: byte) {
    && net'.nodes.Keys == net.nodes.Keys
    && forall u :: u in net.nodes && u != v ==> net'.nodes[u] == net.nodes[u]
  }

  /** A neighbour of n, held at one hop, was not heard since the last HELLO of n itself. */
  ghost predicate Silent(n: N.Node) {
    exists i :: 0 <= i < |n.table| && n.table[i].hops == 1 && n.table[i].helloCount != n.helloCount
  }

  lemma SilentIsStale(n: N.Node)
    ensures Silent(n) <==> AnyStale(n.table, n.helloCount)
  {
    if i :| 0 <= i < |n.table| && n.table[i].hops == 1 && n.table[i].helloCount != n.helloCount {
      assert Stale(n.table[i], n.helloCount);
    }
  }

  /** What the expiry of v's timer does: if a neighbour was silent, v withdraws every route through it and at once
      tells every neighbour it still holds, with the new table; if none was, nothing is sent and no route changes. */
  ghost predicate TickEffect(sys: System, net: Network.Net, net': Network.Net, v: byte, ps: seq<Packet>)
    requires v in net.nodes && v in net'.nodes
  {
    var n, n' := net.nodes[v], net'.nodes[v];
    && OthersStay(net, net', v) && net'.flight == net.flight + multiset(ps)
    && n' == n.(table := Expired(n.table, n.helloCount), state := N.Hello)
    && if Silent(n) then TellsAll(sys, v, n'.table, ps) else ps == [] && n'.table == n.table
  }

  lemma TickTakesEffect(sys: System, net: Network.Net, v: byte) returns (ps: seq<Packet>)
    requires ValidSystem(sys) && NetOK(sys, net) && Enabled(net, Network.Event.Tick(v))
    ensures var net' := After(sys, net, Network.Event.Tick(v));
            v in net'.nodes && TickEffect(sys, net, net', v, ps)
  {
    var n := net.nodes[v];
    var t' := Expired(n.table, n.helloCount);
    SilentIsStale(n);
    ExpiryKeepsTable(sys.g, v, n.table, n.helloCount);
    UpdatesTellAll(sys, v, t');
    ps := if Silent(n) then UpdatesOf(sys, v, t') else [];
  }

  /** So it is at every tick of every run. */
  lemma TickTells(sys: System, nets: seq<Network.Net>, evs: seq<Event>, k: nat, v: byte) returns (ps: seq<Packet>)
    requires ValidSystem(sys) && Run(sys, nets, evs) && k < |evs| && evs[k] == Network.Event.Tick(v)
    ensures v in nets[k].nodes && v in nets[k+1].nodes && TickEffect(sys, nets[k], nets[k+1], v, ps)
  {
    RunStep(sys, nets, evs, k);
    ps := TickTakesEffect(sys, nets[k], v);
  }

  /** In particular bad news travels: each destination that v lists without a finite route after such a tick is on
      its way, at INFINITY, to every neighbour v still holds. */
  lemma BadNewsTravels(sys: System, nets: seq<Network.Net>, evs: seq<Event>, k: nat, v: byte, d: byte, n: byte)
    requires ValidSystem(sys) && Run(sys, nets, evs) && k < |evs| && evs[k] == Network.Event.Tick(v)
    requires v in nets[k].nodes && Silent(nets[k].nodes[v]) && v in nets[k+1].nodes
    requires Lookup(nets[k+1].nodes[v].table, d).None? && HoldsLink(nets[k+1].nodes[v].table, n)
    requires FirstListed(nets[k+1].nodes[v].table, d) < |nets[k+1].nodes[v].table|
    ensures exists p, tr :: p in nets[k+1].flight && p.to == n && Readable(p.payload) && IsUpdatePayload(p.payload) &&
                            p.payload[3] == v && tr in Decode(p.payload) && tr.dest == d && tr.hops == INFINITY
  {
    var ps := TickTells(sys, nets, evs, k, v);
    RunKeepsNet(sys, nets, evs, k + 1);
    var p := NewsIsTold(sys, v, nets[k+1].nodes[v].table, ps, d, n);
    assert p in nets[k+1].flight;
  }

  lemma NewsIsTold(sys: System, v: byte, t: Table, ps: seq<Packet>, d: byte, n: byte) returns (p: Packet)
    requires ValidSystem(sys) && v in sys.g.nodes && TableOK(sys.g, v, t) && TellsAll(sys, v, t, ps)
    requires Lookup(t, d).None? && HoldsLink(t, n) && FirstListed(t, d) < |t|
    ensures p in ps && p.to == n && Readable(p.payload) && IsUpdatePayload(p.payload) && p.payload[3] == v
    ensures exists tr :: tr in Decode(p.payload) && tr.dest == d && tr.hops == INFINITY
  {
    var i :| 0 <= i < |ps| && ps[i].to == n;
    p := ps[i];
    AdvertisedIsSmall(sys.g, v, sys.signed, t);
    UnreachableIsAdvertised(sys.signed, t, d);
    var trs := Advertised(sys.signed, t);
    assert trs[IndexOf(trs, d)] in Decode(p.payload);
  }

  /** In STATE_UPDATE a node tells each neighbour it holds its table, and waits. */
  ghost predicate AdvertiseEffect(sys: System, net: Network.Net, net': Network.Net, v: byte, ps: seq<Packet>)
    requires v in net.nodes && v in net'.nodes
  {
    && OthersStay(net, net', v) && net'.flight == net.flight + multiset(ps)
    && net'.nodes[v] == net.nodes[v].(state := N.Wait) && TellsAll(sys, v, net.nodes[v].table, ps)
  }

  lemma AdvertiseTakesEffect(sys: System, net: Network.Net, v: byte) returns (ps: seq<Packet>)
    requires ValidSystem(sys) && NetOK(sys, net) && Enabled(net, Advertise(v))
    ensures var net' := After(sys, net, Advertise(v)); v in net'.nodes && AdvertiseEffect(sys, net, net', v, ps)
  {
    ps := UpdatesOf(sys, v, net.nodes[v].table);
    UpdatesTellAll(sys, v, net.nodes[v].table);
  }

  lemma AdvertiseTells(sys: System, nets: seq<Network.Net>, evs: seq<Event>, k: nat, v: byte) returns (ps: seq<Packet>)
    requires ValidSystem(sys) && Run(sys, nets, evs) && k < |evs| && evs[k] == Advertise(v)
    ensures v in nets[k].nodes && v in nets[k+1].nodes && AdvertiseEffect(sys, nets[k], nets[k+1], v, ps)
  {
    RunStep(sys, nets, evs, k);
    ps := AdvertiseTakesEffect(sys, nets[k], v);
  }

  /** In STATE_HELLO a node greets each neighbour of the graph, once, counts, and waits. */
  ghost predicate HelloEffect(sys: System, net: Network.Net, net': Network.Net, v: byte)
    requires v in net.nodes && v in net'.nodes
  {
    var n := net.nodes[v];
    && OthersStay(net, net', v)
    && net'.nodes[v] == n.(helloCount := (n.helloCount + 1) % 256, state := N.Wait)
    && forall p :: net'.flight[p] ==
                   net.flight[p] + if Adjacent(sys.g, v, p.to) && p.payload == N.HelloPayload(v) then 1 else 0
  }

  lemma HelloTakesEffect(sys: System, net: Network.Net, v: byte)
    requires ValidSystem(sys) && NetOK(sys, net) && Enabled(net, Network.Event.Hello(v))
    ensures var net' := After(sys, net, Network.Event.Hello(v)); v in net'.nodes && HelloEffect(sys, net, net', v)
  {
    forall p ensures p in HellosOf(sys.g, v) <==> Adjacent(sys.g, v, p.to) && p.payload == N.HelloPayload(v) {
      assert Adjacent(sys.g, v, p.to) && p.payload == N.HelloPayload(v) ==> p == Packet(p.to, N.HelloPayload(v));
    }
  }

  lemma HelloGreets(sys: System, nets: seq<Network.Net>, evs: seq<Event>, k: nat, v: byte)
    requires ValidSystem(sys) && Run(sys, nets, evs) && k < |evs| && evs[k] == Network.Event.Hello(v)
    ensures v in nets[k].nodes && v in nets[k+1].nodes && HelloEffect(sys, nets[k], nets[k+1], v)
  {
    RunStep(sys, nets, evs, k);
    HelloTakesEffect(sys, nets[k], v);
  }

  // ---- what is received ----

  /** What an update does, from whatever table to whatever table: each route that does not lead back is stored one hop
      longer, revived if it was unreachable, and withdrawn if it came at INFINITY; lookup answers the shorter of what
      it had and what it was told; the receiver has an update to send if and only if its table grew. */
  ghost predicate UpdateEffect(n: N.Node, n': N.Node, s: byte, trs: seq<Triple>) {
    && n'.self == n.self && n'.helloCount == n.helloCount && |n.table| <= |n'.table|
    && (forall j :: 0 <= j < |trs| && trs[j].nextHop != n.self ==> Absorbed(n.table, n'.table, s, trs[j]))
    && (forall j :: 0 <= j < |trs| && trs[j].hops < 254 ==>
          LookupHops(n'.table, trs[j].dest) ==
          if trs[j].nextHop == n.self then LookupHops(n.table, trs[j].dest)
          else Min(trs[j].hops + 1, LookupHops(n.table, trs[j].dest)))
    && n'.state == (if |n'.table| > |n.table| then N.Update else n.state)
  }

  lemma UpdateTakesEffect(g: Graph, cap: Capacity, signed: bool, n: N.Node, p: Packet)
    requires PacketOK(g, p) && IsUpdatePayload(p.payload) && n.self < 128
    requires RoomFor(cap, |n.table| + |Decode(p.payload)|)
    ensures UpdateEffect(n, N.Received(cap, signed, n, p.payload), p.payload[3], Decode(p.payload))
  {
    var s, trs, hc := p.payload[3], Decode(p.payload), n.helloCount;
    var t' := Merged(cap, signed, n.table, n.self, s, trs, hc);
    forall j | 0 <= j < |trs| && trs[j].nextHop != n.self ensures Absorbed(n.table, t', s, trs[j]) {
      MergeStores(cap, signed, n.table, n.self, s, trs, hc, j);
    }
    forall j | 0 <= j < |trs| && trs[j].hops < 254
      ensures LookupHops(t', trs[j].dest) ==
              if trs[j].nextHop == n.self then LookupHops(n.table, trs[j].dest)
              else Min(trs[j].hops + 1, LookupHops(n.table, trs[j].dest))
    {
      MergeLookups(cap, signed, n.table, n.self, s, trs, hc, j);
    }
    LearnsIffGrows(cap, signed, n.table, n.self, s, trs, hc);
    MergeLeaves(cap, signed, n.table, n.self, s, trs, hc);
  }

  lemma DeliveryStays(sys: System, net: Network.Net, p: Packet)
    requires NetOK(sys, net) && Enabled(net, Deliver(p))
    ensures var net' := After(sys, net, Deliver(p));
            && OthersStay(net, net', p.to) && net'.flight + multiset{p} == net.flight && PacketOK(sys.g, p)
            && net.nodes[p.to].self == p.to && TableOK(sys.g, p.to, net.nodes[p.to].table)
  {}

  /** So it is with every update delivered in a run. */
  lemma UpdateIsAbsorbed(sys: System, nets: seq<Network.Net>, evs: seq<Event>, k: nat, p: Packet)
    requires ValidSystem(sys) && Run(sys, nets, evs) && k < |evs| && evs[k] == Deliver(p)
    requires Readable(p.payload) && IsUpdatePayload(p.payload) && p.to in nets[k].nodes
    requires RoomFor(sys.cap, |nets[k].nodes[p.to].table| + |Decode(p.payload)|)
    ensures p.to in nets[k+1].nodes && OthersStay(nets[k], nets[k+1], p.to)
    ensures nets[k+1].flight + multiset{p} == nets[k].flight
    ensures UpdateEffect(nets[k].nodes[p.to], nets[k+1].nodes[p.to], p.payload[3], Decode(p.payload))
  {
    RunStep(sys, nets, evs, k);
    DeliveryStays(sys, nets[k], p);
    UpdateTakesEffect(sys.g, sys.cap, sys.signed, nets[k].nodes[p.to], p);
  }

  /** What a HELLO of s makes of a table: the link to s is at one hop and current, whether it was held, unreachable or
      new; nothing else changes. Only a new link is news to tell, not one that comes back. */
  ghost predicate Greeted(cap: Capacity, n: N.Node, n': N.Node, s: byte) {
    && n'.self == n.self && n'.helloCount == n.helloCount
    && (forall i :: 0 <= i < |n.table| && n.table[i].dest == n.table[i].nextHop == s ==>
          n'.table == n.table[i := Entry(s, s, 1, n.helloCount)] && n'.state == n.state)
    && ((forall i :: 0 <= i < |n.table| ==> !(n.table[i].dest == n.table[i].nextHop == s)) ==>
          n'.state == N.Update &&
          n'.table == if RoomFor(cap, |n.table| + 1) then n.table + [Entry(s, s, 1, n.helloCount)] else n.table)
  }

  lemma HelloReceived(g: Graph, cap: Capacity, signed: bool, n: N.Node, s: byte)
    requires ValidGraph(g) && TableOK(g, n.self, n.table) && s != n.self && RoomFor(cap, |n.table|)
    ensures Greeted(cap, n, N.Received(cap, signed, n, N.HelloPayload(s)), s)
  {
    var t, hc := n.table, n.helloCount;
    N.HelloFrameBecomesPayload(s);
    var u := Updated(cap, t, s, s, 1, hc);
    RefreshedFirstOnly(u, s, hc);
    forall j | 1 <= j < |t| ensures RouteOK(g, n.self, t[j]) {}
    if i :| 0 <= i < |t| && t[i].dest == t[i].nextHop == s {
      HeldLinkGreeted(g, cap, n.self, t, s, hc, i);
    } else {
      NewLinkGreeted(g, cap, n.self, t, s, hc);
    }
  }

  lemma HeldLinkGreeted(g: Graph, cap: Capacity, v: byte, t: Table, s: byte, hc: byte, i: nat)
    requires TableOK(g, v, t) && s != v && i < |t| && t[i].dest == t[i].nextHop == s
    ensures forall j :: 0 <= j < |t| && t[j].dest == t[j].nextHop == s ==> j == i
    ensures Known(t, s, s, 1)
    ensures Refreshed(Updated(cap, t, s, s, 1, hc), s, hc) == t[i := Entry(s, s, 1, hc)]
  {
    forall j | 1 <= j < |t| ensures RouteOK(g, v, t[j]) {}
    assert Matches(t[i], s, s);
    var u := Updated(cap, t, s, s, 1, hc);
    assert u == Touched(t, s, s, 1) == t[i := t[i].(hops := 1)];
    RefreshedFirstOnly(u, s, hc);
    assert IsFirstLink(u, s, i);
  }

  lemma NewLinkGreeted(g: Graph, cap: Capacity, v: byte, t: Table, s: byte, hc: byte)
    requires TableOK(g, v, t) && s != v && RoomFor(cap, |t|)
    requires forall j :: 0 <= j < |t| ==> !(t[j].dest == t[j].nextHop == s)
    ensures !Known(t, s, s, 1)
    ensures Refreshed(Updated(cap, t, s, s, 1, hc), s, hc) ==
            if RoomFor(cap, |t| + 1) then t + [Entry(s, s, 1, hc)] else t
  {
    forall j | 1 <= j < |t| ensures RouteOK(g, v, t[j]) {}
    var u := Updated(cap, t, s, s, 1, hc);
    assert Touched(t, s, s, 1) == t;
    RefreshedFirstOnly(u, s, hc);
  }

  /** Tables never outgrow the queue they are kept in. */
  lemma {:induction false} TablesFit(sys: System, nets: seq<Network.Net>, evs: seq<Event>, k: nat, v: byte)
    requires ValidSystem(sys) && Run(sys, nets, evs) && k <= |evs| && v in sys.g.nodes
    ensures v in nets[k].nodes && RoomFor(sys.cap, |nets[k].nodes[v].table|)
  {
    if k == 0 {
      assert Touched([], v, v, 0) == [];
      assert nets[0].nodes[v] == N.Start(sys.cap, v);
    } else {
      TablesFit(sys, nets, evs, k - 1, v);
      RunKeepsNet(sys, nets, evs, k - 1);
      assert Enabled(nets[k-1], evs[k-1]) && nets[k] == After(sys, nets[k-1], evs[k-1]);
      StepFits(sys, nets[k-1], evs[k-1], v);
    }
  }

  lemma StepFits(sys: System, net: Network.Net, ev: Event, v: byte)
    requires Enabled(net, ev) && v in net.nodes && RoomFor(sys.cap, |net.nodes[v].table|)
    ensures v in After(sys, net, ev).nodes && RoomFor(sys.cap, |After(sys, net, ev).nodes[v].table|)
  {
    match ev
    case Request(u, d) => RequestKeepsNet(sys, net, u, d);
    case Deliver(p) =>
      if p.to == v {
        ReceivedFits(sys.cap, sys.signed, net.nodes[v], p.payload);
      }
    case _ =>
  }

  lemma HelloIsHeard(sys: System, nets: seq<Network.Net>, evs: seq<Event>, k: nat, p: Packet, s: byte)
    requires ValidSystem(sys) && Run(sys, nets, evs) && k < |evs| && evs[k] == Deliver(p)
    requires p.payload == N.HelloPayload(s)
    ensures p.to in nets[k].nodes && p.to in nets[k+1].nodes && OthersStay(nets[k], nets[k+1], p.to)
    ensures nets[k+1].flight + multiset{p} == nets[k].flight
    ensures Greeted(sys.cap, nets[k].nodes[p.to], nets[k+1].nodes[p.to], s)
  {
    RunStep(sys, nets, evs, k);
    DeliveryStays(sys, nets[k], p);
    TablesFit(sys, nets, evs, k, p.to);
    HelloReceived(sys.g, sys.cap, sys.signed, nets[k].nodes[p.to], s);
  }

  // ---- bookkeeping over whole runs ----

  function Hellos(evs: seq<Event>, v: byte): nat {
    if evs == [] then 0 else Hellos(evs[..|evs|-1], v) + if evs[|evs|-1] == Network.Event.Hello(v) then 1 else 0
  }

  ghost predicate Counted(net: Network.Net, evs: seq<Event>, v: byte) {
    v in net.nodes && net.nodes[v].helloCount == Hellos(evs, v) % 256
  }

  /** The counter of a node is the number of its HELLOs, modulo 256. */
  lemma {:induction false} CounterCountsHellos(sys: System, nets: seq<Network.Net>, evs: seq<Event>, k: nat, v: byte)
    requires Run(sys, nets, evs) && k <= |evs| && v in sys.g.nodes
    ensures Counted(nets[k], evs[..k], v)
  {
    if k == 0 {
    } else {
      CounterCountsHellos(sys, nets, evs, k - 1, v);
      RunStepCounts(sys, nets, evs, k - 1, v);
      OneMoreHello(nets[k-1], nets[k], evs[..k-1], evs[k-1], v);
      assert evs[..k-1] + [evs[k-1]] == evs[..k];
    }
  }

  lemma OneMoreHello(net: Network.Net, net': Network.Net, evs: seq<Event>, ev: Event, v: byte)
    requires Counted(net, evs, v) && v in net'.nodes
    requires net'.nodes[v].helloCount ==
             (net.nodes[v].helloCount + if ev == Network.Event.Hello(v) then 1 else 0) % 256
    ensures Counted(net', evs + [ev], v)
  {
    assert (evs + [ev])[..|evs|] == evs;
    NextModulo(Hellos(evs, v));
  }

  lemma NextModulo(n: nat)
    ensures (n % 256 + 1) % 256 == (n + 1) % 256 && n % 256 % 256 == n % 256
  {}

  lemma RunStepCounts(sys: System, nets: seq<Network.Net>, evs: seq<Event>, k: nat, v: byte)
    requires Run(sys, nets, evs) && k < |evs| && v in nets[k].nodes
    ensures v in nets[k+1].nodes
    ensures nets[k+1].nodes[v].helloCount ==
            (nets[k].nodes[v].helloCount + if evs[k] == Network.Event.Hello(v) then 1 else 0) % 256
  {
    assert Enabled(nets[k], evs[k]) && nets[k+1] == After(sys, nets[k], evs[k]);
    StepCounts(sys, nets[k], evs[k], v);
  }

  lemma StepCounts(sys: System, net: Network.Net, ev: Event, v: byte)
    requires Enabled(net, ev) && v in net.nodes
    ensures v in After(sys, net, ev).nodes
    ensures After(sys, net, ev).nodes[v].helloCount ==
            (net.nodes[v].helloCount + if ev == Network.Event.Hello(v) then 1 else 0) % 256
  {
    if ev.Request? {
      RequestKeepsNet(sys, net, ev.v, ev.d);
    }
  }

  /** How often packet p was received or lost, and how often it was duplicated. */
  function Gone(evs: seq<Event>, p: Packet): nat {
    if evs == [] then 0
    else Gone(evs[..|evs|-1], p) + if evs[|evs|-1] in {Deliver(p), Lose(p)} then 1 else 0
  }

  function Doubled(evs: seq<Event>, p: Packet): nat {
    if evs == [] then 0 else Doubled(evs[..|evs|-1], p) + if evs[|evs|-1] == Duplicate(p) then 1 else 0
  }

  /** How often it was sent in the first k steps. */
  ghost function Sent(sys: System, nets: seq<Network.Net>, evs: seq<Event>, k: nat, p: Packet): nat
    requires Run(sys, nets, evs) && k <= |evs|
  {
    if k == 0 then 0 else Sent(sys, nets, evs, k - 1, p) + SentBy(sys, nets[k-1], evs[k-1])[p]
  }

  /** What an event sends: a HELLO, an update, or the update of a tick that found silence. */
  ghost function SentBy(sys: System, net: Network.Net, ev: Event): multiset<Packet>
    requires Enabled(net, ev)
  {
    match ev
    case Hello(v) => multiset(HellosOf(sys.g, v))
    case Advertise(v) => multiset(UpdatesOf(sys, v, net.nodes[v].table))
    case Tick(v) =>
      var n := net.nodes[v];
      if Silent(n) then multiset(UpdatesOf(sys, v, Expired(n.table, n.helloCount))) else multiset{}
    case _ => multiset{}
  }

  /** No packet appears from nowhere or vanishes unaccounted for: sent plus duplicated is received plus lost plus in
      flight, for each packet and in every state of every run. */
  lemma {:induction false} PacketsBalance(
      sys: System, nets: seq<Network.Net>, evs: seq<Event>, k: nat, p: Packet)
    requires Run(sys, nets, evs) && k <= |evs|
    ensures Sent(sys, nets, evs, k, p) + Doubled(evs[..k], p) == Gone(evs[..k], p) + nets[k].flight[p]
  {
    if k == 0 {
    } else {
      PacketsBalance(sys, nets, evs, k - 1, p);
      assert Enabled(nets[k-1], evs[k-1]) && nets[k] == After(sys, nets[k-1], evs[k-1]);
      StepBalances(sys, nets[k-1], evs[k-1], p);
      OneMoreEvent(evs, k - 1, p);
    }
  }

  lemma OneMoreEvent(evs: seq<Event>, k: nat, p: Packet)
    requires k < |evs|
    ensures Doubled(evs[..k+1], p) == Doubled(evs[..k], p) + if evs[k] == Duplicate(p) then 1 else 0
    ensures Gone(evs[..k+1], p) == Gone(evs[..k], p) + if evs[k] in {Deliver(p), Lose(p)} then 1 else 0
  {
    assert evs[..k+1][..k] == evs[..k];
  }

  lemma StepBalances(sys: System, net: Network.Net, ev: Event, p: Packet)
    requires Enabled(net, ev)
    ensures net.flight[p] + SentBy(sys, net, ev)[p] + (if ev == Duplicate(p) then 1 else 0) ==
            After(sys, net, ev).flight[p] + if ev in {Deliver(p), Lose(p)} then 1 else 0
  {
    if ev.Tick? {
      SilentIsStale(net.nodes[ev.v]);
    }
  }
}
