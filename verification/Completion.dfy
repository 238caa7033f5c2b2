/** Quiet runs can always be brought to rest: with room for every route, some quiet continuation of any quiet run ends
    with all neighbours heard and nothing left to send, and then every table is exact. */
module Completion {
  import opened Bytes
  import opened Tables
  import opened Timeouts
  import opened Advertising
  import opened Codec
  import opened Graphs
  import opened Network
  import opened Grounding
  import opened Exactness
  import opened Convergence
  import opened Room
  import N = Nodes

  // ---- nobody's first HELLO is forgotten ----

  /** Node n has still to say HELLO, or its HELLO is on its way to s, or s has heard it. */
  ghost predicate HeardOrComing(net: Network.Net, n: byte, s: byte)
    requires n in net.nodes && s in net.nodes
  {
    || net.nodes[n].state == N.Hello
    || Packet(s, N.HelloPayload(n)) in net.flight
    || HoldsLink(net.nodes[s].table, n)
  }

  ghost predicate AllHeardOrComing(g: Graph, net: Network.Net) {
    forall n, s :: Adjacent(g, n, s) ==> n in net.nodes && s in net.nodes && HeardOrComing(net, n, s)
  }

  lemma HoldsLinkGrows(t: Table, t': Table, n: byte)
    requires Grows(t, t') && HoldsLink(t, n)
    ensures HoldsLink(t', n)
  {
    var i :| 0 <= i < |t| && t[i].hops == 1 && t[i].dest == t[i].nextHop == n;
    assert SameRoute(t[i], t'[i]);
  }

  lemma HelloMakesLink(signed: bool, n: N.Node, s: byte)
    requires Finite(n.table)
    ensures HoldsLink(N.Received(Unlimited, signed, n, N.HelloPayload(s)).table, s)
  {
    N.HelloFrameBecomesPayload(s);
    var u := Updated(Unlimited, n.table, s, s, 1, n.helloCount);
    FiniteUpdateGrows(n.table, s, s, 1, n.helloCount);
    RefreshedFirstOnly(u, s, n.helloCount);
    var i :| 0 <= i < |u| && u[i].dest == s && u[i].nextHop == s && u[i].hops == 1;
    var t := Refreshed(u, s, n.helloCount);
    assert t[i].dest == t[i].nextHop == s && t[i].hops == 1;
  }

  lemma DeliveryGrows(sys: System, net: Network.Net, p: Packet, s: byte)
    requires ValidSystem(sys) && NetOK(sys, net) && GroundedNet(net)
    requires Enabled(net, Deliver(p)) && QuietStep(sys, net, Deliver(p)) && s in net.nodes
    ensures s in After(sys, net, Deliver(p)).nodes
    ensures Grows(net.nodes[s].table, After(sys, net, Deliver(p)).nodes[s].table)
  {
    DeliveryIsQuiet(sys, net, p);
    assert Grows(TablesOf(net)[s], TablesOf(After(sys, net, Deliver(p)))[s]);
  }

  lemma DeliveryKeepsComing(sys: System, net: Network.Net, p: Packet, n: byte, s: byte)
    requires ValidSystem(sys) && NetOK(sys, net) && GroundedNet(net)
    requires Enabled(net, Deliver(p)) && QuietStep(sys, net, Deliver(p))
    requires n in net.nodes && s in net.nodes && HeardOrComing(net, n, s)
    ensures var net' := After(sys, net, Deliver(p));
            n in net'.nodes && s in net'.nodes && HeardOrComing(net', n, s)
  {
    var net' := After(sys, net, Deliver(p));
    DeliveryGrows(sys, net, p, s);
    if HoldsLink(net.nodes[s].table, n) {
      HoldsLinkGrows(net.nodes[s].table, net'.nodes[s].table, n);
    } else if p == Packet(s, N.HelloPayload(n)) {
      SmallHops(sys.g, TablesOf(net), s);
      HelloMakesLink(sys.signed, net.nodes[s], n);
    }
  }

  lemma StepKeepsComing(sys: System, net: Network.Net, ev: Event)
    requires ValidSystem(sys) && NetOK(sys, net) && GroundedNet(net) && AllHeardOrComing(sys.g, net)
    requires Enabled(net, ev) && QuietStep(sys, net, ev)
    ensures AllHeardOrComing(sys.g, After(sys, net, ev))
  {
    var net' := After(sys, net, ev);
    if !ev.Deliver? {
      OtherStepsKeepTables(sys, net, ev);
    }
    forall n, s | Adjacent(sys.g, n, s)
      ensures n in net'.nodes && s in net'.nodes && HeardOrComing(net', n, s)
    {
      assert HeardOrComing(net, n, s);
      if ev.Deliver? {
        DeliveryKeepsComing(sys, net, ev.p, n, s);
      } else {
        OtherStepsKeepComing(sys, net, ev, n, s);
      }
    }
  }

  lemma OtherStepsKeepComing(sys: System, net: Network.Net, ev: Event, n: byte, s: byte)
    requires ValidSystem(sys) && Enabled(net, ev) && QuietStep(sys, net, ev) && !ev.Deliver? && Adjacent(sys.g, n, s)
    requires n in net.nodes && s in net.nodes && HeardOrComing(net, n, s)
    requires TablesOf(After(sys, net, ev)) == TablesOf(net)
    ensures n in After(sys, net, ev).nodes && s in After(sys, net, ev).nodes && HeardOrComing(After(sys, net, ev), n, s)
  {
    var net' := After(sys, net, ev);
    assert TablesOf(net')[s] == TablesOf(net)[s];
    if ev.Request? {
      RequestKeepsNet(sys, net, ev.v, ev.d);
    } else if ev == Network.Event.Hello(n) {
      assert Packet(s, N.HelloPayload(n)) in HellosOf(sys.g, n);
    }
  }

  lemma {:induction false} RunKeepsComing(sys: System, nets: seq<Network.Net>, evs: seq<Event>, k: nat)
    requires ValidSystem(sys) && QuietRun(sys, nets, evs) && k <= |evs|
    ensures AllHeardOrComing(sys.g, nets[k])
  {
    if k == 0 {
    } else {
      RunKeepsComing(sys, nets, evs, k - 1);
      QuietRunInvariant(sys, nets, evs, k - 1);
      StepKeepsComing(sys, nets[k-1], evs[k-1]);
    }
  }

  // ---- the measure ----

  ghost function InState(net: Network.Net, st: N.State): set<byte> {
    set v | v in net.nodes && net.nodes[v].state == st
  }

  /** Every route a quiet run could ever store. */
  ghost function Universe(g: Graph): set<Route> {
    set v, d, n, h: byte | v in g.nodes && d in g.nodes && n in g.nodes && 0 <= h <= 15 :: Route(v, d, n, h)
  }

  ghost predicate StoredIn(ts: TableMap, r: Route) {
    r.at in ts && Stores(ts[r.at], r.dest, r.nextHop, r.hops)
  }

  ghost function Missing(g: Graph, ts: TableMap): set<Route> {
    set r | r in Universe(g) && !StoredIn(ts, r)
  }

  /** The first route a merge adds was not stored before. */
  lemma {:induction false} MergeAddsNew(signed: bool, t: Table, self: byte, src: byte, trs: seq<Triple>, hc: byte)
    requires Finite(t) && FiniteFurther(trs)
    ensures var t' := Merged(Unlimited, signed, t, self, src, trs, hc);
            |t'| > |t| ==> !Stores(t, t'[|t|].dest, t'[|t|].nextHop, t'[|t|].hops)
  {
    if trs == [] {
    } else {
      var n := |trs| - 1;
      MergeAddsNew(signed, t, self, src, trs[..n], hc);
      FiniteMergeGrows(signed, t, self, src, trs[..n], hc);
      var m := Merged(Unlimited, signed, t, self, src, trs[..n], hc);
      FiniteUpdateGrows(m, src, trs[n].dest, Further(trs[n].hops), hc);
      assert |m| > |t| ==> SameRoute(m[|t|], Merged(Unlimited, signed, t, self, src, trs, hc)[|t|]);
    }
  }

  lemma ReceiptAddsNew(g: Graph, signed: bool, n: N.Node, p: Packet)
    requires PacketOK(g, p) && Finite(n.table) && (IsUpdatePayload(p.payload) ==> FiniteFurther(Decode(p.payload)))
    ensures var t, t' := n.table, N.Received(Unlimited, signed, n, p.payload).table;
            |t'| > |t| ==> !Stores(t, t'[|t|].dest, t'[|t|].nextHop, t'[|t|].hops)
  {
    var s, trs, hc := p.payload[3], Decode(p.payload), n.helloCount;
    if p.payload == N.HelloPayload(s) {
      assert trs == [];
      FiniteUpdateGrows(n.table, s, s, 1, hc);
      RefreshedFirstOnly(Updated(Unlimited, n.table, s, s, 1, hc), s, hc);
    } else {
      MergeAddsNew(signed, n.table, n.self, s, trs, hc);
    }
  }

  lemma GrowthKeepsStored(ts: TableMap, ts': TableMap, r: Route)
    requires AllGrow(ts, ts') && StoredIn(ts, r)
    ensures StoredIn(ts', r)
  {
    assert Grows(ts[r.at], ts'[r.at]);
    StoresGrows(ts[r.at], ts'[r.at], r.dest, r.nextHop, r.hops);
  }

  lemma StoredInUniverse(sys: System, net: Network.Net, v: byte, k: nat)
    requires NetOK(sys, net) && ValidSystem(sys) && GroundedNet(net) && v in net.nodes && 0 < k < |net.nodes[v].table|
    ensures var e := net.nodes[v].table[k];
            var r := Route(v, e.dest, e.nextHop, e.hops);
            r in Universe(sys.g) && StoredIn(TablesOf(net), r)
  {
    var ts := TablesOf(net);
    SmallHops(sys.g, ts, v);
    EntryInUniverse(sys.g, ts, v, k);
  }

  lemma EntryInUniverse(g: Graph, ts: TableMap, v: byte, k: nat)
    requires v in ts && v in g.nodes && k < |ts[v]| && RouteOK(g, v, ts[v][k]) && ts[v][k].hops <= 15
    requires ValidGraph(g)
    ensures var r := Route(v, ts[v][k].dest, ts[v][k].nextHop, ts[v][k].hops);
            r in Universe(g) && StoredIn(ts, r)
  {
    var e := ts[v][k];
    assert Adjacent(g, v, e.nextHop);
    assert Stores(ts[v], e.dest, e.nextHop, e.hops);
  }

  lemma NewRoute(sys: System, net: Network.Net, p: Packet)
    requires ValidSystem(sys) && NetOK(sys, net) && GroundedNet(net)
    requires Enabled(net, Deliver(p)) && QuietStep(sys, net, Deliver(p))
    ensures var t, t' := net.nodes[p.to].table, After(sys, net, Deliver(p)).nodes[p.to].table;
            |t'| > |t| ==> !Stores(t, t'[|t|].dest, t'[|t|].nextHop, t'[|t|].hops)
  {
    ReceiverIsReady(sys, net, p);
    ReceiptAddsNew(sys.g, sys.signed, net.nodes[p.to], p);
  }

  lemma FewerMissing(g: Graph, ts: TableMap, ts': TableMap, r: Route)
    requires AllGrow(ts, ts') && r in Universe(g) && StoredIn(ts', r) && !StoredIn(ts, r)
    ensures Missing(g, ts') < Missing(g, ts)
  {
    assert r in Missing(g, ts) && r !in Missing(g, ts');
    forall q | q in Missing(g, ts') ensures q in Missing(g, ts) {
      if StoredIn(ts, q) { GrowthKeepsStored(ts, ts', q); }
    }
  }

  /** A delivery that adds a route leaves fewer to be added. */
  lemma DeliveryFills(sys: System, net: Network.Net, p: Packet)
    requires ValidSystem(sys) && NetOK(sys, net) && GroundedNet(net)
    requires Enabled(net, Deliver(p)) && QuietStep(sys, net, Deliver(p))
    requires |After(sys, net, Deliver(p)).nodes[p.to].table| > |net.nodes[p.to].table|
    ensures Missing(sys.g, TablesOf(After(sys, net, Deliver(p)))) < Missing(sys.g, TablesOf(net))
  {
    var net' := After(sys, net, Deliver(p));
    var k := |net.nodes[p.to].table|;
    var e := net'.nodes[p.to].table[k];
    DeliveryIsQuiet(sys, net, p);
    NewRoute(sys, net, p);
    AfterDelivery(sys, net, p);
    StoredInUniverse(sys, net', p.to, k);
    FewerMissing(sys.g, TablesOf(net), TablesOf(net'), Route(p.to, e.dest, e.nextHop, e.hops));
  }

  lemma SameRoutesSameMissing(g: Graph, ts: TableMap, ts': TableMap)
    requires AllGrow(ts, ts') && forall v :: v in ts ==> |ts'[v]| == |ts[v]|
    ensures Missing(g, ts') == Missing(g, ts)
  {
    forall q ensures StoredIn(ts', q) <==> StoredIn(ts, q) {
      if StoredIn(ts, q) { GrowthKeepsStored(ts, ts', q); }
      if StoredIn(ts', q) {
        var t' := ts'[q.at];
        var i :| 0 <= i < |t'| && t'[i].dest == q.dest && t'[i].nextHop == q.nextHop && t'[i].hops == q.hops;
        assert SameRoute(ts[q.at][i], t'[i]);
      }
    }
  }

  // ---- the continuation ----

  lemma OneMoreStep(sys: System, nets: seq<Network.Net>, evs: seq<Event>, ev: Event)
    requires QuietRun(sys, nets, evs) && Enabled(nets[|evs|], ev) && QuietStep(sys, nets[|evs|], ev)
    ensures QuietRun(sys, nets + [After(sys, nets[|evs|], ev)], evs + [ev])
  {}

  /** What is left of the way to rest, in the order in which the steps below use it up. */
  ghost predicate Closer(g: Graph, net: Network.Net, net': Network.Net) {
    || InState(net', N.Hello) < InState(net, N.Hello)
    || (InState(net', N.Hello) == InState(net, N.Hello) &&
        (|| Missing(g, TablesOf(net')) < Missing(g, TablesOf(net))
         || (Missing(g, TablesOf(net')) == Missing(g, TablesOf(net)) &&
             (|| InState(net', N.Update) < InState(net, N.Update)
              || (InState(net', N.Update) == InState(net, N.Update) && |net'.flight| < |net.flight|)))))
  }

  ghost predicate Done(net: Network.Net) {
    InState(net, N.Hello) == {} && InState(net, N.Update) == {} && net.flight == multiset{}
  }

  lemma GreetingIsCloser(sys: System, net: Network.Net, v: byte)
    requires ValidSystem(sys) && NetOK(sys, net) && v in InState(net, N.Hello)
    ensures Enabled(net, Network.Event.Hello(v)) && QuietStep(sys, net, Network.Event.Hello(v))
    ensures Closer(sys.g, net, After(sys, net, Network.Event.Hello(v)))
  {
    var net' := After(sys, net, Network.Event.Hello(v));
    assert InState(net', N.Hello) == InState(net, N.Hello) - {v};
  }

  lemma AdvertisingIsCloser(sys: System, net: Network.Net, v: byte)
    requires ValidSystem(sys) && NetOK(sys, net) && v in InState(net, N.Update)
    ensures Enabled(net, Advertise(v)) && QuietStep(sys, net, Advertise(v))
    ensures Closer(sys.g, net, After(sys, net, Advertise(v)))
  {
    var net' := After(sys, net, Advertise(v));
    assert InState(net', N.Update) == InState(net, N.Update) - {v};
    assert InState(net', N.Hello) == InState(net, N.Hello);
    assert TablesOf(net') == TablesOf(net);
  }

  lemma DeliveringIsCloser(sys: System, net: Network.Net, p: Packet)
    requires ValidSystem(sys) && NetOK(sys, net) && GroundedNet(net) && DistinctNet(net) && Roomy(sys)
    requires p in net.flight
    requires InState(net, N.Hello) == {} && InState(net, N.Update) == {}
    ensures Enabled(net, Deliver(p)) && QuietStep(sys, net, Deliver(p))
    ensures Closer(sys.g, net, After(sys, net, Deliver(p)))
  {
    assert PacketOK(sys.g, p);
    assert p.to !in InState(net, N.Hello) && p.to !in InState(net, N.Update);
    RoomMakesQuiet(sys, net, p);
    var net' := After(sys, net, Deliver(p));
    DeliveryIsQuiet(sys, net, p);
    assert InState(net', N.Hello) == {} by {
      forall v | v in net'.nodes ensures net'.nodes[v].state != N.Hello {
        assert v !in InState(net, N.Hello);
      }
    }
    if |net'.nodes[p.to].table| > |net.nodes[p.to].table| {
      DeliveryFills(sys, net, p);
    } else {
      SameRoutesSameMissing(sys.g, TablesOf(net), TablesOf(net'));
      assert InState(net', N.Update) == InState(net, N.Update);
    }
  }

  /** Until everything is said and delivered, a quiet step leads closer. */
  lemma SomeStepIsCloser(sys: System, net: Network.Net) returns (ev: Event)
    requires ValidSystem(sys) && NetOK(sys, net) && GroundedNet(net) && DistinctNet(net) && Roomy(sys) && !Done(net)
    ensures Enabled(net, ev) && QuietStep(sys, net, ev) && Closer(sys.g, net, After(sys, net, ev))
  {
    if v :| v in InState(net, N.Hello) {
      ev := Network.Event.Hello(v);
      GreetingIsCloser(sys, net, v);
    } else if v :| v in InState(net, N.Update) {
      ev := Advertise(v);
      AdvertisingIsCloser(sys, net, v);
    } else {
      var p :| p in net.flight;
      ev := Deliver(p);
      DeliveringIsCloser(sys, net, p);
    }
  }

  lemma DoneIsQuiescent(sys: System, net: Network.Net)
    requires NetOK(sys, net) && AllHeardOrComing(sys.g, net) && Done(net)
    ensures AllHeard(sys.g, net) && Quiescent(net)
  {
    forall v | v in net.nodes ensures net.nodes[v].state == N.Wait {
      assert v !in InState(net, N.Hello) && v !in InState(net, N.Update);
    }
    forall s, n | Adjacent(sys.g, n, s) ensures HoldsLink(net.nodes[s].table, n) {
      assert HeardOrComing(net, n, s);
    }
  }

  /** Until then, a quiet run can go on. */
  lemma GoesOn(sys: System, nets: seq<Network.Net>, evs: seq<Event>) returns (net: Network.Net, ev: Event)
    requires ValidSystem(sys) && Roomy(sys) && QuietRun(sys, nets, evs) && !Done(nets[|evs|])
    ensures QuietRun(sys, nets + [net], evs + [ev]) && Closer(sys.g, nets[|evs|], net)
  {
    QuietRunInvariant(sys, nets, evs, |evs|);
    RunKeepsDistinct(sys, nets, evs, |evs|);
    ev := SomeStepIsCloser(sys, nets[|evs|]);
    OneMoreStep(sys, nets, evs, ev);
    net := After(sys, nets[|evs|], ev);
  }

  /** Every quiet run has a quiet continuation that comes to rest, if tables have room for the routes of the graph. */
  lemma {:induction false} QuietRunsCanRest(sys: System, nets: seq<Network.Net>, evs: seq<Event>)
    returns (nets': seq<Network.Net>, evs': seq<Event>)
    requires ValidSystem(sys) && Roomy(sys) && QuietRun(sys, nets, evs)
    ensures QuietRun(sys, nets', evs') && nets <= nets' && evs <= evs'
    ensures AllHeard(sys.g, nets'[|evs'|]) && Quiescent(nets'[|evs'|])
    decreases InState(nets[|evs|], N.Hello), Missing(sys.g, TablesOf(nets[|evs|])),
              InState(nets[|evs|], N.Update), |nets[|evs|].flight|
  {
    if Done(nets[|evs|]) {
      QuietRunInvariant(sys, nets, evs, |evs|);
      RunKeepsComing(sys, nets, evs, |evs|);
      DoneIsQuiescent(sys, nets[|evs|]);
      return nets, evs;
    }
    var net, ev := GoesOn(sys, nets, evs);
    nets', evs' := QuietRunsCanRest(sys, nets + [net], evs + [ev]);
  }

  /** So from any state of a quiet run, every lookup in the network can still become exact. */
  lemma ExactnessIsReachable(sys: System, nets: seq<Network.Net>, evs: seq<Event>)
    requires ValidSystem(sys) && Roomy(sys) && QuietRun(sys, nets, evs)
    ensures exists nets', evs' ::
              QuietRun(sys, nets', evs') && nets <= nets' && evs <= evs' && Exact(sys.g, TablesOf(nets'[|evs'|]))
  {
    var nets', evs' := QuietRunsCanRest(sys, nets, evs);
    QuiescenceIsExact(sys, nets', evs');
  }
}
