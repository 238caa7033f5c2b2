/** Hello detection inside a network run: what one node goes through is a run of its own state machine. */
module HelloRuns {
  import opened Bytes
  import opened Tables
  import opened Timeouts
  import opened Graphs
  import opened Network
  import N = Nodes

  /** What ev is to node v. */
  function View(ev: Event, v: byte): seq<N.Event> {
    match ev
    case Hello(u) => if u == v then [N.SendHello] else []
    case Advertise(u) => if u == v then [N.SendUpdates] else []
    case Tick(u) => if u == v then [N.Tick] else []
    case Request(u, d) => if u == v then [N.Receive(N.RequestPayload(d))] else []
    case Deliver(p) => if p.to == v then [N.Receive(p.payload)] else []
    case Lose(_) => []
    case Duplicate(_) => []
  }

  function Views(evs: seq<Event>, v: byte): seq<N.Event> {
    if evs == [] then [] else View(evs[0], v) + Views(evs[1..], v)
  }

  lemma StepSeenBy(sys: System, net: Network.Net, ev: Event, v: byte)
    requires ValidSystem(sys) && NetOK(sys, net) && Enabled(net, ev) && v in net.nodes
    ensures v in After(sys, net, ev).nodes
    ensures var n, n' := net.nodes[v], After(sys, net, ev).nodes[v];
            if View(ev, v) == [] then n' == n
            else |View(ev, v)| == 1 && N.Enabled(n, View(ev, v)[0]) &&
                 n' == N.After(sys.cap, sys.signed, n, View(ev, v)[0])
  {
    match ev
    case Request(u, d) => N.RequestChangesNothing(sys.cap, sys.signed, net.nodes[u], d);
    case Deliver(p) =>
    case _ =>
  }

  /** From state a to state b, node v runs through its views, in tables of the right shape all the way. */
  lemma {:induction false} NodeRun(sys: System, nets: seq<Network.Net>, evs: seq<Event>, v: byte, a: nat, b: nat)
    requires ValidSystem(sys) && Run(sys, nets, evs) && v in sys.g.nodes && a <= b <= |evs|
    ensures v in nets[a].nodes && v in nets[b].nodes
    ensures var vs := Views(evs[a..b], v);
            && N.CanRun(sys.cap, sys.signed, nets[a].nodes[v], vs)
            && N.ShapedRun(sys.cap, sys.signed, nets[a].nodes[v], vs)
            && N.RunTo(sys.cap, sys.signed, nets[a].nodes[v], vs) == nets[b].nodes[v]
    decreases b - a
  {
    NeighbourShape(sys, nets, evs, a, v);
    if a < b {
      RunKeepsNet(sys, nets, evs, a);
      StepSeenBy(sys, nets[a], evs[a], v);
      NodeRun(sys, nets, evs, v, a + 1, b);
      assert evs[a..b][1..] == evs[a+1..b];
      var one, rest := View(evs[a], v), Views(evs[a+1..b], v);
      if one == [] {
        assert one + rest == rest;
      } else {
        assert (one + rest)[1..] == rest;
      }
    }
  }

  /** A HELLO of s reached v between states a and b. */
  ghost predicate HelloArrived(evs: seq<Event>, v: byte, s: byte, a: nat, b: nat)
    requires a <= b <= |evs|
  {
    exists k :: a <= k < b && IsHelloTo(evs[k], v, s)
  }

  predicate IsHelloTo(ev: Event, v: byte, s: byte) {
    ev.Deliver? && ev.p.to == v && |ev.p.payload| == MAX_RT_PKT_SIZE &&
    N.IsHelloPayload(ev.p.payload) && ev.p.payload[3] == s
  }

  lemma {:induction false} ViewsHear(evs: seq<Event>, v: byte, s: byte)
    ensures N.Heard(Views(evs, v), s) <==> HelloArrived(evs, v, s, 0, |evs|)
  {
    if evs == [] {
    } else {
      var one, rest := View(evs[0], v), Views(evs[1..], v);
      ViewsHear(evs[1..], v, s);
      assert HelloArrived(evs, v, s, 0, |evs|) <==>
               IsHelloTo(evs[0], v, s) || HelloArrived(evs[1..], v, s, 0, |evs|-1) by {
        if k :| 0 <= k < |evs|-1 && IsHelloTo(evs[1..][k], v, s) {
          assert IsHelloTo(evs[k+1], v, s);
        }
        if k :| 0 < k < |evs| && IsHelloTo(evs[k], v, s) {
          assert IsHelloTo(evs[1..][k-1], v, s);
        }
      }
      if one == [] {
        assert one + rest == rest;
      } else {
        N.HeardLater(one + rest, s);
        assert (one + rest)[1..] == rest && (one + rest)[..1] == one;
        assert N.Heard(one, s) <==> IsHelloTo(evs[0], v, s) by {
          if IsHelloTo(evs[0], v, s) { assert one[0].Receive?; }
        }
      }
    }
  }

  lemma {:induction false} NoTickInViews(evs: seq<Event>, v: byte)
    requires Network.Event.Tick(v) !in evs
    ensures N.Tick !in Views(evs, v)
  {
    if evs == [] {
    } else {
      assert evs[0] in evs && forall e :: e in evs[1..] ==> e in evs;
      NoTickInViews(evs[1..], v);
    }
  }

  ghost predicate IsLink(t: Table, i: nat) {
    i < |t| && t[i].hops == 1 && t[i].dest == t[i].nextHop
  }

  /** A neighbour never withdraws the route to itself, so its entry stays at one hop. */
  lemma {:induction false} MergeKeepsLink(
      g: Graph, cap: Capacity, signed: bool, t: Table, self: byte, src: byte, trs: seq<Triple>, hello: byte, i: nat)
    requires IsLink(t, i) && forall j :: 0 <= j < |trs| ==> TripleOK(g, src, trs[j])
    ensures IsLink(Merged(cap, signed, t, self, src, trs, hello), i)
  {
    if trs == [] {
    } else {
      var n := |trs| - 1;
      MergeKeepsLink(g, cap, signed, t, self, src, trs[..n], hello, i);
      assert TripleOK(g, src, trs[n]);
    }
  }

  lemma ReceiptKeepsLink(g: Graph, cap: Capacity, signed: bool, n: N.Node, p: Packet, i: nat)
    requires PacketOK(g, p) && IsLink(n.table, i)
    ensures IsLink(N.Received(cap, signed, n, p.payload).table, i)
  {
    var pl, hc := p.payload, n.helloCount;
    var s, trs := pl[3], Decode(pl);
    if pl == N.HelloPayload(s) {
      assert trs == [];
      var u := Updated(cap, n.table, s, s, 1, hc);
      RefreshedFirstOnly(u, s, hc);
    } else {
      MergeKeepsLink(g, cap, signed, n.table, n.self, s, trs, hc, i);
    }
  }

  lemma StepKeepsLink(sys: System, net: Network.Net, ev: Event, v: byte, i: nat)
    requires NetOK(sys, net) && Enabled(net, ev) && v in net.nodes && ev != Network.Event.Tick(v)
    requires IsLink(net.nodes[v].table, i)
    ensures v in After(sys, net, ev).nodes && IsLink(After(sys, net, ev).nodes[v].table, i)
  {
    if ev.Deliver? {
      if ev.p.to == v {
        ReceiptKeepsLink(sys.g, sys.cap, sys.signed, net.nodes[v], ev.p, i);
      }
    } else if ev.Request? {
      RequestKeepsNet(sys, net, ev.v, ev.d);
    }
  }

  /** Between ticks, links stay links. */
  lemma {:induction false} RunKeepsLink(
      sys: System, nets: seq<Network.Net>, evs: seq<Event>, v: byte, a: nat, b: nat, i: nat)
    requires ValidSystem(sys) && Run(sys, nets, evs) && a <= b <= |evs| && v in nets[a].nodes
    requires forall k :: a <= k < b ==> evs[k] != Network.Event.Tick(v)
    requires IsLink(nets[a].nodes[v].table, i)
    ensures v in nets[b].nodes && IsLink(nets[b].nodes[v].table, i)
    decreases b - a
  {
    if a == b {
    } else {
      RunKeepsLink(sys, nets, evs, v, a, b - 1, i);
      RunStepKeepsLink(sys, nets, evs, v, b - 1, i);
    }
  }

  lemma RunStepKeepsLink(sys: System, nets: seq<Network.Net>, evs: seq<Event>, v: byte, k: nat, i: nat)
    requires ValidSystem(sys) && Run(sys, nets, evs) && k < |evs| && v in nets[k].nodes
    requires evs[k] != Network.Event.Tick(v) && IsLink(nets[k].nodes[v].table, i)
    ensures v in nets[k+1].nodes && IsLink(nets[k+1].nodes[v].table, i)
  {
    RunKeepsNet(sys, nets, evs, k);
    assert Enabled(nets[k], evs[k]) && nets[k+1] == After(sys, nets[k], evs[k]);
    StepKeepsLink(sys, nets[k], evs[k], v, i);
  }

  /** In any network run, between two successive ticks of v, a neighbour's entry that is at one hop after the first
      survives the second if and only if a HELLO of the neighbour reached v in between. */
  lemma HelloDetectionInRuns(sys: System, nets: seq<Network.Net>, evs: seq<Event>, v: byte, a: nat, b: nat, i: nat)
    requires ValidSystem(sys) && Run(sys, nets, evs) && v in sys.g.nodes
    requires a + 1 < b < |evs| && evs[a] == Network.Event.Tick(v) && evs[b] == Network.Event.Tick(v)
    requires Network.Event.Tick(v) !in evs[a+1..b]
    requires v in nets[a+1].nodes && i < |nets[a+1].nodes[v].table| && nets[a+1].nodes[v].table[i].hops == 1
    ensures v in nets[b+1].nodes && i < |nets[b+1].nodes[v].table|
    ensures nets[b+1].nodes[v].table[i].hops == 1 <==> HelloArrived(evs, v, nets[a+1].nodes[v].table[i].dest, a + 1, b)
  {
    var n, s, mid := nets[a+1].nodes[v], nets[a+1].nodes[v].table[i].dest, evs[a+1..b];
    NeighbourShape(sys, nets, evs, a + 1, v);
    assert forall k :: a + 1 <= k < b ==> evs[k] == mid[k-a-1];
    RunKeepsLink(sys, nets, evs, v, a + 1, b, i);
    NodeRun(sys, nets, evs, v, a + 1, b);
    assert Enabled(nets[a], evs[a]) && nets[a+1] == After(sys, nets[a], evs[a]);
    ExpiredLeavesNothingStale(nets[a].nodes[v].table, nets[a].nodes[v].helloCount);
    assert Enabled(nets[b], evs[b]) && nets[b+1] == After(sys, nets[b], evs[b]);
    NoTickInViews(mid, v);
    ViewsHear(mid, v, s);
    var vs := Views(mid, v);
    assert nets[b].nodes[v].state == N.Wait && n.state == N.Hello;
    assert vs != [];
    N.HelloDetectionExact(sys.cap, sys.signed, n, vs, i);
    assert HelloArrived(mid, v, s, 0, |mid|) <==> HelloArrived(evs, v, s, a + 1, b) by {
      if k :| 0 <= k < |mid| && IsHelloTo(mid[k], v, s) { assert IsHelloTo(evs[a+1+k], v, s); }
      if k :| a + 1 <= k < b && IsHelloTo(evs[k], v, s) { assert IsHelloTo(mid[k-a-1], v, s); }
    }
  }
}
