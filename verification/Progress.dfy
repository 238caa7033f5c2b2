/** Traffic ends: a ping takes at most 32 steps, so only injecting more keeps a run going. */
module Progress {
  import opened Bytes
  import opened Tables
  import opened Graphs
  import opened Daemon
  import opened Exactness
  import opened Forwarding
  import opened Conservation
  import S = Sessions

  /** Steps a buffered ping may still take: a send and a receipt for each link its time to live allows. */
  function PacketWork(p: Packet): nat {
    2 * (16 - Travelled(p.pdu.ttl))
  }

  function FrameWork(f: Frame): nat {
    2 * (16 - Travelled(f.pdu.ttl)) - 1
  }

  function BufferWork(ps: seq<Packet>): nat {
    if ps == [] then 0 else PacketWork(ps[0]) + BufferWork(ps[1..])
  }

  function LinkWork(fs: seq<Frame>): nat {
    if fs == [] then 0 else FrameWork(fs[0]) + LinkWork(fs[1..])
  }

  function HostWork(order: seq<byte>, hosts: map<byte, S.Session>): nat {
    if order == [] then 0
    else (if order[0] in hosts then BufferWork(hosts[order[0]].host.buffer) else 0) + HostWork(order[1..], hosts)
  }

  function Work(order: seq<byte>, w: World): nat {
    HostWork(order, w.hosts) + LinkWork(w.links)
  }

  lemma {:induction false} BufferWorkGrows(ps: seq<Packet>, p: Packet)
    ensures BufferWork(ps + [p]) == BufferWork(ps) + PacketWork(p)
  {
    if ps == [] {
      assert ps + [p] == [p];
    } else {
      assert (ps + [p])[1..] == ps[1..] + [p];
      BufferWorkGrows(ps[1..], p);
    }
  }

  lemma {:induction false} LinkWorkSplits(a: seq<Frame>, b: seq<Frame>)
    ensures LinkWork(a + b) == LinkWork(a) + LinkWork(b)
  {
    if a == [] {
      assert a + b == b;
    } else {
      assert (a + b)[1..] == a[1..] + b;
      LinkWorkSplits(a[1..], b);
    }
  }

  lemma LinkWorkGrows(fs: seq<Frame>, f: Frame)
    ensures LinkWork(fs + [f]) == LinkWork(fs) + FrameWork(f)
  {
    LinkWorkSplits(fs, [f]);
    assert LinkWork([f]) == FrameWork(f) by { assert [f][1..] == []; }
  }

  lemma LinkWorkRemoves(fs: seq<Frame>, i: nat)
    requires i < |fs|
    ensures LinkWork(fs) == LinkWork(fs[..i] + fs[i+1..]) + FrameWork(fs[i])
  {
    assert fs == fs[..i] + ([fs[i]] + fs[i+1..]);
    LinkWorkSplits(fs[..i], [fs[i]] + fs[i+1..]);
    LinkWorkSplits([fs[i]], fs[i+1..]);
    LinkWorkSplits(fs[..i], fs[i+1..]);
    assert LinkWork([fs[i]]) == FrameWork(fs[i]) by { assert [fs[i]][1..] == []; }
  }

  lemma {:induction false} HostWorkChange(order: seq<byte>, hosts: map<byte, S.Session>, v: byte, s: S.Session)
    requires v in hosts && forall i, j :: 0 <= i < j < |order| ==> order[i] != order[j]
    ensures HostWork(order, hosts[v := s]) ==
            HostWork(order, hosts) +
            if v in order then BufferWork(s.host.buffer) - BufferWork(hosts[v].host.buffer) else 0
  {
    if order == [] {
    } else {
      var rest := order[1..];
      assert forall i :: 0 <= i < |rest| ==> rest[i] == order[i+1];
      HostWorkChange(rest, hosts, v, s);
    }
  }

  lemma InjectUsesWork(g: Graph, ts: TableMap, order: seq<byte>, w: World, p: Ping)
    requires Exact(g, ts) && NoBroadcast(g) && WorldOK(g, w) && Enabled(ts, w, Inject(p)) && Sensible(g, Inject(p))
    requires Lists(order, w.hosts.Keys)
    ensures Work(order, After(ts, w, Inject(p))) <= Work(order, w) + 32
  {
    var s', q := InjectMoves(g, ts, w, p);
    HostWorkChange(order, w.hosts, p.src, s');
    BufferWorkGrows(w.hosts[p.src].host.buffer, q);
    assert w.links + [] == w.links;
  }

  lemma RespondUsesWork(g: Graph, ts: TableMap, order: seq<byte>, w: World, v: byte)
    requires Exact(g, ts) && NoBroadcast(g) && WorldOK(g, w) && Enabled(ts, w, Respond(v))
    requires Lists(order, w.hosts.Keys)
    ensures Work(order, After(ts, w, Respond(v))) < Work(order, w)
  {
    var s', f := RespondMoves(g, ts, w, v);
    HostWorkChange(order, w.hosts, v, s');
    LinkWorkGrows(w.links, f);
  }

  /** A ping that is kept for forwarding has used up its receipt. */
  lemma ReceiptUsesWork(f: Frame, p: Packet)
    requires KeptAs(f, p)
    ensures PacketWork(p) < FrameWork(f)
  {
    CountedDown(f.pdu.ttl);
  }

  lemma ArriveUsesWork(g: Graph, ts: TableMap, order: seq<byte>, w: World, i: nat)
    requires Exact(g, ts) && NoBroadcast(g) && WorldOK(g, w) && Enabled(ts, w, Arrive(i))
    requires Lists(order, w.hosts.Keys)
    ensures Work(order, After(ts, w, Arrive(i))) < Work(order, w)
  {
    var s' := ArriveMoves(g, ts, w, i);
    var f := w.links[i];
    var v, rest := f.pdu.dest, w.links[..i] + w.links[i+1..];
    assert rest + [] == rest;
    HostWorkChange(order, w.hosts, v, s');
    LinkWorkRemoves(w.links, i);
    if FrameKey(f).dest != v {
      var q :| s'.host.buffer == w.hosts[v].host.buffer + [q] && KeptAs(f, q);
      BufferWorkGrows(w.hosts[v].host.buffer, q);
      ReceiptUsesWork(f, q);
    }
  }

  /** Sending and receiving use up work; injecting adds 32 steps of it. */
  lemma StepUsesWork(g: Graph, ts: TableMap, order: seq<byte>, w: World, ev: Event)
    requires Exact(g, ts) && NoBroadcast(g) && WorldOK(g, w) && Enabled(ts, w, ev) && Sensible(g, ev)
    requires Lists(order, w.hosts.Keys)
    ensures if ev.Inject? then Work(order, After(ts, w, ev)) <= Work(order, w) + 32
            else Work(order, After(ts, w, ev)) < Work(order, w)
  {
    match ev
    case Inject(p) => InjectUsesWork(g, ts, order, w, p);
    case Respond(v) => RespondUsesWork(g, ts, order, w, v);
    case Arrive(i) => ArriveUsesWork(g, ts, order, w, i);
  }

  /** Of 33 steps for each ping injected, those used up. */
  function Spare(order: seq<byte>, w: World): int {
    33 * |w.injected| - Work(order, w)
  }

  lemma {:induction false} WorkBounded(
      g: Graph, ts: TableMap, order: seq<byte>, ws: seq<World>, evs: seq<Event>, k: nat)
    requires Exact(g, ts) && NoBroadcast(g) && Run(g, ts, ws, evs) && Lists(order, g.nodes) && k <= |evs|
    ensures k <= Spare(order, ws[k])
  {
    if k == 0 {
      NoWork(order, ws[0].hosts);
    } else {
      WorkBounded(g, ts, order, ws, evs, k - 1);
      RunStepUsesWork(g, ts, order, ws, evs, k - 1);
    }
  }

  lemma RunStepUsesWork(g: Graph, ts: TableMap, order: seq<byte>, ws: seq<World>, evs: seq<Event>, i: nat)
    requires Exact(g, ts) && NoBroadcast(g) && Run(g, ts, ws, evs) && Lists(order, g.nodes) && i < |evs|
    ensures Spare(order, ws[i+1]) > Spare(order, ws[i])
  {
    RunConserves(g, ts, order, ws, evs, i);
    assert Step(g, ts, ws[i], evs[i], ws[i+1]);
    StepUsesWork(g, ts, order, ws[i], evs[i]);
  }

  lemma {:induction false} NoWork(order: seq<byte>, hosts: map<byte, S.Session>)
    requires forall v :: v in hosts ==> hosts[v].host.buffer == []
    ensures HostWork(order, hosts) == 0
  {
    if order == [] {
    } else {
      NoWork(order[1..], hosts);
    }
  }

  /** A run in which n pings are injected has at most 33 n steps. */
  lemma TrafficEnds(g: Graph, ts: TableMap, order: seq<byte>, ws: seq<World>, evs: seq<Event>)
    requires Exact(g, ts) && NoBroadcast(g) && Run(g, ts, ws, evs) && Lists(order, g.nodes)
    ensures |evs| <= 33 * |ws[|evs|].injected|
  {
    WorkBounded(g, ts, order, ws, evs, |evs|);
  }

  lemma OneMoreStep(g: Graph, ts: TableMap, ws: seq<World>, evs: seq<Event>, ev: Event)
    requires Run(g, ts, ws, evs) && Enabled(ts, ws[|evs|], ev) && Sensible(g, ev)
    ensures Run(g, ts, ws + [After(ts, ws[|evs|], ev)], evs + [ev])
  {
    var ws', evs' := ws + [After(ts, ws[|evs|], ev)], evs + [ev];
    assert ws'[0] == ws[0];
    forall i | 0 <= i < |evs'| ensures Step(g, ts, ws'[i], evs'[i], ws'[i+1]) {
      if i < |evs| {
        assert Step(g, ts, ws[i], evs[i], ws[i+1]);
      }
    }
  }

  /** A run continued without injecting anything. */
  ghost predicate Continues(ws: seq<World>, evs: seq<Event>, ws': seq<World>, evs': seq<Event>)
    requires |ws| == |evs| + 1 && |ws'| == |evs'| + 1
  {
    && ws <= ws' && evs <= evs' && (forall i :: |evs| <= i < |evs'| ==> !evs'[i].Inject?)
    && ws'[|evs'|].injected == ws[|evs|].injected
  }

  lemma ContinuesFurther(ws: seq<World>, evs: seq<Event>, w: World, ev: Event, ws': seq<World>, evs': seq<Event>)
    requires |ws| == |evs| + 1 && |ws'| == |evs'| + 1 && !ev.Inject? && w.injected == ws[|evs|].injected
    requires Continues(ws + [w], evs + [ev], ws', evs')
    ensures Continues(ws, evs, ws', evs')
  {
    assert (ws + [w])[|evs|+1] == w;
    assert (evs + [ev])[|evs|] == ev;
  }

  /** Until it is at rest, a run can go on by itself, using up work. */
  lemma GoesOn(g: Graph, ts: TableMap, order: seq<byte>, ws: seq<World>, evs: seq<Event>) returns (w: World, ev: Event)
    requires Exact(g, ts) && NoBroadcast(g) && Run(g, ts, ws, evs) && Lists(order, g.nodes) && !AtRest(ws[|evs|])
    ensures !ev.Inject? && Run(g, ts, ws + [w], evs + [ev])
    ensures w.injected == ws[|evs|].injected && Work(order, w) < Work(order, ws[|evs|])
  {
    RunConserves(g, ts, order, ws, evs, |evs|);
    NeverStuck(g, ts, ws[|evs|]);
    ev :| !ev.Inject? && Enabled(ts, ws[|evs|], ev);
    w := After(ts, ws[|evs|], ev);
    StepUsesWork(g, ts, order, ws[|evs|], ev);
    OneMoreStep(g, ts, ws, evs, ev);
  }

  lemma {:induction false} RunCanRest(g: Graph, ts: TableMap, order: seq<byte>, ws: seq<World>, evs: seq<Event>)
    returns (ws': seq<World>, evs': seq<Event>)
    requires Exact(g, ts) && NoBroadcast(g) && Run(g, ts, ws, evs) && Lists(order, g.nodes)
    ensures Run(g, ts, ws', evs') && Continues(ws, evs, ws', evs') && AtRest(ws'[|evs'|])
    decreases Work(order, ws[|evs|])
  {
    if AtRest(ws[|evs|]) {
      ws', evs' := ws, evs;
    } else {
      var w, ev := GoesOn(g, ts, order, ws, evs);
      ws', evs' := RunCanRest(g, ts, order, ws + [w], evs + [ev]);
      ContinuesFurther(ws, evs, w, ev, ws', evs');
    }
  }

  /** Every ping can still arrive: whatever traffic there has been, the network, left to itself, can come to rest within
      33 steps for each ping injected, and has then delivered everything injected so far. By NeverStuck it cannot stop
      before. */
  lemma EveryPingArrives(g: Graph, ts: TableMap, order: seq<byte>, ws: seq<World>, evs: seq<Event>)
    returns (ws': seq<World>, evs': seq<Event>)
    requires Exact(g, ts) && NoBroadcast(g) && Run(g, ts, ws, evs) && Lists(order, g.nodes)
    ensures Run(g, ts, ws', evs') && Continues(ws, evs, ws', evs') && |evs'| <= 33 * |ws[|evs|].injected|
    ensures AtRest(ws'[|evs'|]) && multiset(ws'[|evs'|].delivered) == multiset(Cuts(ws[|evs|].injected))
  {
    ws', evs' := RunCanRest(g, ts, order, ws, evs);
    TrafficEnds(g, ts, order, ws', evs');
    ExactlyOnceDelivery(g, ts, order, ws', evs', |evs'|);
  }
}
