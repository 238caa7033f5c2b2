/** Every ping injected is, at every moment of every run, in exactly one place: a buffer, a link, or the application
    it was meant for. */
module Conservation {
  import opened Bytes
  import opened Tables
  import opened Graphs
  import opened Daemon
  import opened Exactness
  import opened Forwarding
  import S = Sessions

  function Keys(ps: seq<Packet>): (r: seq<Ping>)
    ensures |r| == |ps|
  {
    seq(|ps|, i requires 0 <= i < |ps| => KeyOf(ps[i]))
  }

  /** The pings of an application, as far as they are carried. */
  function Cuts(ps: seq<Ping>): (r: seq<Ping>)
    ensures |r| == |ps|
  {
    seq(|ps|, i requires 0 <= i < |ps| => Cut(ps[i]))
  }

  function FrameKeys(fs: seq<Frame>): (r: seq<Ping>)
    ensures |r| == |fs|
  {
    seq(|fs|, i requires 0 <= i < |fs| => FrameKey(fs[i]))
  }

  /** The pings buffered at the hosts of `order`. */
  function Buffered(order: seq<byte>, hosts: map<byte, S.Session>): multiset<Ping> {
    if order == [] then multiset{}
    else (if order[0] in hosts then multiset(Keys(hosts[order[0]].host.buffer)) else multiset{})
         + Buffered(order[1..], hosts)
  }

  /** order lists every host once. */
  ghost predicate Lists(order: seq<byte>, hosts: set<byte>) {
    (forall v :: v in order <==> v in hosts) && forall i, j :: 0 <= i < j < |order| ==> order[i] != order[j]
  }

  ghost predicate Conserved(order: seq<byte>, w: World) {
    multiset(Cuts(w.injected)) == Buffered(order, w.hosts) + multiset(FrameKeys(w.links)) + multiset(w.delivered)
  }

  lemma {:induction false} BufferedElsewhere(order: seq<byte>, hosts: map<byte, S.Session>, v: byte, s: S.Session)
    requires v !in order
    ensures Buffered(order, hosts[v := s]) == Buffered(order, hosts)
  {
    if order == [] {
    } else {
      BufferedElsewhere(order[1..], hosts, v, s);
    }
  }

  lemma {:induction false} BufferedChange(order: seq<byte>, hosts: map<byte, S.Session>, v: byte, s: S.Session)
    requires v in order && v in hosts && forall i, j :: 0 <= i < j < |order| ==> order[i] != order[j]
    ensures Buffered(order, hosts[v := s]) + multiset(Keys(hosts[v].host.buffer)) ==
            Buffered(order, hosts) + multiset(Keys(s.host.buffer))
  {
    var u, rest := order[0], order[1..];
    assert forall i :: 0 <= i < |rest| ==> rest[i] == order[i+1];
    var k, k' := multiset(Keys(hosts[v].host.buffer)), multiset(Keys(s.host.buffer));
    if u == v {
      BufferedElsewhere(rest, hosts, v, s);
      assert Buffered(order, hosts) == k + Buffered(rest, hosts);
      assert Buffered(order, hosts[v := s]) == k' + Buffered(rest, hosts);
    } else {
      assert v in rest;
      BufferedChange(rest, hosts, v, s);
      var a := if u in hosts then multiset(Keys(hosts[u].host.buffer)) else multiset{};
      assert Buffered(order, hosts) == a + Buffered(rest, hosts);
      assert Buffered(order, hosts[v := s]) == a + Buffered(rest, hosts[v := s]);
      assert (a + Buffered(rest, hosts[v := s])) + k == a + (Buffered(rest, hosts[v := s]) + k);
      assert (a + Buffered(rest, hosts)) + k' == a + (Buffered(rest, hosts) + k');
    }
  }

  lemma HostGains(order: seq<byte>, hosts: map<byte, S.Session>, v: byte, s: S.Session, q: Packet)
    requires Lists(order, hosts.Keys) && v in hosts && s.host.buffer == hosts[v].host.buffer + [q]
    ensures Buffered(order, hosts[v := s]) == Buffered(order, hosts) + multiset{KeyOf(q)}
  {
    BufferedChange(order, hosts, v, s);
    KeysOfChange(hosts[v].host.buffer, q);
    Cancel(Buffered(order, hosts[v := s]), Buffered(order, hosts) + multiset{KeyOf(q)},
           multiset(Keys(hosts[v].host.buffer)));
  }

  lemma HostLoses(order: seq<byte>, hosts: map<byte, S.Session>, v: byte, s: S.Session)
    requires Lists(order, hosts.Keys) && v in hosts && hosts[v].host.buffer != [] &&
             s.host.buffer == hosts[v].host.buffer[1..]
    ensures Buffered(order, hosts) == Buffered(order, hosts[v := s]) + multiset{KeyOf(hosts[v].host.buffer[0])}
  {
    var p := hosts[v].host.buffer[0];
    BufferedChange(order, hosts, v, s);
    KeysOfChange(hosts[v].host.buffer, p);
    Cancel(Buffered(order, hosts), Buffered(order, hosts[v := s]) + multiset{KeyOf(p)}, multiset(Keys(s.host.buffer)));
  }

  lemma Cancel<T>(a: multiset<T>, b: multiset<T>, c: multiset<T>)
    requires a + c == b + c
    ensures a == b
  {
    assert a == (a + c) - c && b == (b + c) - c;
  }

  lemma KeysOfChange(ps: seq<Packet>, p: Packet)
    ensures multiset(Keys(ps + [p])) == multiset(Keys(ps)) + multiset{KeyOf(p)}
    ensures ps != [] ==> multiset(Keys(ps)) == multiset{KeyOf(ps[0])} + multiset(Keys(ps[1..]))
  {
    assert Keys(ps + [p]) == Keys(ps) + [KeyOf(p)];
    if ps != [] {
      assert Keys(ps) == [KeyOf(ps[0])] + Keys(ps[1..]);
    }
  }

  lemma FrameKeysOfChange(fs: seq<Frame>, f: Frame, i: nat)
    ensures multiset(FrameKeys(fs + [f])) == multiset(FrameKeys(fs)) + multiset{FrameKey(f)}
    ensures i < |fs| ==>
              multiset(FrameKeys(fs)) == multiset{FrameKey(fs[i])} + multiset(FrameKeys(fs[..i] + fs[i+1..]))
  {
    assert FrameKeys(fs + [f]) == FrameKeys(fs) + [FrameKey(f)];
    if i < |fs| {
      var ks := FrameKeys(fs);
      assert FrameKeys(fs[..i] + fs[i+1..]) == ks[..i] + ks[i+1..];
      assert ks == ks[..i] + [ks[i]] + ks[i+1..];
    }
  }

  /** What ev changes, place by place. */
  ghost predicate Moves(w: World, ev: Event, w': World, v: byte, s': S.Session, sent: seq<Frame>, handed: seq<Ping>)
    requires ev.Arrive? ==> ev.i < |w.links|
  {
    && v in w.hosts && w'.hosts == w.hosts[v := s']
    && w'.links == (if ev.Arrive? then w.links[..ev.i] + w.links[ev.i+1..] else w.links) + sent
    && w'.delivered == w.delivered + handed
    && w'.injected == if ev.Inject? then w.injected + [ev.ping] else w.injected
  }

  lemma StepMoves(ts: TableMap, w: World, ev: Event)
    requires Enabled(ts, w, ev) && |S.Handle(w.hosts[Place(w, ev)].host, Local(ts, w, ev)).1| <= 1
    ensures var v, local := Place(w, ev), Local(ts, w, ev);
            var out := S.Handle(w.hosts[v].host, local).1;
            Moves(w, ev, After(ts, w, ev), v, S.Next(w.hosts[v], local),
                  if out != [] && out[0].Send? then [out[0].frame] else [],
                  if out != [] && out[0].ToApp? then [Ping(out[0].sdu.dest, v, out[0].sdu.payload)] else [])
  {
    SentByStep(S.Handle(w.hosts[Place(w, ev)].host, Local(ts, w, ev)).1);
  }

  lemma InjectMoves(g: Graph, ts: TableMap, w: World, p: Ping) returns (s': S.Session, q: Packet)
    requires Exact(g, ts) && NoBroadcast(g) && WorldOK(g, w) && Enabled(ts, w, Inject(p)) && Sensible(g, Inject(p))
    ensures Moves(w, Inject(p), After(ts, w, Inject(p)), p.src, s', [], [])
    ensures s'.host.buffer == w.hosts[p.src].host.buffer + [q] && KeyOf(q) == Cut(p)
  {
    var local := Local(ts, w, Inject(p));
    var s := w.hosts[p.src];
    s' := S.Next(s, local);
    StepFitsHost(g, ts, w, Inject(p));
    StepMoves(ts, w, Inject(p));
    q :| s'.host.buffer == s.host.buffer + [q] && KeyOf(q) == Cut(p);
  }

  lemma InjectConserves(g: Graph, ts: TableMap, order: seq<byte>, w: World, p: Ping)
    requires Exact(g, ts) && NoBroadcast(g) && WorldOK(g, w) && Enabled(ts, w, Inject(p)) && Sensible(g, Inject(p))
    requires Lists(order, w.hosts.Keys) && Conserved(order, w)
    ensures Conserved(order, After(ts, w, Inject(p)))
  {
    var s', q := InjectMoves(g, ts, w, p);
    InjectionConserves(order, w, After(ts, w, Inject(p)), p, s', q);
  }

  lemma InjectionConserves(order: seq<byte>, w: World, w': World, p: Ping, s': S.Session, q: Packet)
    requires Lists(order, w.hosts.Keys) && Conserved(order, w) && Moves(w, Inject(p), w', p.src, s', [], [])
    requires s'.host.buffer == w.hosts[p.src].host.buffer + [q] && KeyOf(q) == Cut(p)
    ensures Conserved(order, w')
  {
    HostGains(order, w.hosts, p.src, s', q);
    assert w.links + [] == w.links && w.delivered + [] == w.delivered;
    CutsGrow(w.injected, p);
    Rebalance(Buffered(order, w.hosts), multiset(FrameKeys(w.links)), multiset(w.delivered), Cut(p));
  }

  lemma CutsGrow(ps: seq<Ping>, p: Ping)
    ensures multiset(Cuts(ps + [p])) == multiset(Cuts(ps)) + multiset{Cut(p)}
  {
    assert Cuts(ps + [p]) == Cuts(ps) + [Cut(p)];
  }

  lemma RespondMoves(g: Graph, ts: TableMap, w: World, v: byte) returns (s': S.Session, f: Frame)
    requires Exact(g, ts) && NoBroadcast(g) && WorldOK(g, w) && Enabled(ts, w, Respond(v))
    ensures Moves(w, Respond(v), After(ts, w, Respond(v)), v, s', [f], [])
    ensures w.hosts[v].host.buffer != [] && s'.host.buffer == w.hosts[v].host.buffer[1..]
    ensures SentAs(w.hosts[v].host.buffer[0], f)
  {
    var local := Local(ts, w, Respond(v));
    var s := w.hosts[v];
    s' := S.Next(s, local);
    StepFitsHost(g, ts, w, Respond(v));
    StepMoves(ts, w, Respond(v));
    f :| S.Handle(s.host, local).1 == [Send(f)] && SentAs(s.host.buffer[0], f);
  }

  lemma RespondConserves(g: Graph, ts: TableMap, order: seq<byte>, w: World, v: byte)
    requires Exact(g, ts) && NoBroadcast(g) && WorldOK(g, w) && Enabled(ts, w, Respond(v))
    requires Lists(order, w.hosts.Keys) && Conserved(order, w)
    ensures Conserved(order, After(ts, w, Respond(v)))
  {
    var s', f := RespondMoves(g, ts, w, v);
    ResponseConserves(order, w, After(ts, w, Respond(v)), v, s', f);
  }

  lemma ResponseConserves(order: seq<byte>, w: World, w': World, v: byte, s': S.Session, f: Frame)
    requires Lists(order, w.hosts.Keys) && Conserved(order, w) && Moves(w, Respond(v), w', v, s', [f], [])
    requires w.hosts[v].host.buffer != [] && s'.host.buffer == w.hosts[v].host.buffer[1..]
    requires SentAs(w.hosts[v].host.buffer[0], f)
    ensures Conserved(order, w')
  {
    HostLoses(order, w.hosts, v, s');
    FrameKeysOfChange(w.links, f, 0);
    assert w.delivered + [] == w.delivered;
    Rebalance(Buffered(order, w.hosts[v := s']), multiset(FrameKeys(w.links)), multiset(w.delivered), FrameKey(f));
  }

  lemma ArriveMoves(g: Graph, ts: TableMap, w: World, i: nat) returns (s': S.Session)
    requires Exact(g, ts) && NoBroadcast(g) && WorldOK(g, w) && Enabled(ts, w, Arrive(i))
    ensures var f := w.links[i];
            var v := f.pdu.dest;
            v in w.hosts &&
            if FrameKey(f).dest == v
            then s' == w.hosts[v] && Moves(w, Arrive(i), After(ts, w, Arrive(i)), v, s', [], [FrameKey(f)])
            else Moves(w, Arrive(i), After(ts, w, Arrive(i)), v, s', [], []) &&
                 exists q :: s'.host.buffer == w.hosts[v].host.buffer + [q] && KeptAs(f, q)
  {
    var f, local := w.links[i], Local(ts, w, Arrive(i));
    var s := w.hosts[f.pdu.dest];
    s' := S.Next(s, local);
    StepFitsHost(g, ts, w, Arrive(i));
    StepMoves(ts, w, Arrive(i));
  }

  /** The three places a frame can move through. */
  lemma FrameLeavesLinks(w: World, i: nat)
    requires i < |w.links|
    ensures var rest := w.links[..i] + w.links[i+1..];
            && rest + [] == rest && w.delivered + [] == w.delivered
            && multiset(FrameKeys(w.links)) == multiset{FrameKey(w.links[i])} + multiset(FrameKeys(rest))
  {
    FrameKeysOfChange(w.links, w.links[i], i);
  }

  lemma ArriveConserves(g: Graph, ts: TableMap, order: seq<byte>, w: World, i: nat)
    requires Exact(g, ts) && NoBroadcast(g) && WorldOK(g, w) && Enabled(ts, w, Arrive(i))
    requires Lists(order, w.hosts.Keys) && Conserved(order, w)
    ensures Conserved(order, After(ts, w, Arrive(i)))
  {
    var w' := After(ts, w, Arrive(i));
    var s' := ArriveMoves(g, ts, w, i);
    ArrivalConserves(order, w, w', i, s');
  }

  lemma ArrivalConserves(order: seq<byte>, w: World, w': World, i: nat, s': S.Session)
    requires Lists(order, w.hosts.Keys) && Conserved(order, w) && i < |w.links|
    requires var f := w.links[i];
             var v := f.pdu.dest;
             v in w.hosts &&
             if FrameKey(f).dest == v
             then s' == w.hosts[v] && Moves(w, Arrive(i), w', v, s', [], [FrameKey(f)])
             else Moves(w, Arrive(i), w', v, s', [], []) &&
                  exists q :: s'.host.buffer == w.hosts[v].host.buffer + [q] && KeptAs(f, q)
    ensures Conserved(order, w')
  {
    var f := w.links[i];
    if FrameKey(f).dest == f.pdu.dest {
      HandingConserves(order, w, w', i, s');
    } else {
      var q :| s'.host.buffer == w.hosts[f.pdu.dest].host.buffer + [q] && KeptAs(f, q);
      KeepingConserves(order, w, w', i, s', q);
    }
  }

  lemma HandingConserves(order: seq<byte>, w: World, w': World, i: nat, s': S.Session)
    requires Conserved(order, w) && i < |w.links|
    requires var f := w.links[i];
             f.pdu.dest in w.hosts && s' == w.hosts[f.pdu.dest] &&
             Moves(w, Arrive(i), w', f.pdu.dest, s', [], [FrameKey(f)])
    ensures Conserved(order, w')
  {
    var rest := w.links[..i] + w.links[i+1..];
    FrameLeavesLinks(w, i);
    assert w'.hosts == w.hosts;
    Rebalance(Buffered(order, w.hosts), multiset(FrameKeys(rest)), multiset(w.delivered), FrameKey(w.links[i]));
  }

  lemma KeepingConserves(order: seq<byte>, w: World, w': World, i: nat, s': S.Session, q: Packet)
    requires Lists(order, w.hosts.Keys) && Conserved(order, w) && i < |w.links|
    requires var f := w.links[i];
             && f.pdu.dest in w.hosts && Moves(w, Arrive(i), w', f.pdu.dest, s', [], [])
             && s'.host.buffer == w.hosts[f.pdu.dest].host.buffer + [q] && KeptAs(f, q)
    ensures Conserved(order, w')
  {
    var f := w.links[i];
    var rest := w.links[..i] + w.links[i+1..];
    FrameLeavesLinks(w, i);
    HostGains(order, w.hosts, f.pdu.dest, s', q);
    Rebalance(Buffered(order, w.hosts), multiset(FrameKeys(rest)), multiset(w.delivered), FrameKey(f));
  }

  lemma Rebalance<T>(b: multiset<T>, l: multiset<T>, d: multiset<T>, k: T)
    ensures (b + multiset{k}) + l + d == b + l + d + multiset{k}
    ensures b + (l + multiset{k}) + d == b + l + d + multiset{k}
    ensures b + (multiset{k} + l) + d == b + l + d + multiset{k}
    ensures b + l + (d + multiset{k}) == b + l + d + multiset{k}
  {}

  /** One step moves at most one ping, and only injection adds one. */
  lemma StepConserves(g: Graph, ts: TableMap, order: seq<byte>, w: World, ev: Event)
    requires Exact(g, ts) && NoBroadcast(g) && WorldOK(g, w) && Enabled(ts, w, ev) && Sensible(g, ev)
    requires Lists(order, w.hosts.Keys) && Conserved(order, w)
    ensures Conserved(order, After(ts, w, ev))
  {
    match ev
    case Inject(p) => InjectConserves(g, ts, order, w, p);
    case Respond(v) => RespondConserves(g, ts, order, w, v);
    case Arrive(i) => ArriveConserves(g, ts, order, w, i);
  }

  // ---- runs ----

  ghost predicate Start(g: Graph, w: World) {
    && w.links == [] && w.delivered == [] && w.injected == [] && w.hosts.Keys == g.nodes
    && forall v :: v in w.hosts ==> HostOK(g, v, w.hosts[v]) && w.hosts[v].host.buffer == []
  }

  ghost predicate Run(g: Graph, ts: TableMap, ws: seq<World>, evs: seq<Event>) {
    && |ws| == |evs| + 1 && Start(g, ws[0])
    && forall i :: 0 <= i < |evs| ==> Step(g, ts, ws[i], evs[i], ws[i+1])
  }

  ghost predicate Step(g: Graph, ts: TableMap, w: World, ev: Event, w': World) {
    Enabled(ts, w, ev) && Sensible(g, ev) && w' == After(ts, w, ev)
  }

  lemma {:induction false} NothingBuffered(order: seq<byte>, hosts: map<byte, S.Session>)
    requires forall v :: v in hosts ==> hosts[v].host.buffer == []
    ensures Buffered(order, hosts) == multiset{}
  {
    if order == [] {
    } else {
      NothingBuffered(order[1..], hosts);
    }
  }

  lemma {:induction false} RunConserves(
      g: Graph, ts: TableMap, order: seq<byte>, ws: seq<World>, evs: seq<Event>, k: nat)
    requires Exact(g, ts) && NoBroadcast(g) && Run(g, ts, ws, evs) && Lists(order, g.nodes) && k <= |evs|
    ensures WorldOK(g, ws[k]) && Conserved(order, ws[k])
  {
    if k == 0 {
      NothingBuffered(order, ws[0].hosts);
    } else {
      RunConserves(g, ts, order, ws, evs, k - 1);
      assert Step(g, ts, ws[k-1], evs[k-1], ws[k-1+1]);
      StepKeepsWorld(g, ts, ws[k-1], evs[k-1]);
      StepConserves(g, ts, order, ws[k-1], evs[k-1]);
    }
  }

  ghost predicate AtRest(w: World) {
    w.links == [] && forall v :: v in w.hosts ==> w.hosts[v].host.buffer == []
  }

  /** Payloads that are carried whole: no NUL, and at most MAX_PAYLOAD bytes. */
  predicate AllWhole(ps: seq<Ping>) {
    forall i :: 0 <= i < |ps| ==> 0 !in ps[i].payload && |ps[i].payload| <= MAX_PAYLOAD
  }

  lemma WholePingsAreUncut(ps: seq<Ping>)
    ensures Cuts(ps) == ps <==> AllWhole(ps)
  {
    forall i | 0 <= i < |ps|
      ensures Cut(ps[i]) == ps[i] <==> 0 !in ps[i].payload && |ps[i].payload| <= MAX_PAYLOAD
    {
      CarriedWholeIff(ps[i].payload);
    }
    if Cuts(ps) == ps {
      assert forall i :: 0 <= i < |ps| ==> Cuts(ps)[i] == ps[i];
    }
  }

  /** Delivery under traffic. In every interleaving of any number of pings over exact tables, with resolved next hops
      and no refused push, what has been delivered is part of what was injected, each ping at its destination with its
      source and its payload as far as it is carried, and no more often than injected; when the network is at rest, all
      of it has been delivered, and byte for byte if no payload holds a NUL or more than 510 bytes. */
  lemma ExactlyOnceDelivery(g: Graph, ts: TableMap, order: seq<byte>, ws: seq<World>, evs: seq<Event>, k: nat)
    requires Exact(g, ts) && NoBroadcast(g) && Run(g, ts, ws, evs) && Lists(order, g.nodes) && k <= |evs|
    ensures multiset(ws[k].delivered) <= multiset(Cuts(ws[k].injected))
    ensures AtRest(ws[k]) ==> multiset(ws[k].delivered) == multiset(Cuts(ws[k].injected))
    ensures AtRest(ws[k]) && AllWhole(ws[k].injected) ==> multiset(ws[k].delivered) == multiset(ws[k].injected)
  {
    RunConserves(g, ts, order, ws, evs, k);
    WholePingsAreUncut(ws[k].injected);
    if AtRest(ws[k]) {
      NothingBuffered(order, ws[k].hosts);
    }
  }

  lemma EndOfWay(g: Graph, f: Frame)
    requires FrameOK(g, f) && f.body[0] == f.pdu.dest
    ensures IsDistance(g, f.pdu.src, f.pdu.dest, Travelled(f.pdu.ttl) + 1)
  {
    var d := f.pdu.dest;
    var k: nat :| OnCourse(g, f.pdu.src, d, d, Travelled(f.pdu.ttl) + 1, k);
    assert Walk(g, d, d, 0);
  }

  /** A frame that reaches its destination in any such run has come exactly the distance from its source: as many
      links as its time to live was counted down, plus the first. */
  lemma DeliveredAfterDistance(
      g: Graph, ts: TableMap, order: seq<byte>, ws: seq<World>, evs: seq<Event>, k: nat, i: nat)
    requires Exact(g, ts) && NoBroadcast(g) && Run(g, ts, ws, evs) && Lists(order, g.nodes) && k <= |evs|
    requires i < |ws[k].links| && |ws[k].links[i].body| >= 2 && ws[k].links[i].body[0] == ws[k].links[i].pdu.dest
    ensures var f := ws[k].links[i];
            IsDistance(g, f.pdu.src, f.pdu.dest, Travelled(f.pdu.ttl) + 1)
  {
    RunConserves(g, ts, order, ws, evs, k);
    var f := ws[k].links[i];
    assert f in ws[k].links && FrameOK(g, f);
    EndOfWay(g, f);
  }

  /** A ping can be injected at any host whose buffer has room. */
  lemma RoomToInject(g: Graph, ts: TableMap, w: World, p: Ping)
    requires WorldOK(g, w) && p.src in g.nodes
    ensures Enabled(ts, w, Inject(p)) <==> |w.hosts[p.src].host.buffer| != w.hosts[p.src].host.cap
  {}

  /** Until it is at rest, the network can go on by itself. */
  lemma NeverStuck(g: Graph, ts: TableMap, w: World)
    requires Exact(g, ts) && NoBroadcast(g) && WorldOK(g, w) && !AtRest(w)
    ensures exists ev: Event :: !ev.Inject? && Enabled(ts, w, ev)
  {
    if v :| v in w.hosts && w.hosts[v].host.buffer != [] {
      BufferedCanLeave(g, ts, w, v);
    } else {
      FirstFrameCanArrive(g, ts, w);
    }
  }

  lemma BufferedCanLeave(g: Graph, ts: TableMap, w: World, v: byte)
    requires Exact(g, ts) && NoBroadcast(g) && WorldOK(g, w) && v in w.hosts && w.hosts[v].host.buffer != []
    ensures Enabled(ts, w, Respond(v))
  {
    assert HostOK(g, v, w.hosts[v]);
    assert |w.hosts[v].pending| == |w.hosts[v].host.buffer|;
    RespondFits(g, ts, v, w.hosts[v]);
  }

  lemma FirstFrameCanArrive(g: Graph, ts: TableMap, w: World)
    requires WorldOK(g, w) && w.links != [] && forall v :: v in w.hosts ==> w.hosts[v].host.buffer == []
    ensures Enabled(ts, w, Arrive(0))
  {
    var f := w.links[0];
    assert f in w.links && FrameOK(g, f);
    var k: nat :| OnCourse(g, f.pdu.src, f.pdu.dest, f.body[0], Travelled(f.pdu.ttl) + 1, k);
    assert HostOK(g, f.pdu.dest, w.hosts[f.pdu.dest]);
    ArriveFits(g, f.pdu.dest, w.hosts[f.pdu.dest], f, 0);
  }
}
