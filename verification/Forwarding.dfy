/** All hosts forwarding at once: many pings, any interleaving, one FIFO of requests per host. */
module Forwarding {
  import opened Bytes
  import opened Tables
  import opened Graphs
  import opened Daemon
  import opened Exactness
  import S = Sessions

  /** A ping as its sender meant it. */
  datatype Ping = Ping(src: byte, dest: byte, payload: seq<byte>)

  /** links holds the frames sent and not yet received, in no particular order; delivered and injected are the pings
      handed to and taken from applications. */
  datatype World = World(hosts: map<byte, S.Session>, links: seq<Frame>, delivered: seq<Ping>, injected: seq<Ping>)

  datatype Event = Inject(ping: Ping) | Arrive(i: nat) | Respond(v: byte)

  function Reply(t: Table, d: byte): byte {
    if Lookup(t, d).Some? then Lookup(t, d).value.nextHop else NO_ROUTE
  }

  /** The host at which ev happens, and what happens to it. */
  function Place(w: World, ev: Event): byte
    requires ev.Arrive? ==> ev.i < |w.links|
  {
    match ev
    case Inject(p) => p.src
    case Arrive(i) => w.links[i].pdu.dest
    case Respond(v) => v
  }

  function Local(ts: TableMap, w: World, ev: Event): S.Event
    requires ev.Arrive? ==> ev.i < |w.links|
    requires ev.Respond? ==> ev.v in w.hosts && ev.v in ts && w.hosts[ev.v].pending != []
  {
    match ev
    case Inject(p) => S.App(Sdu(p.dest, 0, p.payload))
    case Arrive(i) => S.Link(w.links[i])
    case Respond(v) => S.Answer(Reply(ts[v], w.hosts[v].pending[0]))
  }

  /** ev can happen, and no push is refused by a full buffer. */
  predicate Enabled(ts: TableMap, w: World, ev: Event) {
    && (ev.Arrive? ==> ev.i < |w.links|)
    && (ev.Respond? ==> ev.v in w.hosts && ev.v in ts && w.hosts[ev.v].pending != [])
    && Place(w, ev) in w.hosts
    && S.Enabled(w.hosts[Place(w, ev)], Local(ts, w, ev))
    && (!ev.Respond? ==> S.Smooth(w.hosts[Place(w, ev)], Local(ts, w, ev)))
  }

  function Sent(out: seq<Action>): seq<Frame> {
    if out == [] then [] else (if out[0].Send? then [out[0].frame] else []) + Sent(out[1..])
  }

  function Handed(at: byte, out: seq<Action>): seq<Ping> {
    if out == [] then []
    else (if out[0].ToApp? then [Ping(out[0].sdu.dest, at, out[0].sdu.payload)] else []) + Handed(at, out[1..])
  }

  function After(ts: TableMap, w: World, ev: Event): World
    requires Enabled(ts, w, ev)
  {
    var v, local := Place(w, ev), Local(ts, w, ev);
    var out := S.Handle(w.hosts[v].host, local).1;
    var links := if ev.Arrive? then w.links[..ev.i] + w.links[ev.i+1..] else w.links;
    World(w.hosts[v := S.Next(w.hosts[v], local)], links + Sent(out), w.delivered + Handed(v, out),
          if ev.Inject? then w.injected + [ev.ping] else w.injected)
  }

  // ---- every packet is on course ----

  /** How many hosts have forwarded a ping sent with DEFAULT_TTL. */
  function Travelled(ttl: nibble): nibble {
    (16 - ttl) % 16
  }

  /** The ping has come `done` links on a shortest path of at most 16, and v is the k links before its end. */
  ghost predicate OnCourse(g: Graph, src: byte, v: byte, d: byte, done: nat, k: nat) {
    src in g.nodes && v in g.nodes && IsDistance(g, v, d, k) && IsDistance(g, src, d, k + done) && k + done <= 16
  }

  ghost predicate OnWay(g: Graph, src: byte, v: byte, d: byte, done: nat) {
    exists k: nat :: OnCourse(g, src, v, d, done, k)
  }

  ghost predicate PacketOK(g: Graph, v: byte, p: Packet) {
    p.pdu.sduType == MIP_PING && p.pdu.sduLen == |Text(p.sdu.payload)| && p.sdu.dest != v &&
    OnWay(g, p.pdu.src, v, p.sdu.dest, Travelled(p.pdu.ttl))
  }

  ghost predicate FrameOK(g: Graph, f: Frame) {
    IsPing(f) && OnWay(g, f.pdu.src, f.pdu.dest, f.body[0], Travelled(f.pdu.ttl) + 1)
  }

  ghost predicate HostOK(g: Graph, v: byte, s: S.Session) {
    && s.host.self == v && s.host.cap > 0 && S.Paired(s)
    && (forall u :: Adjacent(g, v, u) ==> u in s.host.arp)
    && (forall p :: p in s.host.buffer ==> PacketOK(g, v, p))
  }

  ghost predicate WorldOK(g: Graph, w: World) {
    && w.hosts.Keys == g.nodes
    && HostsOK(g, w.hosts)
    && (forall f :: f in w.links ==> FrameOK(g, f))
  }

  ghost predicate HostsOK(g: Graph, hosts: map<byte, S.Session>) {
    forall v :: v in hosts ==> HostOK(g, v, hosts[v])
  }

  /** Applications ping other hosts at distance 16 at most. */
  ghost predicate Sensible(g: Graph, ev: Event) {
    ev.Inject? ==> ev.ping.src in g.nodes && ev.ping.src != ev.ping.dest &&
                   exists k: nat :: k <= 16 && IsDistance(g, ev.ping.src, ev.ping.dest, k)
  }

  /** What a step does besides changing its host: nothing expires and nothing is discarded. */
  ghost predicate StepFits(
      g: Graph, s: S.Session, s': S.Session, v: byte, ev: Event, local: S.Event, out: seq<Action>)
  {
    && HostOK(g, v, s')
    && (match ev
        case Inject(p) =>
          out == [Request(p.dest)] && exists q :: s'.host.buffer == s.host.buffer + [q] && KeyOf(q) == Cut(p)
        case Respond(_) =>
          exists f :: out == [Send(f)] && FrameOK(g, f) && s.host.buffer != [] &&
                      SentAs(s.host.buffer[0], f) && s'.host.buffer == s.host.buffer[1..]
        case Arrive(_) =>
          local.Link? && IsPing(local.frame) &&
          if local.frame.body[0] == v
          then (exists sdu :: out == [ToApp(sdu)] && Ping(sdu.dest, v, sdu.payload) == FrameKey(local.frame)) && s' == s
          else out == [Request(local.frame.body[0])] &&
               exists q :: s'.host.buffer == s.host.buffer + [q] && KeptAs(local.frame, q))
  }

  /** f is what is sent for p. */
  predicate SentAs(p: Packet, f: Frame) {
    FrameKey(f) == KeyOf(p) && f.pdu.ttl == p.pdu.ttl
  }

  /** p is what a host that forwards f buffers. */
  predicate KeptAs(f: Frame, p: Packet) {
    KeyOf(p) == FrameKey(f) && p.pdu.ttl == Decrement(f.pdu.ttl) != 0
  }

  function KeyOf(p: Packet): Ping {
    Ping(p.pdu.src, p.sdu.dest, Text(p.sdu.payload))
  }

  /** What of a ping is carried: its payload up to the first NUL, and at most MAX_PAYLOAD bytes of it. */
  function Cut(p: Ping): Ping {
    p.(payload := Carried(p.payload))
  }

  function FrameKey(f: Frame): Ping {
    if |f.body| >= 2 then Ping(f.pdu.src, f.body[0], f.body[2..]) else Ping(f.pdu.src, 0, [])
  }

  lemma PushFits(g: Graph, v: byte, s: S.Session, local: S.Event, q: Packet)
    requires HostOK(g, v, s) && S.Enabled(s, local) && S.Smooth(s, local) && (local.App? || local.Link?)
    requires S.Arriving(s.host, local) == Some(q) && PacketOK(g, v, q)
    ensures HostOK(g, v, S.Next(s, local)) && S.Next(s, local).host.buffer == s.host.buffer + [q]
  {
    S.PairingKeptIff(s, local);
    S.ArrivalIsPushed(s, local);
  }

  lemma InjectFits(g: Graph, v: byte, s: S.Session, p: Ping)
    requires HostOK(g, v, s) && p.src == v && Sensible(g, Inject(p))
    requires S.Smooth(s, S.App(Sdu(p.dest, 0, p.payload)))
    ensures var local := S.App(Sdu(p.dest, 0, p.payload));
            StepFits(g, s, S.Next(s, local), v, Inject(p), local, S.Handle(s.host, local).1)
  {
    var local := S.App(Sdu(p.dest, 0, p.payload));
    var q := AppPacket(v, local.sdu);
    var k: nat :| k <= 16 && IsDistance(g, v, p.dest, k);
    assert OnCourse(g, v, v, p.dest, Travelled(q.pdu.ttl), k);
    PushFits(g, v, s, local, q);
    assert KeyOf(q) == Cut(p);
  }

  /** The next hop looked up on the way is a neighbour, and one link further along. */
  lemma NextLeg(g: Graph, ts: TableMap, src: byte, v: byte, d: byte, done: nat) returns (nextHop: byte)
    requires Exact(g, ts) && NoBroadcast(g) && v in ts && v != d && OnWay(g, src, v, d, done)
    ensures nextHop == Reply(ts[v], d) != NO_ROUTE && Adjacent(g, v, nextHop)
    ensures OnWay(g, src, nextHop, d, done + 1)
  {
    var k: nat :| OnCourse(g, src, v, d, done, k);
    assert ExactFor(g, ts, v, d) && Reachable(g, v, d);
    NextHopIsCloser(g, ts, v, d);
    nextHop := Reply(ts[v], d);
    DistanceUnique(g, v, d, k, Lookup(ts[v], d).value.hops);
    assert OnCourse(g, src, nextHop, d, done + 1, k - 1);
  }

  lemma RespondFits(g: Graph, ts: TableMap, v: byte, s: S.Session)
    requires Exact(g, ts) && NoBroadcast(g) && v in ts && HostOK(g, v, s) && s.pending != []
    ensures var local := S.Answer(Reply(ts[v], s.pending[0]));
            && S.Enabled(s, local) && S.Smooth(s, local)
            && StepFits(g, s, S.Next(s, local), v, Respond(v), local, S.Handle(s.host, local).1)
  {
    var p, d := s.host.buffer[0], s.pending[0];
    assert p in s.host.buffer && PacketOK(g, v, p);
    assert d == S.Dests(s.host.buffer)[0] == p.sdu.dest;
    var nextHop := NextLeg(g, ts, p.pdu.src, v, d, Travelled(p.pdu.ttl));
    AnswerFits(g, v, s, nextHop);
  }

  lemma AnswerFits(g: Graph, v: byte, s: S.Session, nextHop: byte)
    requires HostOK(g, v, s) && s.host.buffer != [] && nextHop != NO_ROUTE && nextHop in s.host.arp
    requires var p := s.host.buffer[0]; OnWay(g, p.pdu.src, nextHop, p.sdu.dest, Travelled(p.pdu.ttl) + 1)
    ensures var local := S.Answer(nextHop);
            && S.Enabled(s, local) && S.Smooth(s, local)
            && StepFits(g, s, S.Next(s, local), v, Respond(v), local, S.Handle(s.host, local).1)
  {
    AnswerKeepsHost(g, v, s, nextHop);
    var f := AnswerSends(g, v, s, nextHop);
  }

  lemma AnswerKeepsHost(g: Graph, v: byte, s: S.Session, nextHop: byte)
    requires HostOK(g, v, s) && s.host.buffer != [] && nextHop != NO_ROUTE && nextHop in s.host.arp
    ensures S.Enabled(s, S.Answer(nextHop)) && S.Smooth(s, S.Answer(nextHop))
    ensures var s' := S.Next(s, S.Answer(nextHop));
            HostOK(g, v, s') && s'.host == s.host.(buffer := s.host.buffer[1..])
  {
    var local := S.Answer(nextHop);
    S.AnswerReachesItsPacket(s, nextHop);
    S.PairingKeptIff(s, local);
    var s' := S.Next(s, local);
    assert s'.host.buffer == s.host.buffer[1..];
    assert forall p :: p in s'.host.buffer ==> p in s.host.buffer;
  }

  lemma AnswerSends(g: Graph, v: byte, s: S.Session, nextHop: byte) returns (f: Frame)
    requires HostOK(g, v, s) && s.host.buffer != [] && nextHop != NO_ROUTE && nextHop in s.host.arp
    requires var p := s.host.buffer[0]; OnWay(g, p.pdu.src, nextHop, p.sdu.dest, Travelled(p.pdu.ttl) + 1)
    ensures S.Enabled(s, S.Answer(nextHop)) && S.Handle(s.host, S.Answer(nextHop)).1 == [Send(f)]
    ensures FrameOK(g, f) && SentAs(s.host.buffer[0], f)
  {
    var p := s.host.buffer[0];
    S.AnswerReachesItsPacket(s, nextHop);
    assert p in s.host.buffer && PacketOK(g, v, p);
    SentIsGood(g, v, p, nextHop);
    f := Frame(Routed(p, nextHop).pdu, Body(Routed(p, nextHop)));
  }

  lemma SentIsGood(g: Graph, v: byte, p: Packet, nextHop: byte)
    requires PacketOK(g, v, p) && OnWay(g, p.pdu.src, nextHop, p.sdu.dest, Travelled(p.pdu.ttl) + 1)
    ensures var r := Routed(p, nextHop);
            FrameOK(g, Frame(r.pdu, Body(r))) && SentAs(p, Frame(r.pdu, Body(r)))
  {
    assert Body(Routed(p, nextHop))[2..] == Text(p.sdu.payload);
  }

  lemma CountedDown(ttl: nibble)
    ensures Decrement(ttl) == 0 <==> Travelled(ttl) == 15
    ensures Travelled(ttl) < 15 ==> Travelled(Decrement(ttl)) == Travelled(ttl) + 1
  {}

  lemma WholePayload(f: Frame)
    requires IsPing(f)
    ensures Deserialize(f.body, f.pdu.sduLen).payload == f.body[2..] == Text(f.body[2..])
  {
    assert f.body[2..f.pdu.sduLen+2] == f.body[2..];
    TextIs(f.body[2..], f.body[2..]);
  }

  /** A frame on course that has not arrived can be forwarded once more. */
  lemma ForwardedOnCourse(g: Graph, v: byte, f: Frame)
    requires FrameOK(g, f) && f.pdu.dest == v && f.body[0] != v
    ensures Decrement(f.pdu.ttl) != 0
    ensures PacketOK(g, v, Packet(f.pdu.(ttl := Decrement(f.pdu.ttl)), Deserialize(f.body, f.pdu.sduLen)))
  {
    var d, done := f.body[0], Travelled(f.pdu.ttl) + 1;
    WholePayload(f);
    var k: nat :| OnCourse(g, f.pdu.src, v, d, done, k);
    assert k > 0 by { assert Walk(g, v, d, k); }
    CountedDown(f.pdu.ttl);
    assert OnCourse(g, f.pdu.src, v, d, Travelled(Decrement(f.pdu.ttl)), k);
  }

  lemma ArriveFits(g: Graph, v: byte, s: S.Session, f: Frame, i: nat)
    requires HostOK(g, v, s) && FrameOK(g, f) && f.pdu.dest == v && S.Smooth(s, S.Link(f))
    ensures S.Enabled(s, S.Link(f))
    ensures StepFits(g, s, S.Next(s, S.Link(f)), v, Arrive(i), S.Link(f), S.Handle(s.host, S.Link(f)).1)
  {
    var local := S.Link(f);
    WholePayload(f);
    if f.body[0] == v {
      S.ArrivalIsPushed(s, local);
    } else {
      ForwardedOnCourse(g, v, f);
      var q := Packet(f.pdu.(ttl := Decrement(f.pdu.ttl)), Deserialize(f.body, f.pdu.sduLen));
      PushFits(g, v, s, local, q);
      assert KeptAs(f, q);
    }
  }

  lemma StepFitsHost(g: Graph, ts: TableMap, w: World, ev: Event)
    requires Exact(g, ts) && NoBroadcast(g) && WorldOK(g, w) && Enabled(ts, w, ev) && Sensible(g, ev)
    ensures var v, local := Place(w, ev), Local(ts, w, ev);
            StepFits(g, w.hosts[v], S.Next(w.hosts[v], local), v, ev, local, S.Handle(w.hosts[v].host, local).1)
  {
    var v := Place(w, ev);
    assert HostOK(g, v, w.hosts[v]);
    match ev
    case Inject(p) => InjectFits(g, v, w.hosts[v], p);
    case Respond(_) => RespondFits(g, ts, v, w.hosts[v]);
    case Arrive(i) =>
      assert w.links[i] in w.links;
      ArriveFits(g, v, w.hosts[v], w.links[i], i);
  }

  lemma SentByStep(out: seq<Action>)
    requires |out| <= 1
    ensures Sent(out) == if out != [] && out[0].Send? then [out[0].frame] else []
    ensures forall v :: Handed(v, out) ==
              if out != [] && out[0].ToApp? then [Ping(out[0].sdu.dest, v, out[0].sdu.payload)] else []
  {
    assert out != [] ==> out[1..] == [];
  }

  lemma FittingActionsSendGoodFrames(
      g: Graph, s: S.Session, s': S.Session, v: byte, ev: Event, local: S.Event, out: seq<Action>)
    requires StepFits(g, s, s', v, ev, local, out)
    ensures |out| == 1 && forall f :: f in Sent(out) ==> FrameOK(g, f)
  {
    SentByStep(if |out| <= 1 then out else []);
  }

  lemma StepKeepsWorld(g: Graph, ts: TableMap, w: World, ev: Event)
    requires Exact(g, ts) && NoBroadcast(g) && WorldOK(g, w) && Enabled(ts, w, ev) && Sensible(g, ev)
    ensures WorldOK(g, After(ts, w, ev))
  {
    var v, local := Place(w, ev), Local(ts, w, ev);
    var s', out := S.Next(w.hosts[v], local), S.Handle(w.hosts[v].host, local).1;
    StepFitsHost(g, ts, w, ev);
    FittingActionsSendGoodFrames(g, w.hosts[v], s', v, ev, local, out);
    LinksStayGood(g, w.links, if ev.Arrive? then ev.i else |w.links|, Sent(out));
    HostsStayGood(g, w.hosts, v, s');
  }

  lemma LinksStayGood(g: Graph, links: seq<Frame>, i: nat, sent: seq<Frame>)
    requires forall f :: f in links || f in sent ==> FrameOK(g, f)
    ensures forall f :: f in links + sent ==> FrameOK(g, f)
    ensures i < |links| ==> forall f :: f in links[..i] + links[i+1..] + sent ==> FrameOK(g, f)
  {}

  lemma HostsStayGood(g: Graph, hosts: map<byte, S.Session>, v: byte, s: S.Session)
    requires hosts.Keys == g.nodes && v in hosts && HostOK(g, v, s) && HostsOK(g, hosts)
    ensures hosts[v := s].Keys == g.nodes && HostsOK(g, hosts[v := s])
  {}
}
