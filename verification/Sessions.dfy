/** The daemon together with its routing daemon. Requests and responses carry no packet identity, so everything rests
    on their order: the oldest request outstanding must be that of the oldest packet buffered. */
module Sessions {
  import opened Bytes
  import opened Daemon

  /** pending: destinations asked for and not yet answered, in request order. */
  datatype Session = Session(host: Host, pending: seq<byte>)

  datatype Event = App(sdu: Sdu) | Link(frame: Frame) | Answer(nextHop: byte) | ArpResponse(addr: byte)

  predicate Enabled(s: Session, ev: Event) {
    match ev
    case App(sdu) => true
    case Link(f) => IsData(f) && (f.pdu.sduType == MIP_PING || f.pdu.sduType == MIP_ROUTING)   // others end the daemon
    case Answer(nh) => s.pending != [] && (nh == NO_ROUTE ==> s.host.buffer != [])
    case ArpResponse(a) => |s.host.arp| < MAX_TABLE_SIZE   // a full table ends the daemon
  }

  function Handle(h: Host, ev: Event): (Host, seq<Action>)
    requires Enabled(Session(h, [0]), ev)
  {
    match ev
    case App(sdu) => OnApp(h, sdu)
    case Link(f) => OnFrame(h, f)
    case Answer(nh) => OnResponse(h, nh)
    case ArpResponse(a) => OnArpResponse(h, a)
  }

  function Requests(out: seq<Action>): seq<byte> {
    if out == [] then [] else (if out[0].Request? then [out[0].dest] else []) + Requests(out[1..])
  }

  function Next(s: Session, ev: Event): Session
    requires Enabled(s, ev)
  {
    var (h, out) := Handle(s.host, ev);
    Session(h, (if ev.Answer? then s.pending[1..] else s.pending) + Requests(out))
  }

  function Dests(ps: seq<Packet>): (r: seq<byte>)
    ensures |r| == |ps|
  {
    seq(|ps|, i requires 0 <= i < |ps| => ps[i].sdu.dest)
  }

  /** Request number i is about buffered packet number i. */
  predicate Paired(s: Session) {
    s.pending == Dests(s.host.buffer)
  }

  /** The packet that ev asks the daemon to buffer, if any. */
  function Arriving(h: Host, ev: Event): Option<Packet> {
    match ev
    case App(sdu) => Some(AppPacket(h.self, sdu))
    case Link(f) =>
      if IsData(f) && f.pdu.sduType == MIP_PING && f.body[0] != h.self && Decrement(f.pdu.ttl) != 0
      then Some(Packet(f.pdu.(ttl := Decrement(f.pdu.ttl)), Deserialize(f.body, f.pdu.sduLen)))
      else None
    case _ => None
  }

  /** No refused push, no unresolved next hop, and no ARP response while packets wait. */
  predicate Smooth(s: Session, ev: Event) {
    match ev
    case Answer(nh) => nh == NO_ROUTE || nh in s.host.arp
    case ArpResponse(a) => s.host.buffer == []
    case _ => Arriving(s.host, ev).Some? ==> |s.host.buffer| != s.host.cap
  }

  lemma ArrivalIsPushed(s: Session, ev: Event)
    requires Enabled(s, ev) && (ev.App? || ev.Link?)
    ensures Next(s, ev) == match Arriving(s.host, ev)
                           case Some(p) => Session(Push(s.host, p), s.pending + [p.sdu.dest])
                           case None => s
  {
    var out := Handle(s.host, ev).1;
    assert out != [] ==> out[1..] == [];
    assert Requests(out) == if Arriving(s.host, ev).Some? then [Arriving(s.host, ev).value.sdu.dest] else [];
    assert s.pending + [] == s.pending;
  }

  /** Pairing survives a step exactly when the step is smooth. */
  lemma PairingKeptIff(s: Session, ev: Event)
    requires Enabled(s, ev) && Paired(s)
    ensures Paired(Next(s, ev)) <==> Smooth(s, ev)
  {
    var s' := Next(s, ev);
    match ev
    case Answer(nh) =>
      assert s'.pending == s.pending[1..] by { assert Requests(Handle(s.host, ev).1) == []; }
      assert Dests(s.host.buffer[1..]) == Dests(s.host.buffer)[1..];
    case ArpResponse(a) =>
      assert s'.pending == s.pending by { assert Requests(Handle(s.host, ev).1) == []; }
    case _ =>
      ArrivalIsPushed(s, ev);
      if Arriving(s.host, ev).Some? {
        var p := Arriving(s.host, ev).value;
        assert Dests(s.host.buffer + [p]) == Dests(s.host.buffer) + [p.sdu.dest];
      }
  }

  /** In a paired session an answer is applied to the packet whose destination was asked for. */
  lemma AnswerReachesItsPacket(s: Session, nextHop: byte)
    requires Enabled(s, Answer(nextHop)) && Paired(s) && Smooth(s, Answer(nextHop))
    ensures s.host.buffer != [] && s.host.buffer[0].sdu.dest == s.pending[0]
    ensures Handle(s.host, Answer(nextHop)) ==
            (s.host.(buffer := s.host.buffer[1..]),
             if nextHop == NO_ROUTE then [Discard(s.host.buffer[0])]
             else [Send(Frame(Routed(s.host.buffer[0], nextHop).pdu, Body(Routed(s.host.buffer[0], nextHop))))])
  {
    assert s.pending[0] == Dests(s.host.buffer)[0];
  }

  // ---- whole runs ----

  /** What of a packet no handler changes while it is buffered: the payload is what will be sent of it. */
  datatype Core = Core(src: byte, dest: byte, ttl: nibble, payload: seq<byte>)

  function CoreOf(p: Packet): Core {
    Core(p.pdu.src, p.sdu.dest, p.pdu.ttl, Fit(Text(p.sdu.payload), p.pdu.sduLen))
  }

  function Cores(ps: seq<Packet>): (r: seq<Core>)
    ensures |r| == |ps|
  {
    seq(|ps|, i requires 0 <= i < |ps| => CoreOf(ps[i]))
  }

  /** A packet that has left: sent to a next hop, or destroyed (NO_ROUTE). */
  datatype Departure = Departure(core: Core, nextHop: byte)

  function Left(out: seq<Action>): seq<Departure> {
    if out == [] then []
    else (match out[0]
          case Send(f) =>
            if |f.body| >= 2 then [Departure(Core(f.pdu.src, f.body[0], f.pdu.ttl, f.body[2..]), f.pdu.dest)] else []
          case Discard(p) => [Departure(CoreOf(p), NO_ROUTE)]
          case _ => []) + Left(out[1..])
  }

  ghost predicate SmoothRun(s: Session, evs: seq<Event>)
    decreases |evs|
  {
    evs == [] || (Enabled(s, evs[0]) && Smooth(s, evs[0]) && SmoothRun(Next(s, evs[0]), evs[1..]))
  }

  ghost function RunTo(s: Session, evs: seq<Event>): Session
    requires SmoothRun(s, evs)
    decreases |evs|
  {
    if evs == [] then s else RunTo(Next(s, evs[0]), evs[1..])
  }

  /** Packets taken in during a run, in order. */
  ghost function Accepted(s: Session, evs: seq<Event>): seq<Core>
    requires SmoothRun(s, evs)
    decreases |evs|
  {
    if evs == [] then []
    else
      var a := Arriving(s.host, evs[0]);
      (if a.Some? then [CoreOf(a.value)] else []) + Accepted(Next(s, evs[0]), evs[1..])
  }

  /** Packets that left during a run, in order. */
  ghost function Departed(s: Session, evs: seq<Event>): seq<Departure>
    requires SmoothRun(s, evs)
    decreases |evs|
  {
    if evs == [] then [] else Left(Handle(s.host, evs[0]).1) + Departed(Next(s, evs[0]), evs[1..])
  }

  /** The answers of a run, in order. */
  function Answers(evs: seq<Event>): seq<byte> {
    if evs == [] then [] else (if evs[0].Answer? then [evs[0].nextHop] else []) + Answers(evs[1..])
  }

  function CoresLeft(ds: seq<Departure>): (r: seq<Core>)
    ensures |r| == |ds|
  {
    seq(|ds|, i requires 0 <= i < |ds| => ds[i].core)
  }

  function HopsTaken(ds: seq<Departure>): (r: seq<byte>)
    ensures |r| == |ds|
  {
    seq(|ds|, i requires 0 <= i < |ds| => ds[i].nextHop)
  }

  /** What goes in and out in one step: packets taken in, packets that left, and what stays buffered. */
  ghost predicate Flows(s: Session, ev: Event)
    requires Enabled(s, ev)
  {
    var a, left := Arriving(s.host, ev), Left(Handle(s.host, ev).1);
    && Cores(s.host.buffer) + (if a.Some? then [CoreOf(a.value)] else []) ==
       CoresLeft(left) + Cores(Next(s, ev).host.buffer)
    && HopsTaken(left) == if ev.Answer? then [ev.nextHop] else []
  }

  /** What an answered packet leaves as is the packet itself. */
  lemma SentPacketLeaves(p: Packet, nextHop: byte)
    ensures Left([Send(Frame(Routed(p, nextHop).pdu, Body(Routed(p, nextHop))))]) == [Departure(CoreOf(p), nextHop)]
    ensures Left([Discard(p)]) == [Departure(CoreOf(p), NO_ROUTE)]
  {
    var r := Routed(p, nextHop);
    assert Body(r)[2..] == Fit(Text(p.sdu.payload), p.pdu.sduLen);
  }

  lemma AnswerFlows(s: Session, nextHop: byte)
    requires Enabled(s, Answer(nextHop)) && Smooth(s, Answer(nextHop)) && Paired(s)
    ensures Flows(s, Answer(nextHop))
  {
    AnswerReachesItsPacket(s, nextHop);
    var d := Departure(CoreOf(s.host.buffer[0]), nextHop);
    SentPacketLeaves(s.host.buffer[0], nextHop);
    assert Left(Handle(s.host, Answer(nextHop)).1) == [d];
    FirstLeaves(s.host.buffer, nextHop);
  }

  lemma FirstLeaves(ps: seq<Packet>, nextHop: byte)
    requires ps != []
    ensures var d := Departure(CoreOf(ps[0]), nextHop);
            Cores(ps) + [] == CoresLeft([d]) + Cores(ps[1..]) && HopsTaken([d]) == [nextHop]
  {
    assert Cores(ps) == [CoreOf(ps[0])] + Cores(ps[1..]);
  }

  lemma ArrivalFlows(s: Session, ev: Event)
    requires Enabled(s, ev) && Smooth(s, ev) && (ev.App? || ev.Link?)
    ensures Flows(s, ev)
  {
    ArrivalIsPushed(s, ev);
    var a, out := Arriving(s.host, ev), Handle(s.host, ev).1;
    assert Left(out) == [] by { assert out != [] ==> out[1..] == []; }
    if a.Some? {
      assert Cores(s.host.buffer + [a.value]) == Cores(s.host.buffer) + [CoreOf(a.value)];
    }
  }

  lemma StepFlows(s: Session, ev: Event)
    requires Enabled(s, ev) && Smooth(s, ev) && Paired(s)
    ensures Flows(s, ev)
  {
    match ev
    case Answer(nh) => AnswerFlows(s, nh);
    case ArpResponse(_) => assert Handle(s.host, ev).1 == [];
    case _ => ArrivalFlows(s, ev);
  }

  /** Lookup pairing over whole runs: packets leave in the order they were taken in, each exactly once, and departure
      number i follows answer number i; what has not left is still buffered, paired with the requests outstanding. */
  lemma {:induction false} EachPacketLeavesOnce(s: Session, evs: seq<Event>)
    requires SmoothRun(s, evs) && Paired(s)
    ensures Paired(RunTo(s, evs))
    ensures Cores(s.host.buffer) + Accepted(s, evs) == CoresLeft(Departed(s, evs)) + Cores(RunTo(s, evs).host.buffer)
    ensures HopsTaken(Departed(s, evs)) == Answers(evs)
    decreases |evs|
  {
    if evs == [] {
    } else {
      var ev, rest := evs[0], evs[1..];
      var s1 := Next(s, ev);
      PairingKeptIff(s, ev);
      StepFlows(s, ev);
      EachPacketLeavesOnce(s1, rest);
      var a := if Arriving(s.host, ev).Some? then [CoreOf(Arriving(s.host, ev).value)] else [];
      var l, d := Left(Handle(s.host, ev).1), Departed(s1, rest);
      SplitDepartures(l, d);
      Regroup(Cores(s.host.buffer), a, Accepted(s1, rest), CoresLeft(l), Cores(s1.host.buffer), CoresLeft(d),
              Cores(RunTo(s1, rest).host.buffer));
    }
  }

  lemma SplitDepartures(l: seq<Departure>, d: seq<Departure>)
    ensures CoresLeft(l + d) == CoresLeft(l) + CoresLeft(d)
    ensures HopsTaken(l + d) == HopsTaken(l) + HopsTaken(d)
  {}

  lemma Regroup<T>(b: seq<T>, a: seq<T>, accepted: seq<T>, l: seq<T>, b1: seq<T>, d: seq<T>, b2: seq<T>)
    requires b + a == l + b1 && b1 + accepted == d + b2
    ensures b + (a + accepted) == (l + d) + b2
  {
    assert b + (a + accepted) == (b + a) + accepted;
    assert (l + b1) + accepted == l + (b1 + accepted);
    assert l + (d + b2) == (l + d) + b2;
  }
}
