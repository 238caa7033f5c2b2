/** The daemon beyond smooth runs: next hops that have to be resolved first, full buffers, and every kind of frame. */
module Resolution {
  import opened Bytes
  import opened Daemon
  import opened Sessions

  // ---- resolving a next hop ----

  /** A packet whose next hop is unresolved waits, unchanged in all that will be sent of it; the ARP request goes out,
      and the response sends the packet there and makes the next hop known. */
  lemma ResolutionSends(h: Host, nextHop: byte)
    requires h.buffer != [] && nextHop != NO_ROUTE && nextHop !in h.arp && |h.arp| < MAX_TABLE_SIZE
    ensures var (h1, out1) := OnResponse(h, nextHop);
            var (h2, out2) := OnArpResponse(h1, nextHop);
            && out1 == [ArpRequest(nextHop)] && Cores(h1.buffer) == Cores(h.buffer)
            && Left(out2) == [Departure(CoreOf(h.buffer[0]), nextHop)]
            && |out2| == 1 && out2[0].Send? && out2[0].frame.pdu == h.buffer[0].pdu.(dest := nextHop)
            && out2[0].frame.body[1] == h.buffer[0].pdu.ttl
            && h2 == h.(buffer := h.buffer[1..], arp := h.arp + [nextHop])
  {
    var p := h.buffer[0];
    var h1 := OnResponse(h, nextHop).0;
    assert h1.buffer[0] == Routed(p, nextHop) && h1.buffer[1..] == h.buffer[1..];
    SentPacketLeaves(p, nextHop);
    forall i | 0 <= i < |h.buffer| ensures Cores(h1.buffer)[i] == Cores(h.buffer)[i] {}
  }

  /** An ARP response in general. The oldest packet leaves the buffer whatever happens: it is sent if its next hop is
      known by now, and is otherwise lost behind another ARP request. What was resolved stays resolved. */
  lemma ArpResponseOutcome(h: Host, addr: byte)
    ensures var (h', out) := OnArpResponse(h, addr);
            if |h.arp| == 16 then h' == h && out == [Fail]
            else && h' == h.(arp := h.arp + [addr], buffer := if h.buffer == [] then [] else h.buffer[1..])
                 && (h.buffer == [] ==> out == [])
                 && (h.buffer != [] ==>
                       var p := h.buffer[0];
                       if p.pdu.dest == addr || p.pdu.dest in h.arp
                       then Left(out) == [Departure(CoreOf(p), p.pdu.dest)] && |out| == 1 && out[0].Send?
                            && out[0].frame.pdu == p.pdu && out[0].frame.body[1] == p.sdu.ttl
                       else out == [ArpRequest(p.pdu.dest)])
  {
    if h.buffer != [] && |h.arp| < 16 {
      var p := h.buffer[0];
      var f := Frame(p.pdu, Body(p));
      assert f.body[2..] == Fit(Text(p.sdu.payload), p.pdu.sduLen);
      assert [Send(f)][1..] == [];
    }
  }

  /** An answer for which no packet waits changes nothing. */
  lemma StrayAnswer(h: Host, nextHop: byte)
    requires h.buffer == [] && nextHop != NO_ROUTE
    ensures OnResponse(h, nextHop) == (h, [])
  {}

  /** The first ping over a link, from application to wire. */
  lemma FirstPingLeaves(h: Host, sdu: Sdu, nextHop: byte)
    requires h.buffer == [] && h.cap > 0 && nextHop != NO_ROUTE && nextHop !in h.arp && |h.arp| < MAX_TABLE_SIZE
    ensures var (h1, out1) := OnApp(h, sdu);
            var (h2, out2) := OnResponse(h1, nextHop);
            var (h3, out3) := OnArpResponse(h2, nextHop);
            && out1 == [Request(sdu.dest)] && out2 == [ArpRequest(nextHop)]
            && Left(out3) == [Departure(Core(h.self, sdu.dest, sdu.ttl % 16, Carried(sdu.payload)), nextHop)]
            && h3 == h.(arp := h.arp + [nextHop])
  {
    var (h1, _) := OnApp(h, sdu);
    AppIsBuffered(h, sdu);
    assert h1.buffer == [AppPacket(h.self, sdu)];
    ResolutionSends(h1, nextHop);
  }

  // ---- what is buffered ----

  /** A ping of an application is asked about in any case. It is kept behind all others, or lost if the buffer is full,
      which never costs a packet that is already there. */
  lemma AppIsBuffered(h: Host, sdu: Sdu)
    ensures var (h', out) := OnApp(h, sdu);
            && out == [Request(sdu.dest)] && h' == h.(buffer := h'.buffer)
            && (|h.buffer| == h.cap ==> h'.buffer == h.buffer)
            && (|h.buffer| != h.cap ==>
                  && |h'.buffer| == |h.buffer| + 1 && h.buffer < h'.buffer
                  && var p := h'.buffer[|h.buffer|];
                     && CoreOf(p) == Core(h.self, sdu.dest, sdu.ttl % 16, Carried(sdu.payload))
                     && p.pdu == Pdu(sdu.dest, h.self, sdu.ttl % 16, |Carried(sdu.payload)|, MIP_PING)
                     && p.sdu.dest == sdu.dest && p.sdu.ttl == sdu.ttl
                     && Carried(p.sdu.payload) == Carried(sdu.payload))
  {
    AppCore(h.self, sdu);
  }

  lemma AppCore(self: byte, sdu: Sdu)
    ensures CoreOf(AppPacket(self, sdu)) == Core(self, sdu.dest, sdu.ttl % 16, Carried(sdu.payload))
    ensures AppPacket(self, sdu).pdu.sduLen == |Carried(sdu.payload)|
    ensures Carried(AppPacket(self, sdu).sdu.payload) == Carried(sdu.payload)
  {
    var read := Read(sdu.payload);
    assert Read(read) == read;
    assert AppPacket(self, sdu).sdu.payload == read;
    assert |Text(read)| <= |read| <= MAX_PAYLOAD;
  }

  // ---- every kind of frame ----

  /** The events of a session are those that the daemon survives. */
  lemma EnabledUnlessFail(s: Session)
    requires |s.host.arp| <= MAX_TABLE_SIZE
    ensures forall sdu :: Enabled(s, App(sdu))
    ensures forall f :: IsData(f) ==> (Enabled(s, Link(f)) <==> Fail !in OnFrame(s.host, f).1)
    ensures forall a :: Enabled(s, ArpResponse(a)) <==> Fail !in OnArpResponse(s.host, a).1
    ensures forall nh :: nh != NO_ROUTE ==> (Enabled(s, Answer(nh)) <==> s.pending != [])
  {
    forall a ensures Enabled(s, ArpResponse(a)) <==> Fail !in OnArpResponse(s.host, a).1 {
      ArpResponseOutcome(s.host, a);
      assert |s.host.arp| == MAX_TABLE_SIZE ==> OnArpResponse(s.host, a).1[0] == Fail;
    }
  }

  /** What a ping frame holds, up to the first NUL of the bytes it announces. */
  ghost predicate IsTextOf(text: seq<byte>, f: Frame)
    requires |f.body| >= f.pdu.sduLen + 2
  {
    && |text| <= f.pdu.sduLen && 0 !in text && text == f.body[2..2+|text|]
    && (|text| < f.pdu.sduLen ==> f.body[2+|text|] == 0)
  }

  /** A ping for this host is handed up, with its source as address. */
  lemma PingForUs(h: Host, f: Frame)
    requires IsData(f) && f.pdu.sduType == MIP_PING && f.body[0] == h.self
    ensures var (h', out) := OnFrame(h, f);
            && h' == h && |out| == 1 && out[0].ToApp?
            && out[0].sdu.dest == f.pdu.src && out[0].sdu.ttl == f.body[1] && IsTextOf(out[0].sdu.payload, f)
  {}

  /** A ping for another host is dropped if it came with time to live 1. Otherwise it is asked about, and kept one
      count lower behind all others, or lost if the buffer is full. */
  lemma PingForOthers(h: Host, f: Frame)
    requires IsData(f) && f.pdu.sduType == MIP_PING && f.body[0] != h.self
    ensures var (h', out) := OnFrame(h, f);
            if f.pdu.ttl == 1 then h' == h && out == []
            else && out == [Request(f.body[0])] && h' == h.(buffer := h'.buffer)
                 && (|h.buffer| == h.cap ==> h'.buffer == h.buffer)
                 && (|h.buffer| != h.cap ==>
                       && |h'.buffer| == |h.buffer| + 1 && h.buffer < h'.buffer
                       && var p := h'.buffer[|h.buffer|];
                          && p.pdu == f.pdu.(ttl := if f.pdu.ttl == 0 then 15 else f.pdu.ttl - 1)
                          && p.sdu == Sdu(f.body[0], f.body[1], f.body[2..f.pdu.sduLen+2]))
  {}

  /** A routing frame is handed to the routing daemon, exactly as many bytes as it announces; and a frame ends the
      daemon if and only if it is of no known type. */
  lemma OtherFrames(h: Host, f: Frame, sent: seq<byte>)
    requires IsData(f)
    ensures f.pdu.sduType == MIP_ROUTING && f.pdu.sduLen == |sent| && sent <= f.body ==>
              OnFrame(h, f) == (h, [ToRouting(sent)])
    ensures Fail in OnFrame(h, f).1 <==> f.pdu.sduType != MIP_PING && f.pdu.sduType != MIP_ROUTING
    ensures Fail in OnFrame(h, f).1 ==> OnFrame(h, f) == (h, [Fail])
  {
    if sent <= f.body {
      assert f.body[..|sent|] == sent;
    }
  }
}
