/** Messages of the routing daemons on their way through the forwarding daemons, at both ends of a link. */
module Handover {
  import opened Bytes
  import opened Tables
  import opened Advertising
  import opened Wire
  import opened Codec
  import opened Graphs
  import opened Network
  import Daemon
  import N = Nodes
  import Resolution
  import Forwarding

  /** The daemon of v reads msg from its routing daemon and sends frame f; at the other end of the link, msg is what
      the routing daemon there is handed. */
  ghost predicate Crosses(h: Daemon.Host, r: Daemon.Host, action: Daemon.Action, msg: seq<byte>) {
    && (action.Send? || action.Broadcast?)
    && Daemon.IsData(action.frame) && Daemon.OnFrame(r, action.frame) == (r, [Daemon.ToRouting(msg)])
    && action.frame.pdu == Daemon.Pdu(action.frame.pdu.dest, h.self, 0, |msg|, Daemon.MIP_ROUTING)
  }

  /** A HELLO is broadcast; each neighbour's routing daemon reads its sender's HELLO. */
  lemma HelloCrosses(signed: bool, h: Daemon.Host, r: Daemon.Host, buf: seq<byte>)
    requires |buf| == MAX_MSG_SIZE && [h.self, 0, H, E, L, h.self] <= buf
    ensures Daemon.RoutingReadable(signed, buf) && buf[2..5] == [H, E, L]
    ensures var msg := [h.self, 0, H, E, L, h.self];
            var (h', out) := Daemon.OnRouting(signed, h, buf);
            && h' == h && |out| == 1 && Crosses(h, r, out[0], msg)
            && out[0].Broadcast? && out[0].frame.pdu.dest == 255 && out[0].frame.body == msg
            && Payload(msg) == N.HelloPayload(h.self)
  {
    var msg := [h.self, 0, H, E, L, h.self];
    forall k | 0 <= k < 6 ensures buf[k] == msg[k] {}
    assert buf[..HEL_SIZE] == msg;
    assert buf[2..5] == [H, E, L];
    Resolution.OtherFrames(r, Daemon.OnRouting(signed, h, buf).1[0].frame, msg);
    N.HelloFrameBecomesPayload(h.self);
  }

  /** Packet number i of an update. If its neighbour is resolved it crosses whole, and what the neighbour's routing
      daemon reads is the packet of the network model, which decodes to the sender's advertisement; if not, an ARP
      request goes out in its place and the update is lost. */
  lemma UpdateCrosses(sys: System, v: byte, t: Table, i: nat, h: Daemon.Host, r: Daemon.Host, buf: seq<byte>)
    requires ValidSystem(sys) && v in sys.g.nodes && TableOK(sys.g, v, t) && h.self == v
    requires i < |UpdateFrames(sys.signed, v, t, 255)|
    requires |buf| == MAX_MSG_SIZE && UpdateFrames(sys.signed, v, t, 255)[i] <= buf
    ensures var msg := UpdateFrames(sys.signed, v, t, 255)[i];
            && Daemon.RoutingReadable(sys.signed, buf) && buf[2..5] == [U, P, D]
            && i < |UpdatesOf(sys, v, t)| && UpdatesOf(sys, v, t)[i] == Packet(buf[0], Payload(msg))
            && IsUpdateOf(Payload(msg), v, Advertised(sys.signed, t))
            && var (h', out) := Daemon.OnRouting(sys.signed, h, buf);
               && h' == h && |out| == 1
               && if buf[0] in h.arp then out[0].Send? && out[0].frame.pdu.dest == buf[0] && Crosses(h, r, out[0], msg)
                  else out[0] == Daemon.ArpRequest(buf[0])
  {
    var msg := UpdateFrames(sys.signed, v, t, 255)[i];
    UpdateMessage(sys, v, t, i);
    MessageCrosses(sys.signed, h, r, msg, buf);
  }

  lemma MessageCrosses(signed: bool, h: Daemon.Host, r: Daemon.Host, msg: seq<byte>, buf: seq<byte>)
    requires |buf| == MAX_MSG_SIZE && msg <= buf && |msg| >= UPD_SIZE
    requires msg[2] == U && msg[3] == P && msg[4] == D && msg[6] <= MAX_NTWRK_SIZE && |msg| == At(msg[6])
    ensures Daemon.RoutingReadable(signed, buf) && buf[2..5] == [U, P, D] && buf[0] == msg[0]
    ensures var (h', out) := Daemon.OnRouting(signed, h, buf);
            && h' == h && |out| == 1
            && if buf[0] in h.arp then out[0].Send? && out[0].frame.pdu.dest == buf[0] && Crosses(h, r, out[0], msg)
               else out[0] == Daemon.ArpRequest(buf[0])
  {
    forall k | 0 <= k < |msg| ensures buf[k] == msg[k] {}
    assert buf[2..5] == [U, P, D];
    assert Daemon.UpdateLen(signed, buf[6]) == |msg|;
    var f := Daemon.Frame(Daemon.Pdu(buf[0], h.self, 0, |msg|, Daemon.MIP_ROUTING), buf[..|msg|+2]);
    assert msg <= f.body;
    Resolution.OtherFrames(r, f, msg);
  }

  lemma UpdateMessage(sys: System, v: byte, t: Table, i: nat)
    requires ValidSystem(sys) && v in sys.g.nodes && TableOK(sys.g, v, t)
    requires i < |UpdateFrames(sys.signed, v, t, 255)|
    ensures var msg, trs := UpdateFrames(sys.signed, v, t, 255)[i], Advertised(sys.signed, t);
            && |msg| == At(|trs|) && |trs| <= MAX_NTWRK_SIZE && msg[6] as int == |trs|
            && msg[2] == U && msg[3] == P && msg[4] == D
            && i < |UpdatesOf(sys, v, t)| && UpdatesOf(sys, v, t)[i] == Packet(msg[0], Payload(msg))
            && IsUpdateOf(Payload(msg), v, trs)
  {
    UpdatesIntact(sys, v, t);
    CarriedAll(UpdateFrames(sys.signed, v, t, 255));
    UpdatesReachLinks(sys, v, t);
    AdvertisedIsSmall(sys.g, v, sys.signed, t);
  }

  /** The answer to a lookup request, through the daemon, is applied to the oldest packet as Forwarding has it. */
  lemma LookupCrosses(signed: bool, h: Daemon.Host, t: Table, d: byte, buf: seq<byte>)
    requires Lookup(t, d).None? ==> [h.self, 255, R, E, S, 255] <= buf
    requires Lookup(t, d).Some? ==>
               [h.self, Lookup(t, d).value.hops, R, E, S, Lookup(t, d).value.nextHop] <= buf
    requires |buf| == MAX_MSG_SIZE
    requires Lookup(t, d).None? ==> h.buffer != []
    requires Lookup(t, d).Some? ==> Lookup(t, d).value.nextHop != NO_ROUTE
    ensures Daemon.RoutingReadable(signed, buf)
    ensures buf[2..5] == [R, E, S] && buf[5] == NO_ROUTE ==> h.buffer != []
    ensures Daemon.OnRouting(signed, h, buf) == Daemon.OnResponse(h, Forwarding.Reply(t, d))
  {
    var msg := [h.self, LookupHops(t, d), R, E, S, Forwarding.Reply(t, d)];
    forall k | 0 <= k < 6 ensures buf[k] == msg[k] {}
    assert buf[2..5] == [R, E, S];
  }

  /** A message is sent on to a neighbour, now or after resolution, if and only if the network model relays it. */
  lemma RelayedIffSent(signed: bool, h: Daemon.Host, msg: seq<byte>, buf: seq<byte>)
    requires Daemon.RoutingReadable(signed, buf) && |msg| >= UPD_SIZE && msg <= buf
    requires buf[2..5] == [R, E, S] ==> h.buffer == [] && buf[5] != NO_ROUTE
    ensures Relay(msg).Some? <==>
            exists a :: a in Daemon.OnRouting(signed, h, buf).1 && (a.Send? || a.ArpRequest?)
    ensures Relay(msg).Some? ==> Relay(msg).value == Payload(msg)
  {
    forall k | 0 <= k < |msg| ensures buf[k] == msg[k] {}
    assert buf[2..5] == [buf[2], buf[3], buf[4]];
    var out := Daemon.OnRouting(signed, h, buf).1;
    if Relay(msg).Some? {
      assert out[0] in out && (out[0].Send? || out[0].ArpRequest?);
    }
  }

  /** Anything else from the routing daemon is ignored. */
  lemma UnknownMessage(signed: bool, h: Daemon.Host, buf: seq<byte>)
    requires |buf| == MAX_MSG_SIZE && buf[2..5] !in {[H, E, L], [U, P, D], [R, E, S]}
    ensures Daemon.OnRouting(signed, h, buf) == (h, [])
  {}
}
