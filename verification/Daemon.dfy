/** The forwarding daemon: the event branches of `main` in source/mip_daemon.c and the classification of
    `mip_link_recv` in source/mip.c. */
module Daemon {
  import opened Bytes

  type nibble = x: int | 0 <= x < 16

  const MIP_ARP: nat := 1
  const MIP_PING: nat := 2
  const MIP_ROUTING: nat := 4
  const MAX_PAYLOAD: nat := MAX_MSG_SIZE - 2   // two bytes are in front

  datatype Pdu = Pdu(dest: byte, src: byte, ttl: nibble, sduLen: nat, sduType: nat)
  datatype Sdu = Sdu(dest: byte, ttl: byte, payload: seq<byte>)
  datatype Packet = Packet(pdu: Pdu, sdu: Sdu)

  /** What travels on a link: the header, and sdu_len + 2 bytes. */
  datatype Frame = Frame(pdu: Pdu, body: seq<byte>)

  datatype Action =
    | Request(dest: byte)               // lookup request to the routing daemon
    | Send(frame: Frame)                // unicast to frame.pdu.dest
    | Broadcast(frame: Frame)           // to every neighbour
    | ArpRequest(addr: byte)
    | ToApp(sdu: Sdu)
    | ToRouting(bytes: seq<byte>)
    | Discard(packet: Packet)           // no route
    | Fail                              // the daemon gives up

  // ---- payloads ----

  /** The bytes before the first NUL, which is all that `strlen` measures. */
  function Text(s: seq<byte>): (r: seq<byte>)
    ensures r <= s && 0 !in r
    ensures |r| < |s| ==> s[|r|] == 0
  {
    if s == [] || s[0] == 0 then [] else [s[0]] + Text(s[1..])
  }

  lemma {:induction false} TextIs(s: seq<byte>, r: seq<byte>)
    requires r <= s && 0 !in r && (|r| < |s| ==> s[|r|] == 0)
    ensures Text(s) == r
  {
    if r == [] {
    } else {
      assert s[0] == r[0] && r[0] in r;
      TextIs(s[1..], r[1..]);
    }
  }

  /** What of an application's payload is read at all. */
  function Read(payload: seq<byte>): seq<byte> {
    if |payload| <= MAX_PAYLOAD then payload else payload[..MAX_PAYLOAD]
  }

  /** What of it is sent. */
  function Carried(payload: seq<byte>): seq<byte> {
    Text(Read(payload))
  }

  /** A payload travels whole if and only if it holds no NUL and fits the message buffer. */
  lemma CarriedWholeIff(payload: seq<byte>)
    ensures Carried(payload) == payload <==> 0 !in payload && |payload| <= MAX_PAYLOAD
    ensures Carried(Carried(payload)) == Carried(payload) <= payload
    ensures forall k :: 0 <= k <= |payload| && k <= 510 ==> (0 !in payload[..k] <==> payload[..k] <= Carried(payload))
    ensures |Carried(payload)| <= 510
  {
    var text := Carried(payload);
    forall k | 0 <= k <= |payload| && k <= 510 ensures 0 !in payload[..k] <==> payload[..k] <= text {
      assert payload[..k] == Read(payload)[..k];
      if k > |text| {
        assert payload[..k][|text|] == 0;
      } else {
        assert payload[..k] == text[..k];
      }
    }
    TextIs(Carried(payload), Carried(payload));
    if 0 !in payload {
      TextIs(payload, payload);
    }
  }

  function Serialize(sdu: Sdu): seq<byte> {
    [sdu.dest, sdu.ttl] + Text(sdu.payload)
  }

  function Deserialize(bytes: seq<byte>, len: nat): Sdu
    requires |bytes| >= len + 2
  {
    Sdu(bytes[0], bytes[1], bytes[2..len+2])
  }

  /** An SDU survives serialisation if and only if its payload holds no NUL; otherwise it is cut there. */
  lemma SerializeRoundTrip(sdu: Sdu)
    ensures Deserialize(Serialize(sdu), |Text(sdu.payload)|) == sdu.(payload := Text(sdu.payload))
    ensures Deserialize(Serialize(sdu), |Text(sdu.payload)|) == sdu <==> 0 !in sdu.payload
  {
    assert Serialize(sdu)[2..|Text(sdu.payload)|+2] == Text(sdu.payload);
    if 0 !in sdu.payload {
      TextIs(sdu.payload, sdu.payload);
    }
  }

  /** The first n bytes of s, with zeros for what s lacks. */
  function Fit(s: seq<byte>, n: nat): (r: seq<byte>)
    ensures |r| == n
    ensures |s| == n ==> r == s
    ensures if |s| >= n then r <= s else s <= r
    ensures forall i :: |s| <= i < n ==> r[i] == 0
  {
    if |s| >= n then s[..n] else s + seq(n - |s|, _ => 0)
  }

  /** The sdu_len + 2 bytes sent for a packet. */
  function Body(p: Packet): (r: seq<byte>)
    ensures |r| == p.pdu.sduLen + 2
  {
    [p.sdu.dest, p.sdu.ttl] + Fit(Text(p.sdu.payload), p.pdu.sduLen)
  }

  // ---- the events ----

  /** `--pdu->ttl` on a field of 4 bits. */
  function Decrement(ttl: nibble): nibble {
    (ttl + 15) % 16
  }

  /** The daemon's state: the addresses of its ARP table, in order, and the packets awaiting a lookup, oldest first. */
  datatype Host = Host(self: byte, cap: nat, arp: seq<byte>, buffer: seq<Packet>)

  /** Pushing to a full buffer loses the packet. */
  function Push(h: Host, p: Packet): Host {
    if |h.buffer| == h.cap then h else h.(buffer := h.buffer + [p])
  }

  function AppPacket(self: byte, sdu: Sdu): Packet {
    var text := Carried(sdu.payload);
    Packet(Pdu(sdu.dest, self, sdu.ttl % 16, |text| % 512, MIP_PING), sdu.(payload := Read(sdu.payload)))
  }

  function OnApp(h: Host, sdu: Sdu): (Host, seq<Action>) {
    (Push(h, AppPacket(h.self, sdu)), [Request(sdu.dest)])
  }

  function Unicast(arp: seq<byte>, f: Frame): Action {
    if f.pdu.dest in arp then Send(f) else ArpRequest(f.pdu.dest)
  }

  function LinkSend(arp: seq<byte>, p: Packet): Action {
    Unicast(arp, Frame(p.pdu, Body(p)))
  }

  /** The length of an update of so many routes, in a field of 9 bits. */
  function UpdateLen(signed: bool, count: byte): nat {
    (UPD_SIZE + 3 * CharValue(signed, count)) % 512
  }

  /** The packet as it leaves once its next hop is known. */
  function Routed(p: Packet, nextHop: byte): Packet {
    Packet(p.pdu.(dest := nextHop), p.sdu.(ttl := p.pdu.ttl))
  }

  /** A lookup response: always applied to the oldest packet. It stays buffered while its next hop is unresolved. */
  function OnResponse(h: Host, nextHop: byte): (Host, seq<Action>)
    requires nextHop == NO_ROUTE ==> h.buffer != []
  {
    if nextHop == NO_ROUTE then (h.(buffer := h.buffer[1..]), [Discard(h.buffer[0])])
    else if h.buffer == [] then (h, [])
    else
      var p := Routed(h.buffer[0], nextHop);
      if nextHop in h.arp
      then (h.(buffer := h.buffer[1..]), [LinkSend(h.arp, p)])
      else (h.(buffer := h.buffer[0 := p]), [LinkSend(h.arp, p)])
  }

  /** A message of the routing daemon, read into the front of the daemon's buffer: a HELLO is broadcast, an update sent
      to the neighbour named in its first byte, or lost if that is unresolved, and a lookup response applied. */
  function OnRouting(signed: bool, h: Host, buf: seq<byte>): (Host, seq<Action>)
    requires RoutingReadable(signed, buf)
    requires buf[2..5] == [R, E, S] && buf[5] == NO_ROUTE ==> h.buffer != []
  {
    if buf[2..5] == [H, E, L] then
      (h, [Broadcast(Frame(Pdu(NO_ROUTE, h.self, 0, HEL_SIZE, MIP_ROUTING), buf[..HEL_SIZE]))])
    else if buf[2..5] == [U, P, D] then
      var len := UpdateLen(signed, buf[6]);
      (h, [Unicast(h.arp, Frame(Pdu(buf[0], h.self, 0, len, MIP_ROUTING), buf[..len+2]))])
    else if buf[2..5] == [R, E, S] then OnResponse(h, buf[5])
    else (h, [])
  }

  /** The daemon's buffer, with an update that does not make it read past the end. */
  predicate RoutingReadable(signed: bool, buf: seq<byte>) {
    |buf| == MAX_MSG_SIZE && (buf[2..5] == [U, P, D] ==> UpdateLen(signed, buf[6]) + 2 <= |buf|)
  }

  /** An ARP response: always a new entry, and a full table ends the daemon. The oldest packet is tried and leaves
      the buffer either way. */
  function OnArpResponse(h: Host, addr: byte): (Host, seq<Action>) {
    if |h.arp| == MAX_TABLE_SIZE then (h, [Fail])
    else
      var h1 := h.(arp := h.arp + [addr]);
      if h.buffer == [] then (h1, [])
      else (h1.(buffer := h.buffer[1..]), [LinkSend(h1.arp, h.buffer[0])])
  }

  /** A frame that is not ARP and holds the bytes its header promises. */
  predicate IsData(f: Frame) {
    f.pdu.sduType != MIP_ARP && |f.body| >= f.pdu.sduLen + if f.pdu.sduType == MIP_ROUTING then 0 else 2
  }

  /** A ping frame as daemons send it: exactly as long as its header says, and no NUL in the payload. */
  predicate IsPing(f: Frame) {
    f.pdu.sduType == MIP_PING && |f.body| == f.pdu.sduLen + 2 && 0 !in f.body[2..]
  }

  /** A ping for this host goes up with its source in place of its destination; any other ping is counted down and
      buffered, or dropped when the count reaches 0. Routing frames go to the routing daemon; unknown types end the
      daemon. */
  function OnFrame(h: Host, f: Frame): (Host, seq<Action>)
    requires IsData(f)
  {
    if f.pdu.sduType == MIP_ROUTING then (h, [ToRouting(f.body[..f.pdu.sduLen])])
    else if f.pdu.sduType != MIP_PING then (h, [Fail])
    else
      var sdu := Deserialize(f.body, f.pdu.sduLen);
      if sdu.dest == h.self then (h, [ToApp(Sdu(f.pdu.src, sdu.ttl, Text(sdu.payload)))])
      else if Decrement(f.pdu.ttl) == 0 then (h, [])
      else (Push(h, Packet(f.pdu.(ttl := Decrement(f.pdu.ttl)), sdu)), [Request(sdu.dest)])
  }

  /** The daemon itself: the event loop changes the buffer and the ARP table in place. */
  class Daemon {
    const self: byte
    const cap: nat
    var arp: seq<byte>
    var buffer: seq<Packet>

    ghost function Abs(): Host
      reads this
    {
      Host(self, cap, arp, buffer)
    }

    /** The ARP table starts with one entry of the host's own address for each interface. */
    constructor (self: byte, cap: nat, interfaces: nat)
      requires 1 <= interfaces <= MAX_TABLE_SIZE
      ensures Abs() == Host(self, cap, seq(interfaces, _ => self), [])
    {
      this.self, this.cap := self, cap;
      arp, buffer := seq(interfaces, _ => self), [];
    }

    method HandleApp(sdu: Sdu) returns (out: seq<Action>)
      modifies this
      ensures (Abs(), out) == OnApp(old(Abs()), sdu)
    {
      var payload := if |sdu.payload| <= MAX_PAYLOAD then sdu.payload else sdu.payload[..MAX_PAYLOAD];
      out := [Request(sdu.dest)];
      var len := Strlen(payload);
      var pdu := Pdu(sdu.dest, self, sdu.ttl % 16, len % 512, MIP_PING);
      if |buffer| != cap {
        buffer := buffer + [Packet(pdu, sdu.(payload := payload))];
      }
    }

    static method Strlen(s: seq<byte>) returns (n: nat)
      ensures n <= |s| && s[..n] == Text(s)
    {
      n := 0;
      while n < |s| && s[n] != 0
        invariant n <= |s| && 0 !in s[..n]
      {
        n := n + 1;
      }
      TextIs(s, s[..n]);
    }

    method HandleResponse(nextHop: byte) returns (out: seq<Action>)
      requires nextHop == NO_ROUTE ==> buffer != []
      modifies this
      ensures (Abs(), out) == OnResponse(old(Abs()), nextHop)
    {
      if nextHop == NO_ROUTE {
        out := [Discard(buffer[0])];
        buffer := buffer[1..];
        return;
      }
      if buffer == [] {
        return [];
      }
      var pdu := buffer[0].pdu.(dest := nextHop);
      var sdu := buffer[0].sdu.(ttl := pdu.ttl);
      if pdu.dest in arp {
        out := [Send(Frame(pdu, Body(Packet(pdu, sdu))))];
        buffer := buffer[1..];
      } else {
        out := [ArpRequest(pdu.dest)];
        buffer := buffer[0 := Packet(pdu, sdu)];
      }
    }

    method HandleRouting(signed: bool, buf: seq<byte>) returns (out: seq<Action>)
      requires RoutingReadable(signed, buf)
      requires buf[2..5] == [R, E, S] && buf[5] == NO_ROUTE ==> buffer != []
      modifies this
      ensures (Abs(), out) == OnRouting(signed, old(Abs()), buf)
    {
      if buf[2..5] == [H, E, L] {
        return [Broadcast(Frame(Pdu(NO_ROUTE, self, 0, HEL_SIZE, MIP_ROUTING), buf[..HEL_SIZE]))];
      }
      if buf[2..5] == [U, P, D] {
        var pdu := Pdu(buf[0], self, 0, UpdateLen(signed, buf[6]), MIP_ROUTING);
        return [Unicast(arp, Frame(pdu, buf[..pdu.sduLen+2]))];
      }
      if buf[2..5] == [R, E, S] {
        out := HandleResponse(buf[5]);
        return;
      }
      return [];
    }

    method HandleArpResponse(addr: byte) returns (out: seq<Action>)
      modifies this
      ensures (Abs(), out) == OnArpResponse(old(Abs()), addr)
    {
      if |arp| == MAX_TABLE_SIZE {
        return [Fail];
      }
      arp := arp + [addr];
      if buffer == [] {
        return [];
      }
      out := [LinkSend(arp, buffer[0])];
      buffer := buffer[1..];
    }

    method HandleFrame(f: Frame) returns (out: seq<Action>)
      requires IsData(f)
      modifies this
      ensures (Abs(), out) == OnFrame(old(Abs()), f)
    {
      if f.pdu.sduType == MIP_ROUTING {
        return [ToRouting(f.body[..f.pdu.sduLen])];
      }
      if f.pdu.sduType != MIP_PING {
        return [Fail];
      }
      var sdu := Deserialize(f.body, f.pdu.sduLen);
      if sdu.dest == self {
        sdu := sdu.(dest := f.pdu.src);
        var len := Strlen(sdu.payload);
        return [ToApp(sdu.(payload := sdu.payload[..len]))];
      }
      var pdu := f.pdu.(ttl := Decrement(f.pdu.ttl));
      if pdu.ttl == 0 {
        return [];
      }
      out := [Request(sdu.dest)];
      if |buffer| != cap {
        buffer := buffer + [Packet(pdu, sdu)];
      }
    }
  }
}
