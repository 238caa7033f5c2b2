/** One routing daemon: the WAIT/HELLO/UPDATE state machine of `main` in source/mip_routing.c. */
module Nodes {
  import opened Bytes
  import opened Tables
  import opened Timeouts
  import opened Advertising
  import opened Wire
  import opened Codec

  datatype State = Hello | Wait | Update

  datatype Node = Node(self: byte, table: Table, helloCount: byte, state: State)

  function Start(cap: Capacity, self: byte): Node {
    Node(self, Updated(cap, [], self, self, 0, 0), 0, Hello)
  }

  predicate IsHelloPayload(p: seq<byte>)
    requires |p| == MAX_RT_PKT_SIZE
  {
    p[0] == H && p[1] == E && p[2] == L
  }

  /** The payload a neighbour's routing daemon reads for a HELLO of src; the count byte is one of the zeros. */
  function HelloPayload(src: byte): (p: seq<byte>)
    ensures |p| == MAX_RT_PKT_SIZE
  {
    [H, E, L, src] + seq(50, _ => 0)
  }

  /** It is what the six bytes of `send_hello` become on their way, and it advertises no routes. */
  lemma HelloFrameBecomesPayload(src: byte)
    ensures Payload([src, 0, H, E, L, src]) == HelloPayload(src)
    ensures Readable(HelloPayload(src)) && Decode(HelloPayload(src)) == []
    ensures IsHelloPayload(HelloPayload(src)) && !IsUpdatePayload(HelloPayload(src))
  {
    var p := Payload([src, 0, H, E, L, src]);
    forall k | 0 <= k < MAX_RT_PKT_SIZE ensures p[k] == HelloPayload(src)[k] {}
  }

  /** What the routing daemon reads of a lookup request for d. */
  function RequestPayload(d: byte): (p: seq<byte>)
    ensures |p| == MAX_RT_PKT_SIZE
  {
    [R, E, Q, d] + seq(50, _ => 0)
  }

  /** The type of a packet only steers what follows `update_table`: whatever p is, its routes are folded in as if it
      were an update q; a HELLO then does what a bare HELLO does, and any other type nothing more. */
  lemma TypeOnlySteers(cap: Capacity, signed: bool, n: Node, p: seq<byte>, q: seq<byte>)
    requires Readable(p) && Readable(q) && p[3..] == q[3..] && q[..3] == [U, P, D]
    ensures var m := n.(table := Received(cap, signed, n, q).table);
            && (p[..3] == [H, E, L] ==>
                  Readable(HelloPayload(p[3])) &&
                  Received(cap, signed, n, p) == Received(cap, signed, m, HelloPayload(p[3])))
            && (p[..3] != [H, E, L] && p[..3] != [U, P, D] ==> Received(cap, signed, n, p) == m)
  {
    forall k | 3 <= k < MAX_RT_PKT_SIZE ensures p[k] == q[k] {
      assert p[3..][k-3] == q[3..][k-3];
    }
    assert Decode(p) == Decode(q);
    HelloFrameBecomesPayload(p[3]);
    assert p[..3] == [p[0], p[1], p[2]] && q[..3] == [q[0], q[1], q[2]];
  }

  /** A request passes through `update_table` like any other packet, and changes nothing. */
  lemma RequestChangesNothing(cap: Capacity, signed: bool, n: Node, d: byte)
    ensures Payload([n.self, 0, R, E, Q, d]) == RequestPayload(d)
    ensures Readable(RequestPayload(d)) && Received(cap, signed, n, RequestPayload(d)) == n
  {
    var p := Payload([n.self, 0, R, E, Q, d]);
    forall k | 0 <= k < MAX_RT_PKT_SIZE ensures p[k] == RequestPayload(d)[k] {}
    assert Decode(RequestPayload(d)) == [];
  }

  function SaidHello(n: Node): Node {
    n.(helloCount := Increment(n.helloCount), state := Wait)
  }

  function SaidUpdate(n: Node): Node {
    n.(state := Wait)
  }

  function Ticked(n: Node): Node {
    n.(table := Expired(n.table, n.helloCount), state := Hello)
  }

  /** Every packet goes through `update_table` before its type is looked at. */
  function Received(cap: Capacity, signed: bool, n: Node, p: seq<byte>): Node
    requires Readable(p)
  {
    var hc, trs := n.helloCount, Decode(p);
    var t := Merged(cap, signed, n.table, n.self, p[3], trs, hc);
    if IsHelloPayload(p) then
      n.(table := Refreshed(Updated(cap, t, p[3], p[3], 1, hc), p[3], hc),
         state := if Known(t, p[3], p[3], 1) then n.state else Update)
    else if IsUpdatePayload(p) then
      n.(table := t, state := if MergeLearns(cap, signed, n.table, n.self, p[3], trs, hc) then Update else n.state)
    else
      n.(table := t)
  }

  /** The events of a node; Tick is the expiry of its timer. */
  datatype Event = SendHello | SendUpdates | Tick | Receive(payload: seq<byte>)

  predicate Enabled(n: Node, ev: Event) {
    match ev
    case SendHello => n.state == Hello
    case SendUpdates => n.state == Update
    case Tick => n.state == Wait
    case Receive(p) => n.state == Wait && Readable(p)
  }

  function After(cap: Capacity, signed: bool, n: Node, ev: Event): Node
    requires Enabled(n, ev)
  {
    match ev
    case SendHello => SaidHello(n)
    case SendUpdates => SaidUpdate(n)
    case Tick => Ticked(n)
    case Receive(p) => Received(cap, signed, n, p)
  }

  /** The daemon itself. */
  class RoutingDaemon {
    const self: byte
    const signed: bool
    const rt: RoutingTable
    var helloCount: byte
    var state: State

    ghost function Abs(): Node
      reads this, rt
    {
      Node(self, rt.entries, helloCount, state)
    }

    constructor (cap: Capacity, signed: bool, self: byte)
      ensures fresh(rt) && rt.cap == cap && this.signed == signed
      ensures Abs() == Start(cap, self)
    {
      this.self, this.signed := self, signed;
      helloCount, state := 0, Hello;
      var table := new RoutingTable(cap);
      var _ := table.UpdateEntry(self, self, 0, 0);
      rt := table;
    }

    method OnHelloState() returns (frame: seq<byte>)
      requires state == Hello
      modifies this
      ensures Abs() == After(rt.cap, signed, old(Abs()), SendHello)
      ensures frame == [self, 0, H, E, L, self]
    {
      frame := [self, 0, H, E, L, self];
      helloCount := Increment(helloCount);
      state := Wait;
    }

    method OnUpdateState() returns (frames: seq<seq<byte>>)
      requires state == Update
      modifies this
      ensures Abs() == After(rt.cap, signed, old(Abs()), SendUpdates)
      ensures frames == UpdateFrames(signed, self, rt.entries, 255)
    {
      frames := SendUpdate(signed, rt, 255, self);
      state := Wait;
    }

    method OnTick() returns (frames: seq<seq<byte>>)
      requires state == Wait
      modifies this, rt
      ensures Abs() == After(rt.cap, signed, old(Abs()), Tick)
      ensures frames ==
              if AnyStale(old(rt.entries), helloCount) then UpdateFrames(signed, self, rt.entries, 255) else []
    {
      state := Hello;
      frames := [];
      var updated := ExpireRoutes(rt, helloCount);
      if updated {
        frames := SendUpdate(signed, rt, 255, self);
      }
    }

    /** A lookup request is answered with [self, hops, 'R', 'E', 'S', next hop]; nothing else is. */
    method OnReceive(p: seq<byte>) returns (reply: Option<seq<byte>>)
      requires state == Wait && Readable(p)
      modifies this, rt
      ensures Abs() == After(rt.cap, signed, old(Abs()), Receive(p))
      ensures reply.Some? <==> p[0..3] == [R, E, Q]
      ensures reply.Some? && Lookup(rt.entries, p[3]).None? ==>
                reply.value == [self, INFINITY, R, E, S, NO_ROUTE]
      ensures reply.Some? && Lookup(rt.entries, p[3]).Some? ==>
                var e := Lookup(rt.entries, p[3]).value; reply.value == [self, e.hops, R, E, S, e.nextHop]
    {
      reply := None;
      var learned := rt.UpdateTable(signed, p, self, helloCount);
      if p[0] == H && p[1] == E && p[2] == L {
        learned := rt.UpdateEntry(p[3], p[3], 1, helloCount);
        rt.UpdateHelloCount(p[3], helloCount);
        if learned { state := Update; }
      } else if p[0] == U && p[1] == P && p[2] == D {
        if learned { state := Update; }
      } else if p[0] == R && p[1] == E && p[2] == Q {
        var hops, nextHop := rt.Find(p[3]);
        reply := Some([self, hops, R, E, S, nextHop]);
      }
    }
  }

  // ---- one update, from table to table ----

  /** From `send_update` at the sender to `update_table` at a neighbour that recognises its own address: the
      receiver's table is folded over exactly the sender's advertised routes that do not lead through the receiver,
      each one hop longer, and the receiver has an update of its own to send if and only if one of them was new. */
  lemma UpdateArrives(cap: Capacity, signed: bool, sender: Node, receiver: Node, i: nat)
    requires sender.table != [] && PlainDests(sender.table) && sender.table[0].dest == sender.self
    requires |Advertised(signed, sender.table)| <= MAX_NTWRK_SIZE
    requires forall to :: to in Targets(sender.table, 255) ==>
               to != sender.self && to != INFINITY && !Clashes(to, |Advertised(signed, sender.table)|)
    requires i < |Targets(sender.table, 255)| && receiver.self == Targets(sender.table, 255)[i]
    requires receiver.state == Wait && KnowsItself(signed, receiver.self)
    ensures var frames := UpdateFrames(signed, sender.self, sender.table, 255);
            && i < |frames| && |frames[i]| >= UPD_SIZE && frames[i][0] == receiver.self
            && Relay(frames[i]).Some? && Enabled(receiver, Receive(Relay(frames[i]).value))
            && var n' := After(cap, signed, receiver, Receive(Relay(frames[i]).value));
               var kept := NotVia(Advertised(signed, sender.table), receiver.self);
               && n'.table == MergedWhole(cap, receiver.table, sender.self, kept, receiver.helloCount)
               && (n'.state == Update <==> LearnsWhole(cap, receiver.table, sender.self, kept, receiver.helloCount))
  {
    WireIntact(signed, sender.self, sender.table, 255);
    SplitHorizon(cap, signed, receiver.table, receiver.self, sender.self, Advertised(signed, sender.table),
                 receiver.helloCount);
  }

  // ---- what every event keeps ----

  /** Entries are never removed or reordered and keep destination and next hop; the address never changes. */
  lemma NodeEvolution(cap: Capacity, signed: bool, n: Node, ev: Event)
    requires Enabled(n, ev)
    ensures After(cap, signed, n, ev).self == n.self
    ensures Extends(n.table, After(cap, signed, n, ev).table)
    ensures forall i :: 0 <= i < |n.table| ==>
              After(cap, signed, n, ev).table[i].helloCount == n.table[i].helloCount ||
              (ev.Receive? && IsHelloPayload(ev.payload) && ev.payload[3] == n.table[i].dest)
  {
    match ev
    case SendHello =>
    case SendUpdates =>
    case Tick => ExpiredLeavesNothingStale(n.table, n.helloCount);
    case Receive(p) =>
      var t := Merged(cap, signed, n.table, n.self, p[3], Decode(p), n.helloCount);
      MergeEvolution(cap, signed, n.table, n.self, p[3], Decode(p), n.helloCount);
      UpdateEvolution(cap, t, p[3], p[3], 1, n.helloCount);
      RefreshedFirstOnly(Updated(cap, t, p[3], p[3], 1, n.helloCount), p[3], n.helloCount);
  }

  /** A run of the daemon and its final state. */
  ghost predicate CanRun(cap: Capacity, signed: bool, n: Node, evs: seq<Event>)
    decreases |evs|
  {
    evs == [] || (Enabled(n, evs[0]) && CanRun(cap, signed, After(cap, signed, n, evs[0]), evs[1..]))
  }

  ghost function RunTo(cap: Capacity, signed: bool, n: Node, evs: seq<Event>): Node
    requires CanRun(cap, signed, n, evs)
    decreases |evs|
  {
    if evs == [] then n else RunTo(cap, signed, After(cap, signed, n, evs[0]), evs[1..])
  }

  ghost predicate Heard(evs: seq<Event>, s: byte) {
    exists k :: 0 <= k < |evs| && evs[k].Receive? && |evs[k].payload| == MAX_RT_PKT_SIZE &&
                IsHelloPayload(evs[k].payload) && evs[k].payload[3] == s
  }

  /** The links of a table: 1-hop entries lead to their own next hop, and no neighbour is listed twice as itself. */
  ghost predicate LinkShape(t: Table) {
    && (forall i :: 0 <= i < |t| && t[i].hops == 1 ==> t[i].dest == t[i].nextHop)
    && (forall i :: 0 < i < |t| && t[i].dest == t[i].nextHop ==> t[i].hops == 1 || t[i].hops == INFINITY)
    && (forall i, j :: 0 <= i < j < |t| && t[i].dest == t[i].nextHop && t[j].dest == t[j].nextHop ==>
          t[i].dest != t[j].dest)
  }

  ghost predicate ShapedRun(cap: Capacity, signed: bool, n: Node, evs: seq<Event>)
    requires CanRun(cap, signed, n, evs)
    decreases |evs|
  {
    LinkShape(n.table) && (evs != [] ==> ShapedRun(cap, signed, After(cap, signed, n, evs[0]), evs[1..]))
  }

  /** Between two ticks the hello counter moves by one at most, and an entry's count moves only when its
      destination is heard. */
  lemma {:induction false} QuietCounts(cap: Capacity, signed: bool, n: Node, evs: seq<Event>, i: nat)
    requires CanRun(cap, signed, n, evs) && Tick !in evs && i < |n.table|
    ensures var m := RunTo(cap, signed, n, evs);
            && i < |m.table| && Extends(n.table, m.table)
            && m.helloCount == (if n.state == Hello && evs != [] then Increment(n.helloCount) else n.helloCount)
            && (m.table[i].helloCount == n.table[i].helloCount || Heard(evs, n.table[i].dest))
    decreases |evs|
  {
    if evs == [] {
    } else {
      var n1 := After(cap, signed, n, evs[0]);
      NodeEvolution(cap, signed, n, evs[0]);
      assert evs[0] in evs && forall e :: e in evs[1..] ==> e in evs;
      QuietCounts(cap, signed, n1, evs[1..], i);
      HeardLater(evs, n.table[i].dest);
      assert n1.state != Hello;
    }
  }

  lemma HeardLater(evs: seq<Event>, s: byte)
    requires evs != []
    ensures Heard(evs, s) <==> Heard(evs[..1], s) || Heard(evs[1..], s)
  {
    if Heard(evs[1..], s) {
      var k :| 0 <= k < |evs[1..]| && evs[1..][k].Receive? && |evs[1..][k].payload| == MAX_RT_PKT_SIZE &&
                IsHelloPayload(evs[1..][k].payload) && evs[1..][k].payload[3] == s;
      assert evs[k+1] == evs[1..][k];
    }
    if Heard(evs, s) {
      var k :| 0 <= k < |evs| && evs[k].Receive? && |evs[k].payload| == MAX_RT_PKT_SIZE &&
                IsHelloPayload(evs[k].payload) && evs[k].payload[3] == s;
      if k > 0 { assert evs[1..][k-1] == evs[k]; } else { assert evs[..1][0] == evs[0]; }
    }
  }

  /** Receiving a HELLO from the neighbour behind entry i brings its count up to date. */
  lemma HelloRefreshes(cap: Capacity, signed: bool, n: Node, p: seq<byte>, i: nat)
    requires Enabled(n, Receive(p)) && IsHelloPayload(p) && LinkShape(n.table) &&
             LinkShape(Received(cap, signed, n, p).table)
    requires 0 < i < |n.table| && n.table[i].dest == n.table[i].nextHop == p[3]
    ensures i < |Received(cap, signed, n, p).table| && Received(cap, signed, n, p).table[i].helloCount == n.helloCount
  {
    var hc := n.helloCount;
    var t := Merged(cap, signed, n.table, n.self, p[3], Decode(p), hc);
    MergeEvolution(cap, signed, n.table, n.self, p[3], Decode(p), hc);
    var u := Updated(cap, t, p[3], p[3], 1, hc);
    UpdateEvolution(cap, t, p[3], p[3], 1, hc);
    RefreshedFirstOnly(u, p[3], hc);
    var r := Received(cap, signed, n, p).table;
    assert Matches(t[i], p[3], p[3]);
    assert r[i].hops == u[i].hops;
    assert r[i].hops == if t[i].hops == INFINITY then 1 else t[i].hops;
    assert r[i].hops == 1;
    forall j | 0 <= j < i ensures !IsLinkTo(u[j], p[3]) {
      assert r[j].dest == u[j].dest && r[j].hops == u[j].hops;
    }
    assert IsFirstLink(u, p[3], i);
  }

  /** Once refreshed, the count of a link stays current until the next tick. */
  lemma {:induction false} HeardMeansCurrent(cap: Capacity, signed: bool, n: Node, evs: seq<Event>, i: nat)
    requires CanRun(cap, signed, n, evs) && Tick !in evs && ShapedRun(cap, signed, n, evs)
    requires 0 < i < |n.table| && n.table[i].dest == n.table[i].nextHop
    requires Heard(evs, n.table[i].dest) || (n.state != Hello && n.table[i].helloCount == n.helloCount)
    ensures i < |RunTo(cap, signed, n, evs).table|
    ensures RunTo(cap, signed, n, evs).table[i].helloCount == RunTo(cap, signed, n, evs).helloCount
    decreases |evs|
  {
    if evs == [] {
    } else {
      var s := n.table[i].dest;
      var n1 := After(cap, signed, n, evs[0]);
      NodeEvolution(cap, signed, n, evs[0]);
      assert evs[0] in evs && forall e :: e in evs[1..] ==> e in evs;
      HeardLater(evs, s);
      assert n1.state != Hello;
      if Heard(evs[..1], s) {
        assert ShapedRun(cap, signed, n1, evs[1..]);
        HelloRefreshes(cap, signed, n, evs[0].payload, i);
      } else {
        assert evs[0] == evs[..1][0];
        assert n1.table[i].helloCount == n.table[i].helloCount;
      }
      HeardMeansCurrent(cap, signed, n1, evs[1..], i);
    }
  }

  /** Hello detection is exact. Right after a tick, a neighbour's entry at one hop that is still at one hop when the
      next tick comes survives that tick if and only if a HELLO from the neighbour arrived in between. */
  lemma HelloDetectionExact(cap: Capacity, signed: bool, n: Node, evs: seq<Event>, i: nat)
    requires n.state == Hello && !AnyStale(n.table, n.helloCount)
    requires evs != [] && CanRun(cap, signed, n, evs) && Tick !in evs && ShapedRun(cap, signed, n, evs)
    requires 0 < i < |n.table| && n.table[i].hops == 1
    requires i < |RunTo(cap, signed, n, evs).table| && RunTo(cap, signed, n, evs).table[i].hops == 1
    ensures Ticked(RunTo(cap, signed, n, evs)).table[i].hops == 1 <==> Heard(evs, n.table[i].dest)
  {
    var m := RunTo(cap, signed, n, evs);
    assert !Stale(n.table[i], n.helloCount);
    QuietCounts(cap, signed, n, evs, i);
    assert m.helloCount != n.helloCount;
    if Heard(evs, n.table[i].dest) {
      HeardMeansCurrent(cap, signed, n, evs, i);
      LastShaped(cap, signed, n, evs);
      assert !ViaStale(m.table, m.helloCount, m.table[i].nextHop);
    } else {
      assert Stale(m.table[i], m.helloCount);
      assert ViaStale(m.table, m.helloCount, m.table[i].nextHop);
    }
  }

  lemma {:induction false} LastShaped(cap: Capacity, signed: bool, n: Node, evs: seq<Event>)
    requires CanRun(cap, signed, n, evs) && ShapedRun(cap, signed, n, evs)
    ensures LinkShape(RunTo(cap, signed, n, evs).table)
    decreases |evs|
  {
    if evs == [] {
    } else {
      LastShaped(cap, signed, After(cap, signed, n, evs[0]), evs[1..]);
    }
  }
}
