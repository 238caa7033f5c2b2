/** From `send_update` at one node to `update_table` at its neighbour, byte by byte. */
module Codec {
  import opened Bytes
  import opened Tables
  import opened Advertising
  import opened Wire

  /** A packet to `to` that carries exactly the update of self. */
  ghost predicate Intact(frame: seq<byte>, self: byte, trs: seq<Triple>, to: byte) {
    |frame| == At(|trs|) && IsUpdate(frame, self, trs) && frame[0] == to
  }

  predicate IsTarget(e: Entry, last: byte) {
    e.hops == 1 && e.nextHop != last
  }

  /** The addresses written to, in list order. */
  function Targets(t: Table, last: byte): seq<byte>
    decreases |t|
  {
    if t == [] then []
    else if IsTarget(t[0], last) then [t[0].nextHop] + Targets(t[1..], last)
    else Targets(t[1..], last)
  }

  /** A target that equals a header byte, so that the poison loop hits more than the time to live. */
  predicate Clashes(to: byte, count: nat) {
    to == U || to == P || to == D || to == count
  }

  function PoisonStep(buf: seq<byte>, j: nat): (r: seq<byte>)
    requires |buf| > 8 && j < 8
  {
    if buf[j] == buf[0] then buf[j+1 := INFINITY] else buf
  }

  lemma PoisonUnrolled(buf: seq<byte>)
    requires |buf| > 8
    ensures Poisoned(buf, 0) ==
            var b4 := PoisonStep(PoisonStep(PoisonStep(PoisonStep(buf, 0), 1), 2), 3);
            PoisonStep(PoisonStep(PoisonStep(PoisonStep(b4, 4), 5), 6), 7)
  {
    var b1 := PoisonedOnce(buf, 0);
    var b2 := PoisonedOnce(b1, 1);
    var b3 := PoisonedOnce(b2, 2);
    var b4 := PoisonedOnce(b3, 3);
    var b5 := PoisonedOnce(b4, 4);
    var b6 := PoisonedOnce(b5, 5);
    var b7 := PoisonedOnce(b6, 6);
    var b8 := PoisonedOnce(b7, 7);
  }

  lemma PoisonedOnce(buf: seq<byte>, j: nat) returns (b: seq<byte>)
    requires |buf| > 8 && j < 8
    ensures b == PoisonStep(buf, j) && Poisoned(buf, j) == Poisoned(b, j + 1)
  {
    b := PoisonStep(buf, j);
  }

  /** The loop byte by byte: each of bytes 1 to 8 is overwritten if and only if the byte before it equals the target's
      address, be it as sent or just overwritten itself. */
  lemma PoisonedBytes(buf: seq<byte>)
    requires |buf| > 8
    ensures var r := Poisoned(buf, 0);
            && r[0] == buf[0]
            && (forall k :: 0 <= k < 8 ==> r[k+1] == if r[k] == buf[0] then INFINITY else buf[k+1])
            && (forall k :: 8 < k < |buf| ==> r[k] == buf[k])
  {
    PoisonedFrom(buf, 0);
  }

  lemma {:induction false} PoisonedFrom(buf: seq<byte>, j: nat)
    requires |buf| > 8 && j <= 8
    ensures var r := Poisoned(buf, j);
            && (forall k :: 0 <= k <= j ==> r[k] == buf[k])
            && (forall k :: j <= k < 8 ==> r[k+1] == if r[k] == buf[0] then INFINITY else buf[k+1])
            && (forall k :: 8 < k < |buf| ==> r[k] == buf[k])
    decreases 8 - j
  {
    if j == 8 {
    } else {
      PoisonedFrom(PoisonStep(buf, j), j + 1);
    }
  }

  /** The loop meant to poison reverse routes overwrites only the time to live, unless the target's address equals
      a header byte; then it damages the type, the sender or the first destination. */
  lemma PoisonHarmlessIff(buf: seq<byte>, self: byte, trs: seq<Triple>, to: byte)
    requires IsUpdate(buf, self, trs) && trs != [] && trs[0].dest == self
    requires to != self && to != INFINITY && self != INFINITY
    ensures if Clashes(to, |trs|) then !IsUpdate(Poisoned(buf[0 := to], 0), self, trs)
            else Poisoned(buf[0 := to], 0) == buf[0 := to][1 := INFINITY]
  {
    assert ShowsAt(buf, 0, trs[0]);
    PoisonUnrolled(buf[0 := to]);
    var p := Poisoned(buf[0 := to], 0);
    if IsUpdate(p, self, trs) {
      assert ShowsAt(p, 0, trs[0]);
    }
  }

  lemma ReaddressedIsUpdate(buf: seq<byte>, self: byte, trs: seq<Triple>, to: byte)
    requires IsUpdate(buf, self, trs)
    ensures IsUpdate(buf[0 := to][1 := INFINITY], self, trs)
    ensures Intact(buf[0 := to][1 := INFINITY][..At(|trs|)], self, trs, to)
  {
    var b := buf[0 := to][1 := INFINITY];
    forall j | 0 <= j < |trs| ensures ShowsAt(b, j, trs[j]) && ShowsAt(b[..At(|trs|)], j, trs[j]) {
      assert ShowsAt(buf, j, trs[j]);
    }
  }

  lemma IntactPrefix(b: seq<byte>, self: byte, trs: seq<Triple>, to: byte)
    requires |b| >= At(|trs|)
    ensures Intact(b[..At(|trs|)], self, trs, to) ==> IsUpdate(b, self, trs)
  {
    var f := b[..At(|trs|)];
    assert forall j :: 0 <= j < |trs| && ShowsAt(f, j, trs[j]) ==> ShowsAt(b, j, trs[j]);
  }

  /** Every packet of one update is intact exactly when no target's address equals a header byte. */
  lemma {:induction false} FramesIntactIff(buf: seq<byte>, t: Table, last: byte, self: byte, trs: seq<Triple>)
    requires |buf| > 8 && IsUpdate(buf, self, trs) && trs != [] && trs[0].dest == self && self != INFINITY
    requires forall to :: to in Targets(t, last) ==> to != self && to != INFINITY
    ensures var frames := Frames(buf, t, At(|trs|), last);
            && |frames| == |Targets(t, last)|
            && ((forall i :: 0 <= i < |frames| ==> Intact(frames[i], self, trs, Targets(t, last)[i])) <==>
                (forall to :: to in Targets(t, last) ==> !Clashes(to, |trs|)))
    decreases |t|
  {
    var frames, tos := Frames(buf, t, At(|trs|), last), Targets(t, last);
    if t == [] {
    } else {
      if IsTarget(t[0], last) {
        var to := t[0].nextHop;
        assert to in tos;
        PoisonHarmlessIff(buf, self, trs, to);
        var b := Poisoned(buf[0 := to], 0);
        if Clashes(to, |trs|) {
          assert frames[0] == b[..At(|trs|)];
          IntactPrefix(b, self, trs, to);
          FramesCount(buf, t, At(|trs|), last);
        } else {
          ReaddressedIsUpdate(buf, self, trs, to);
          assert tos == [to] + Targets(t[1..], last);
          assert forall x :: x in tos <==> x == to || x in Targets(t[1..], last);
          FramesIntactIff(b, t[1..], last, self, trs);
          assert frames == [b[..At(|trs|)]] + Frames(b, t[1..], At(|trs|), last);
          assert forall i :: 0 < i < |frames| ==> frames[i] == Frames(b, t[1..], At(|trs|), last)[i-1];
          assert forall i :: 0 <= i < |frames| - 1 ==> frames[i+1] == Frames(b, t[1..], At(|trs|), last)[i];
        }
      } else {
        FramesIntactIff(buf, t[1..], last, self, trs);
      }
    }
  }

  lemma {:induction false} FramesCount(buf: seq<byte>, t: Table, size: nat, last: byte)
    requires |buf| > 8 && size <= |buf|
    ensures |Frames(buf, t, size, last)| == |Targets(t, last)|
    decreases |t|
  {
    if t == [] {
    } else {
      FramesCount(if IsTarget(t[0], last) then Poisoned(buf[0 := t[0].nextHop], 0) else buf, t[1..], size, last);
    }
  }

  // ---- through the two daemons ----

  /** The payload `update_table` sees. Daemon and routing daemon read at most MAX_RT_PKT_SIZE bytes of a packet,
      the first two become the fields of the SDU, and the payload buffer was zeroed before. */
  function Payload(frame: seq<byte>): (p: seq<byte>)
    ensures |p| == MAX_RT_PKT_SIZE
  {
    seq(MAX_RT_PKT_SIZE, k requires 0 <= k < MAX_RT_PKT_SIZE =>
      if k + 2 < |frame| && k + 2 < MAX_RT_PKT_SIZE then frame[k+2] else 0)
  }

  /** The daemon forwards a packet from its routing daemon only when bytes 2..4 spell a type it knows. */
  function Relay(frame: seq<byte>): Option<seq<byte>>
    requires |frame| >= UPD_SIZE
  {
    if frame[2] == U && frame[3] == P && frame[4] == D then Some(Payload(frame)) else None
  }

  predicate IsUpdatePayload(p: seq<byte>)
    requires |p| == MAX_RT_PKT_SIZE
  {
    p[0] == U && p[1] == P && p[2] == D
  }

  /** An intact packet decodes to what was sent exactly when it fits: the sixteenth triple loses its hop count and
      would be taken for a route of no hops. */
  lemma RelayDecodesIff(frame: seq<byte>, self: byte, trs: seq<Triple>, to: byte)
    requires Intact(frame, self, trs, to) && |trs| <= MAX_NTWRK_SIZE + 1
    ensures Relay(frame).Some?
    ensures var p := Relay(frame).value;
            && IsUpdatePayload(p) && Readable(p) && p[3] == self
            && (Decode(p) == trs <==> |trs| <= MAX_NTWRK_SIZE || trs[MAX_NTWRK_SIZE].hops == 0)
            && (|trs| > MAX_NTWRK_SIZE ==> Decode(p)[MAX_NTWRK_SIZE].hops == 0)
  {
    var p := Relay(frame).value;
    forall i | 0 <= i < |trs| && i < MAX_NTWRK_SIZE ensures Decode(p)[i] == trs[i] {
      assert ShowsAt(frame, i, trs[i]);
      assert p[3*i+5] == frame[At(i)] && p[3*i+6] == frame[At(i)+1] && p[3*i+7] == frame[At(i)+2];
    }
    if |trs| > MAX_NTWRK_SIZE {
      assert ShowsAt(frame, 15, trs[15]);
      assert p[50] == frame[52] && p[51] == frame[53] && p[52] == 0;
    }
  }

  // ---- split horizon ----

  function NotVia(trs: seq<Triple>, nextHop: byte): seq<Triple> {
    if trs == [] then []
    else
      var r := NotVia(trs[..|trs|-1], nextHop);
      if trs[|trs|-1].nextHop == nextHop then r else r + [trs[|trs|-1]]
  }

  /** Whether the receiver recognises its own address at all. */
  predicate KnowsItself(signed: bool, self: byte) {
    !signed || self < 128
  }

  /** The receiver folds in exactly the triples whose next hop is not itself if it recognises its own address, and
      all of them otherwise. */
  lemma {:induction false} SplitHorizon(
      cap: Capacity, signed: bool, t: Table, self: byte, src: byte, trs: seq<Triple>, hello: byte)
    ensures var kept := if KnowsItself(signed, self) then NotVia(trs, self) else trs;
            && Merged(cap, signed, t, self, src, trs, hello) == MergedWhole(cap, t, src, kept, hello)
            && (MergeLearns(cap, signed, t, self, src, trs, hello) <==> LearnsWhole(cap, t, src, kept, hello))
    ensures forall tr :: tr in NotVia(trs, self) <==> tr in trs && tr.nextHop != self
  {
    if trs == [] {
    } else {
      var n := |trs| - 1;
      SplitHorizon(cap, signed, t, self, src, trs[..n], hello);
      assert trs == trs[..n] + [trs[n]];
      if !KnowsItself(signed, self) {
        assert !Skips(signed, self, trs[n]);
      } else if trs[n].nextHop != self {
        FoldOneMore(cap, t, src, NotVia(trs[..n], self), trs[n], hello);
      }
    }
  }

  /** An advertisement folded in without leaving anything out. */
  function MergedWhole(cap: Capacity, t: Table, src: byte, trs: seq<Triple>, hello: byte): Table {
    if trs == [] then t
    else
      var tr := trs[|trs|-1];
      Updated(cap, MergedWhole(cap, t, src, trs[..|trs|-1], hello), src, tr.dest, Further(tr.hops), hello)
  }

  predicate LearnsWhole(cap: Capacity, t: Table, src: byte, trs: seq<Triple>, hello: byte) {
    trs != [] &&
    (LearnsWhole(cap, t, src, trs[..|trs|-1], hello) ||
     !Known(MergedWhole(cap, t, src, trs[..|trs|-1], hello), src, trs[|trs|-1].dest, Further(trs[|trs|-1].hops)))
  }

  lemma FoldOneMore(cap: Capacity, t: Table, src: byte, trs: seq<Triple>, tr: Triple, hello: byte)
    ensures var was := MergedWhole(cap, t, src, trs, hello);
            && MergedWhole(cap, t, src, trs + [tr], hello) == Updated(cap, was, src, tr.dest, Further(tr.hops), hello)
            && (LearnsWhole(cap, t, src, trs + [tr], hello) <==>
                LearnsWhole(cap, t, src, trs, hello) || !Known(was, src, tr.dest, Further(tr.hops)))
  {
    assert (trs + [tr])[..|trs|] == trs;
  }

  /** With a signed `char`, node 200 stores a route that its neighbour runs through node 200 itself. */
  lemma SkipFailsWitness(hello: byte)
    ensures Merged(Unlimited, true, [], 200, 10, [Triple(30, 200, 3)], hello) == [Entry(30, 10, 4, hello)]
    ensures Merged(Unlimited, false, [], 200, 10, [Triple(30, 200, 3)], hello) == []
  {
    var trs := [Triple(30, 200, 3)];
    assert trs[..0] == [];
    assert Touched([], 10, 30, 4) == [];
  }

  /** What a well-addressed node puts on the wire. */
  lemma WireIntact(signed: bool, self: byte, t: Table, last: byte)
    requires 0 < |t| && PlainDests(t) && t[0].dest == self
    requires |Advertised(signed, t)| <= MAX_NTWRK_SIZE
    requires forall to :: to in Targets(t, last) ==>
               to != self && to != INFINITY && !Clashes(to, |Advertised(signed, t)|)
    ensures var frames := UpdateFrames(signed, self, t, last);
            && |frames| == |Targets(t, last)|
            && forall i :: 0 <= i < |frames| ==>
                 && |frames[i]| >= UPD_SIZE && frames[i][0] == Targets(t, last)[i]
                 && Intact(frames[i], self, Advertised(signed, t), Targets(t, last)[i])
                 && Relay(frames[i]).Some? && Readable(Relay(frames[i]).value)
                 && var p := Relay(frames[i]).value;
                    IsUpdatePayload(p) && p[3] == self && Decode(p) == Advertised(signed, t)
  {
    var trs := Advertised(signed, t);
    AdvertisedFits(signed, t);
    FirstAdvertised(signed, t);
    LayoutIsLaid(self, |trs|, trs, |t|);
    var buf := UpdateBuffer(self, trs, |t|);
    FramesIntactIff(buf, t, last, self, trs);
    var frames := UpdateFrames(signed, self, t, last);
    forall i | 0 <= i < |frames|
      ensures |frames[i]| >= UPD_SIZE && Relay(frames[i]).Some? && Readable(Relay(frames[i]).value)
              && IsUpdatePayload(Relay(frames[i]).value) && Relay(frames[i]).value[3] == self
              && Decode(Relay(frames[i]).value) == trs && Intact(frames[i], self, trs, Targets(t, last)[i])
    {
      assert Intact(frames[i], self, trs, Targets(t, last)[i]);
      RelayDecodesIff(frames[i], self, trs, Targets(t, last)[i]);
    }
  }

  /** Node 10 with neighbour 2 advertises two routes, so the neighbour's address equals the count byte: the route to
      10 itself reaches the neighbour as a route to 255. */
  lemma ClashWitness()
    ensures var t := [Entry(10, 10, 0, 0), Entry(2, 2, 1, 0)];
            var frames := UpdateFrames(false, 10, t, 255);
            && Targets(t, 255) == [2] && |frames| == 1 && |frames[0]| >= UPD_SIZE && Relay(frames[0]).Some?
            && var p := Relay(frames[0]).value; Readable(p) && |Decode(p)| == 2 && Decode(p)[0] == Triple(255, 10, 0)
  {
    var t := [Entry(10, 10, 0, 0), Entry(2, 2, 1, 0)];
    var trs := [Triple(10, 10, 0), Triple(2, 2, 1)];
    ClashAdvertised();
    ClashFrame();
    var buf := UpdateBuffer(10, trs, 2);
    assert t[1..][1..] == [];
    assert Frames(buf, t[1..], 13, 255) == [Poisoned(buf[0 := 2], 0)[..13]];
  }

  /** The packet to 2: the loop also finds 2 in the count byte, and overwrites the first destination behind it. */
  lemma ClashFrame()
    ensures var f := Poisoned(UpdateBuffer(10, [Triple(10, 10, 0), Triple(2, 2, 1)], 2)[0 := 2], 0);
            && |f| == 13 && f[2] == U && f[3] == P && f[4] == D && f[5] == 10
            && f[6] == 2 && f[7] == INFINITY && f[8] == 10 && f[9] == 0
  {
    var trs := [Triple(10, 10, 0), Triple(2, 2, 1)];
    var buf := UpdateBuffer(10, trs, 2);
    LayoutIsLaid(10, 2, trs, 2);
    assert ShowsAt(buf, 0, Nth(trs, 0));
    PoisonUnrolled(buf[0 := 2]);
  }

  lemma ClashAdvertised()
    ensures Advertised(false, [Entry(10, 10, 0, 0), Entry(2, 2, 1, 0)]) == [Triple(10, 10, 0), Triple(2, 2, 1)]
  {
    var t := [Entry(10, 10, 0, 0), Entry(2, 2, 1, 0)];
    assert t[..1][..0] == [];
    assert Advertised(false, t[..1]) == [Triple(10, 10, 0)];
    assert IndexOf([Triple(10, 10, 0)], 2) == 1;
  }

  /** Entry 0 is always listed first. */
  lemma {:induction false} FirstAdvertised(signed: bool, t: Table)
    requires 0 < |t| && PlainDests(t)
    ensures var trs := Advertised(signed, t); |trs| > 0 && trs[0].dest == t[0].dest
  {
    if |t| == 1 {
      assert Advertised(signed, t[..0]) == [];
      assert Advertised(signed, t) == [AsTriple(t[0])];
    } else {
      FirstAdvertised(signed, t[..|t|-1]);
      CollectedAt(signed, Advertised(signed, t[..|t|-1]), t[|t|-1], t[0].dest);
    }
  }
}
