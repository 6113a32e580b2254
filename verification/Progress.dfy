/** The protocol never gets stuck: from every state that a run can reach, even if everything on its way is lost at that
    moment, there is a way to go on by which the reader is given everything the sender has accepted. */
module Progress {
  import opened SeqNo
  import opened LossChain
  import opened Packets
  import opened RcvRing
  import opened Delivery
  import opened Streams
  import opened Protocol
  import opened Networks

  /** n1 can be reached from n without accepting anything new. */
  ghost predicate Goes(n: Net, n1: Net) {
    && Inv(n) && Inv(n1) && Grows(n, n1)
    && n1.msgs == n.msgs && n1.s.stream == n.s.stream
    && exists acts :: Networks.Run(n, acts) == n1
  }

  lemma GoesNowhere(n: Net)
    requires Inv(n)
    ensures Goes(n, n)
  {
    hide Inv, Grows;
    GrowsSelf(n);
    RunNone(n);
  }

  lemma GoesOne(n: Net, act: Act)
    requires Inv(n) && !act.Send?
    ensures SenderOk(n.s) && ReceiverOk(n.r) && Goes(n, Next(n, act))
  {
    hide Inv, Grows, Next;
    Networks.StepKeeps(n, act);
    BothOk(n);
    StreamStays(n, act);
    RunOne(n, [act]);
    assert [act][1..] == [];
    RunNone(Next(n, act));
  }

  lemma StreamStays(n: Net, act: Act)
    requires SenderOk(n.s) && ReceiverOk(n.r) && !act.Send?
    ensures Next(n, act).msgs == n.msgs && Next(n, act).s.stream == n.s.stream
  {
    hide OnData, Acknowledge, Receive;
    if act.Deliver? && act.m.Control? && act.m.report.LossReport? {
      var nodes := [Node(act.m.report.lo, act.m.report.hi)];
      assert nodes[1..] == [];
      assert Secure(n.s, nodes[0]) ==> OnNak(OnRange(n.s, nodes[0]), nodes[1..]) == OnRange(n.s, nodes[0]);
    }
  }

  lemma GoesOn(n: Net, n1: Net, n2: Net)
    requires Goes(n, n1) && Goes(n1, n2)
    ensures Goes(n, n2)
  {
    hide Inv, Grows;
    GrowsOn(n, n1, n2);
    var a :| Networks.Run(n, a) == n1;
    var b :| Networks.Run(n1, b) == n2;
    RunBoth(n, a, b);
  }

  /** Windows are shorter than the reach of the comparisons. */
  ghost predicate Wide(n: Net) {
    Inv(n) && n.initial >= 1 && MaxWindow(n) + 1 < THRESHOLD
  }

  /** An acknowledgement up to y counts as newer than the last one that was confirmed. */
  ghost predicate Hears(n: Net, y: int) {
    SeqCmp(Wrap(y), n.r.ackAck) > 0
  }

  /** What the receiver would acknowledge now is confirmed, or a full ACK will say it. */
  ghost predicate Hearing(n: Net) {
    ReceiverOk(n.r) && (AckPoint(n.r) == n.acked2 || Hears(n, AckPoint(n.r)))
  }

  ghost predicate InReach(n: Net) {
    Wide(n) && Hearing(n)
  }

  /** Every message that has not been read fits the receiver's buffer. */
  ghost predicate AllFit(n: Net) {
    n.s.mss > 0 && forall i :: |n.r.delivered| <= i < |n.msgs| ==> |Fragments(n.msgs[i], n.s.mss, MsgNoOf(i), true, true)| < |n.r.ring.slots|
  }

  ghost predicate Good(n: Net) {
    InReach(n) && AllFit(n)
  }

  /** Less than 2^30-1 packets since the last confirmed acknowledgement are close enough. */
  lemma NearIsHeard(n: Net)
    requires Inv(n) && n.r.next - n.acked2 < THRESHOLD
    ensures Hearing(n)
  {
    var a := AckPoint(n.r);
    assert n.acked2 <= n.r.lastAck <= a <= n.r.next && n.r.ackAck == Wrap(n.acked2);
    hide Inv, SeqCmp, Wrap;
    CmpOfWrap(a, n.acked2);
  }

  /** Both ends agree on what has been acknowledged: everything in front of the first missing packet, k. */
  ghost predicate Agreed(n: Net, k: int) {
    && ReceiverOk(n.r) && AckPoint(n.r) == k
    && n.r.lastAck == n.acked2 == n.s.lastAck == n.s.dataAck == k && n.s.window >= 1
  }

  /** What matters of the receiver does not change. */
  ghost predicate SameRest(n: Net, n1: Net) {
    && ReceiverOk(n.r) && ReceiverOk(n1.r)
    && n1.r.start == n.r.start && n1.r.delivered == n.r.delivered && n1.r.next == n.r.next && n1.r.loss == n.r.loss
    && AckPoint(n1.r) == AckPoint(n.r) && n.acked2 <= n1.acked2
  }

  lemma StaysInReach(n: Net, n1: Net)
    requires Wide(n) && Goes(n, n1)
    ensures Wide(n1) && (AllFit(n) ==> AllFit(n1))
    ensures n1.r.next - n1.acked2 < THRESHOLD || Hearing(n1) ==> InReach(n1) && (AllFit(n) ==> Good(n1))
  {
    if n1.r.next - n1.acked2 < THRESHOLD {
      NearIsHeard(n1);
    }
    hide Inv, Fragments, Hearing;
  }

  /** The receiver acknowledges. */
  lemma AckSent(n: Net) returns (w: nat)
    requires InReach(n) && AckPoint(n.r) != n.acked2
    ensures var n1 := Next(n, SendAck(false, false));
            && Goes(n, n1) && SameRest(n, n1) && n1.acked2 == n.acked2 && n1.r.ackAck == n.r.ackAck && n1.s == n.s
            && n1.r.lastAck == AckPoint(n.r) && w >= 2 && Control(FullAck(AckPoint(n.r), w)) in n1.wire && Hears(n1, AckPoint(n.r))
  {
    var a := AckPoint(n.r);
    hide Inv, Grows, SeqCmp, Wrap, Goes;
    AckPointFacts(n);
    HeardDiffers(n, a);
    GoesOne(n, SendAck(false, false));
    var (r1, report) := Acknowledge(n.r, false, false);
    assert report == FullAck(a, MaxOf(2, Avail(r1.ring)));
    w := report.w;
  }

  lemma AckPointFacts(n: Net)
    requires Inv(n)
    ensures ReceiverOk(n.r) && n.acked2 <= n.r.lastAck <= AckPoint(n.r) <= n.r.next <= n.s.sent && n.r.ackAck == Wrap(n.acked2)
    ensures n.s.dataAck <= n.s.lastAck <= AckPoint(n.r)
  {
    assert Above(n.r, n.s.lastAck);
  }

  lemma HeardDiffers(n: Net, y: int)
    requires Hears(n, y)
    ensures Wrap(y) != n.r.ackAck
  {
    hide Wrap;
  }

  lemma AckIsFresh(n: Net, k: nat, w: nat)
    requires Inv(n) && MaxWindow(n) + 1 < THRESHOLD && n.r.lastAck == k && Control(FullAck(k, w)) in n.wire
    ensures Fresh(n, Control(FullAck(k, w))) && k <= n.s.sent && SenderOk(n.s)
  {
    assert Sound(n, Control(FullAck(k, w))) && SenderOk(n.s);
    hide Inv;
    Cursors(n);
    Windows(n);
  }

  /** The acknowledgement arrives. */
  lemma AckArrives(n: Net, k: nat, w: nat)
    requires Inv(n) && MaxWindow(n) + 1 < THRESHOLD && n.r.lastAck == k && w >= 2 && Control(FullAck(k, w)) in n.wire
    ensures var n1 := Next(n, Deliver(Control(FullAck(k, w))));
            && Goes(n, n1) && n1.r == n.r && n1.acked2 == n.acked2
            && (k >= n.s.lastAck ==> n1.s.lastAck == n1.s.dataAck == k && n1.s.window >= 1)
            && Control(AckOfAck(k)) in n1.wire
  {
    hide Inv, Grows, Goes;
    AckIsFresh(n, k, w);
    GoesOne(n, Deliver(Control(FullAck(k, w))));
  }

  /** Its confirmation arrives. */
  lemma ConfirmArrives(n: Net, k: nat)
    requires Inv(n) && n.r.lastAck == k && Control(AckOfAck(k)) in n.wire && Hears(n, k)
    ensures var n1 := Next(n, Deliver(Control(AckOfAck(k))));
            Goes(n, n1) && n1.s == n.s && n1.r == n.r.(ackAck := n1.r.ackAck) && n1.acked2 == k
  {
    hide Inv, Grows, Goes, SeqCmp, Wrap, OnData, OnAck, OnNak, OnLightAck;
    GoesOne(n, Deliver(Control(AckOfAck(k))));
  }

  /** Both ends can come to agree. */
  lemma Agree(n: Net) returns (n1: Net)
    requires InReach(n)
    ensures Goes(n, n1) && InReach(n1) && (Good(n) ==> Good(n1)) && SameRest(n, n1) && Agreed(n1, AckPoint(n.r))
  {
    var k := AckPoint(n.r);
    Cursors(n);
    Windows(n);
    assert n.s.lastAck <= k && n.acked2 <= n.r.lastAck <= k && Known(n, n.acked2);
    hide Inv, Grows, Goes, Next, AckPoint;
    if k == n.acked2 {
      n1 := n;
      GoesNowhere(n);
    } else {
      var w := AckSent(n);
      var na := Next(n, SendAck(false, false));
      SameWindows(n, na);
      AckArrives(na, k, w);
      var nb := Next(na, Deliver(Control(FullAck(k, w))));
      ConfirmArrives(nb, k);
      n1 := Next(nb, Deliver(Control(AckOfAck(k))));
      GoesOn(n, na, nb);
      GoesOn(n, nb, n1);
      SameAckPoint(nb, n1);
      StaysInReach(n, n1);
    }
  }

  lemma SameWindows(n: Net, n1: Net)
    requires Goes(n, n1)
    ensures MaxWindow(n1) == MaxWindow(n) && Inv(n1)
  {
    hide Inv;
  }

  lemma SameAckPoint(n: Net, n1: Net)
    requires Inv(n) && Inv(n1) && n1.r == n.r.(ackAck := n1.r.ackAck)
    ensures ReceiverOk(n.r) && ReceiverOk(n1.r) && AckPoint(n1.r) == AckPoint(n.r)
  {
  }

  // ----- getting the first missing packet onto the wire

  /** The end of the stream, and how far it can be sent before another full ACK comes. */
  function End(n: Net): int {
    n.s.isn + |n.s.stream|
  }

  function Limit(n: Net): int {
    var l := MaxOf(n.s.sent, n.s.lastAck + n.s.window);
    if l < End(n) then l else End(n)
  }

  /** All lost packets go out again. */
  lemma {:induction false} Drain(n: Net) returns (n1: Net)
    requires Inv(n)
    ensures Goes(n, n1) && n1.r == n.r && n1.acked2 == n.acked2 && n1.s == n.s.(loss := {})
    ensures n.wire <= n1.wire && forall x: nat :: x in n.s.loss ==> OnWire(n1, x)
    decreases |n.s.loss|
  {
    if n.s.loss == {} {
      hide Inv, Goes;
      GoesNowhere(n);
      n1 := n;
    } else {
      var x := Least(n.s.loss);
      PackLeast(n, x);
      var na := Next(n, Pack(0));
      assert |n.s.loss - {x}| < |n.s.loss|;
      hide Inv, Goes, Next, Grows;
      GoesInv(n, na);
      n1 := Drain(na);
      GoesOn(n, na, n1);
      assert OnWire(n1, x) by { WireHas(na, n1, x); }
    }
  }

  lemma PackLeast(n: Net, x: int)
    requires Inv(n) && n.s.loss != {} && x == Least(n.s.loss)
    ensures x >= 0 && SenderOk(n.s) && ReceiverOk(n.r)
    ensures var na := Next(n, Pack(0));
            && Goes(n, na) && na.r == n.r && na.acked2 == n.acked2 && na.s == n.s.(loss := n.s.loss - {x})
            && n.wire <= na.wire && OnWire(na, x)
  {
    GoesOne(n, Pack(0));
    assert Data(x, PacketAt(n.s, x)) in Next(n, Pack(0)).wire;
  }

  lemma WireHas(n: Net, n1: Net, x: nat)
    requires OnWire(n, x) && n.wire <= n1.wire
    ensures OnWire(n1, x)
  {
    var p :| Data(x, p) in n.wire;
    assert Data(x, p) in n1.wire;
  }

  lemma GoesInv(n: Net, n1: Net)
    requires Goes(n, n1)
    ensures Inv(n) && Inv(n1)
  {
  }

  /** The first missing packet, k, can be sent, again or for the first time, if the sender has the window for it. */
  lemma SendMissing(n: Net, k: nat) returns (n1: Net)
    requires Inv(n) && ReceiverOk(n.r) && AckPoint(n.r) == k < Limit(n)
    ensures Goes(n, n1) && n1.r == n.r && n1.acked2 == n.acked2 && OnWire(n1, k) && Limit(n1) == Limit(n)
  {
    AckPointFacts(n);
    hide Inv, Goes, Grows, OnWire, AckPoint;
    var na := Drain(n);
    GoesInv(n, na);
    if k in n.s.loss {
      n1 := na;
    } else if k == n.s.sent {
      SendNew(na, k);
      n1 := Next(na, Pack(na.s.window));
      GoesOn(n, na, n1);
    } else {
      n1 := SendAgain(na, k);
      GoesOn(n, na, n1);
    }
  }

  lemma SendNew(n: Net, k: nat)
    requires Inv(n) && n.s.loss == {} && k == n.s.sent < Limit(n)
    ensures var n1 := Next(n, Pack(n.s.window));
            Goes(n, n1) && n1.r == n.r && n1.acked2 == n.acked2 && OnWire(n1, k) && Limit(n1) == Limit(n)
  {
    GoesOne(n, Pack(n.s.window));
    assert Data(k, PacketAt(n.s, k)) in Next(n, Pack(n.s.window)).wire;
  }

  lemma SendAgain(n: Net, k: nat) returns (n1: Net)
    requires Inv(n) && n.s.loss == {} && n.s.dataAck <= n.s.lastAck <= k < n.s.sent
    ensures Goes(n, n1) && n1.r == n.r && n1.acked2 == n.acked2 && OnWire(n1, k) && Limit(n1) == Limit(n)
  {
    hide Inv, Goes, Grows, OnWire, Next;
    GoesOne(n, Timeout);
    TimesOut(n);
    var na := Next(n, Timeout);
    GoesInv(n, na);
    n1 := Drain(na);
    GoesOn(n, na, n1);
  }

  lemma TimesOut(n: Net)
    requires SenderOk(n.s) && ReceiverOk(n.r) && n.s.loss == {} && n.s.dataAck <= n.s.lastAck < n.s.sent
    ensures Next(n, Timeout) == n.(s := n.s.(loss := Range(n.s.lastAck, n.s.sent - 1)))
  {
  }

  // ----- one round

  /** Packet y has not been received. */
  ghost predicate Missing(r: Receiver, y: int) {
    y >= r.next || y in r.loss
  }

  /** The first missing packet arrives, and is kept: the ring has a free slot. */
  lemma FillsGap(n: Net, k: nat) returns (n1: Net)
    requires Inv(n) && AckPoint(n.r) == n.r.lastAck == k && OnWire(n, k) && Avail(n.r.ring) >= 1
    ensures Goes(n, n1) && ReceiverOk(n1.r) && AckPoint(n1.r) > k
    ensures n1.acked2 == n.acked2 && n1.r.start == n.r.start && n1.r.delivered == n.r.delivered && n1.r.lastAck == k
    ensures n1.s == n.s && n1.r.ackAck == n.r.ackAck && forall y :: Missing(n.r, y) && y != k ==> Missing(n1.r, y)
  {
    var p :| Data(k, p) in n.wire;
    hide Inv, Grows, OnData, Goes, Next, AckPoint, ReceiverOk;
    StoresFirst(n, k, p);
    GoesOne(n, Deliver(Data(k, p)));
    DataEffect(n, k, p);
    n1 := Next(n, Deliver(Data(k, p)));
  }

  lemma DataEffect(n: Net, k: nat, p: Packet)
    requires SenderOk(n.s) && ReceiverOk(n.r) && n.r.lastAck == k && Data(k, p) in n.wire
    ensures var n1 := Next(n, Deliver(Data(k, p))); n1.r == OnData(n.r, k, p).0 && n1.acked2 == n.acked2 && ReceiverOk(n1.r) && n1.s == n.s
  {
    hide ReceiverOk, SenderOk, OnData, OnAck, OnNak, OnLightAck, Confirm;
  }

  lemma StoresFirst(n: Net, k: nat, p: Packet)
    requires Inv(n) && AckPoint(n.r) == n.r.lastAck == k && Data(k, p) in n.wire && Avail(n.r.ring) >= 1
    ensures ReceiverOk(n.r)
    ensures var r := OnData(n.r, k, p).0;
            && AckPoint(r) > k && r.start == n.r.start && r.delivered == n.r.delivered && r.lastAck == k && r.ackAck == n.r.ackAck
            && forall y :: Missing(n.r, y) && y != k ==> Missing(r, y)
  {
    hide Inv, ReceiverOk, Filed, AckPoint, OnData;
    IsFiled(n);
    FirstMissing(n.r);
    FirstStored(n.r, p);
  }

  lemma IsFiled(n: Net)
    requires Inv(n)
    ensures ReceiverOk(n.r) && Filed(n.r)
  {
  }

  lemma FirstMissing(r: Receiver)
    requires ReceiverOk(r) && Filed(r) && AckPoint(r) == r.lastAck && Avail(r.ring) >= 1
    ensures r.ring.slots[r.ring.acked] == Empty
  {
    hide Ready;
    assert r.start + r.ring.acked == r.lastAck;
    if r.loss == {} {
      assert r.lastAck == r.next;
    } else {
      assert r.lastAck in r.loss;
    }
  }

  lemma FirstStored(r: Receiver, p: Packet)
    requires ReceiverOk(r) && AckPoint(r) == r.lastAck && Avail(r.ring) >= 1 && r.ring.slots[r.ring.acked] == Empty
    ensures var r1 := OnData(r, r.lastAck, p).0;
            && AckPoint(r1) > r.lastAck && r1.start == r.start && r1.delivered == r.delivered && r1.lastAck == r.lastAck
            && r1.ackAck == r.ackAck && forall y :: Missing(r, y) && y != r.lastAck ==> Missing(r1, y)
  {
  }

  /** The unread message that starts the ring, d, is there as a whole. */
  ghost predicate MessageThere(n: Net) {
    var d := |n.r.delivered|;
    d < |n.msgs| && n.s.mss > 0 && n.r.ring.acked >= |Fragments(n.msgs[d], n.s.mss, MsgNoOf(d), true, true)|
  }

  /** Where the unread message is. */
  lemma NextMessage(n: Net)
    requires Inv(n) && |n.r.delivered| < |n.msgs|
    ensures var d := |n.r.delivered|;
            var f := Fragments(n.msgs[d], n.s.mss, MsgNoOf(d), true, true);
            var base := n.r.start - n.s.isn;
            && 0 <= base && 0 < |f| && base + |f| <= |n.s.stream| && IsLast(n.s.stream[base + |f| - 1])
  {
    var d := |n.r.delivered|;
    var f := Fragments(n.msgs[d], n.s.mss, MsgNoOf(d), true, true);
    StreamPrefix(n.msgs, n.s.mss, d);
    FragmentsShape(n.msgs[d], n.s.mss, MsgNoOf(d), true, true);
    assert n.s.stream == StreamOf(n.msgs, n.s.mss);
    hide ReceiverInv, LinkInv, WireInv, ConfirmedInv, StreamOf, Fragments, IsLast, IsFirst, InOrder;
    assert IsLast(f[|f| - 1]);
    var upto := StreamOf(n.msgs[..d + 1], n.s.mss);
    assert upto[|upto| - 1] == f[|f| - 1];
  }

  /** A message that is there can be read. */
  lemma ReadsMessage(n: Net) returns (n1: Net)
    requires Inv(n) && MessageThere(n)
    ensures Goes(n, n1) && n1.r.start > n.r.start && n1.acked2 == n.acked2 && n1.r.next == n.r.next && n1.r.loss == n.r.loss
    ensures n1.s == n.s && n1.r.ackAck == n.r.ackAck
    ensures var d := |n.r.delivered|;
            |n1.r.delivered| == d + 1 && d < |n.msgs| && n1.r.delivered[d].0 == n.msgs[d]
  {
    hide Inv, Goes, Grows, Receive, StreamOf, WellFormed, Carrying, ReceiverInv, MessageThere, NoneEmpty, Reads;
    var len := ReadFacts(n);
    GoesOne(n, Recv(len));
    n1 := Next(n, Recv(len));
    StreamShape(n.msgs, n.s.mss);
    ReadKeepsReceiver(n.r, len, n.s.stream);
    GoesInv(n, n1);
    WholeRead(n, n1, len);
  }

  lemma ReadFacts(n: Net) returns (len: nat)
    requires Inv(n) && MessageThere(n)
    ensures n.s.mss > 0 && n.s.stream == StreamOf(n.msgs, n.s.mss) && NoneEmpty(n.msgs) && ReceiverInv(n.r, n.s.stream)
    ensures |n.r.delivered| < |n.msgs| && len == |n.msgs[|n.r.delivered|]| && Receive(n.r, len).start > n.r.start
  {
    var d := |n.r.delivered|;
    len := |n.msgs[d]|;
    var f := Fragments(n.msgs[d], n.s.mss, MsgNoOf(d), true, true);
    NextMessage(n);
    assert n.msgs[d] != [];
    assert |f| - 1 < n.r.ring.acked;
    hide Fragments, StreamOf, WellFormed, Receive, WireInv, LinkInv, ConfirmedInv;
    ReadMoves(n.r, len, n.s.stream, |f| - 1);
  }

  lemma WholeRead(n: Net, n1: Net, len: nat)
    requires Inv(n1) && n1 == n.(r := n1.r) && Reads(n.r, n1.r, len, n.s.stream) && n1.r.start > n.r.start
    requires |n.r.delivered| < |n.msgs| && len == |n.msgs[|n.r.delivered|]|
    ensures var d := |n.r.delivered|; |n1.r.delivered| == d + 1 && n1.r.delivered[d].0 == n.msgs[d]
  {
    var d := |n.r.delivered|;
    assert DeliveredInv(n1);
    hide Inv, WholeMessage, Payload, StreamOf;
    assert n1.r.delivered[d].1 == len;
  }

  lemma ReadMoves(r: Receiver, len: nat, stream: seq<Packet>, t: nat)
    requires ReceiverInv(r, stream) && len > 0 && t < r.ring.acked && r.start - r.isn + t < |stream| && IsLast(stream[r.start - r.isn + t])
    ensures Receive(r, len).start > r.start
  {
    assert Ready(r.ring.slots[t]) && r.ring.slots[t].packet == stream[r.start - r.isn + t];
    assert EndsAt(r.ring.slots, t);
    ReadsNext(r.ring, r.start - r.isn, stream, len);
    hide ReadMsg, AllThere, WholeMessage, Payload, Take, Filed, EndsAt;
  }

  /** How far things have come: what has been read, and what has been received without a gap. */
  ghost function Measure(n: Net): int
    requires ReceiverOk(n.r)
  {
    n.r.start - n.r.isn + (AckPoint(n.r) - n.r.isn)
  }

  lemma MeasureBound(n: Net)
    requires Inv(n)
    ensures ReceiverOk(n.r) && Measure(n) <= 2 * |n.s.stream|
  {
    Cursors(n);
  }

  /** From message `from` on, the reader has been given whole messages. */
  ghost predicate WholeFrom(n: Net, from: nat) {
    |n.r.delivered| <= |n.msgs| && forall i :: from <= i < |n.r.delivered| ==> n.r.delivered[i].0 == n.msgs[i]
  }

  lemma RoundRead(n: Net, na: Net, k: nat) returns (n1: Net)
    requires Good(n) && Goes(n, na) && SameRest(n, na) && Agreed(na, k) && MessageThere(na)
    ensures Goes(n, n1) && Good(n1) && Measure(n1) > Measure(n)
    ensures |n.r.delivered| <= |n1.r.delivered| && WholeFrom(n1, |n.r.delivered|)
  {
    hide Inv, Grows, AckPoint, MessageThere;
    SameIsn(n, na);
    n1 := ReadsMessage(na);
    ReadMeasure(na, n1);
    GoesOn(n, na, n1);
    SamePoint(na, n1);
    StaysInReach(n, n1);
  }

  lemma SamePoint(n: Net, n1: Net)
    requires Goes(n, n1) && n1.r.next == n.r.next && n1.r.loss == n.r.loss
    ensures ReceiverOk(n.r) && ReceiverOk(n1.r) && AckPoint(n1.r) == AckPoint(n.r)
  {
  }

  lemma RoundFill(n: Net, na: Net, k: nat) returns (n1: Net)
    requires Good(n) && Good(na) && Goes(n, na) && SameRest(n, na) && Agreed(na, k) && !MessageThere(na) && |na.r.delivered| < |na.msgs|
    ensures Goes(n, n1) && Good(n1) && Measure(n1) > Measure(n) && n1.r.delivered == n.r.delivered
  {
    hide Inv, Goes, Grows, AckPoint, MessageThere, OnWire;
    HasRoom(na, k);
    var nb := SendMissing(na, k);
    GoesInv(na, nb);
    n1 := FillsGap(nb, k);
    GoesOn(na, nb, n1);
    GoesOn(n, na, n1);
    SameIsn(n, n1);
    NextStaysNear(n, n1);
    StaysInReach(n, n1);
  }

  lemma SameIsn(n: Net, n1: Net)
    requires Goes(n, n1)
    ensures n.r.isn == n1.r.isn && n1.msgs == n.msgs
  {
    hide Inv;
  }

  /** While something accepted has not been read, there is a way to go on. */
  lemma Round(n: Net) returns (n1: Net)
    requires Good(n) && |n.r.delivered| < |n.msgs|
    ensures Goes(n, n1) && Good(n1) && Measure(n1) > Measure(n)
    ensures |n.r.delivered| <= |n1.r.delivered| && WholeFrom(n1, |n.r.delivered|)
  {
    var k := AckPoint(n.r);
    var na := Agree(n);
    SameIsn(n, na);
    hide Inv, Goes, Grows, AckPoint, Measure, Agreed, MessageThere, Hearing;
    if MessageThere(na) {
      n1 := RoundRead(n, na, k);
    } else {
      n1 := RoundFill(n, na, k);
      DeliveredBound(n1);
    }
  }

  lemma DeliveredBound(n: Net)
    requires Good(n)
    ensures |n.r.delivered| <= |n.msgs|
  {
  }

  lemma ReadMeasure(n: Net, n1: Net)
    requires Goes(n, n1) && n1.r.start > n.r.start && n1.r.next == n.r.next && n1.r.loss == n.r.loss
    ensures ReceiverOk(n.r) && ReceiverOk(n1.r) && Measure(n1) > Measure(n)
    ensures |n.r.delivered| <= |n1.r.delivered| <= |n1.msgs|
  {
  }

  lemma HasRoom(n: Net, k: nat)
    requires Inv(n) && AllFit(n) && n.r.lastAck == k && |n.r.delivered| < |n.msgs| && !MessageThere(n)
    ensures Avail(n.r.ring) >= 1 && k < n.s.isn + |n.s.stream|
  {
    NextMessage(n);
    hide Fragments, StreamOf, ReceiverInv, WireInv, DeliveredInv;
    assert ReceiverOk(n.r) && n.r.lastAck == n.r.start + n.r.ring.acked;
  }

  lemma NextStaysNear(n: Net, n1: Net)
    requires Wide(n) && Goes(n, n1) && n1.acked2 == n1.r.lastAck
    ensures n1.r.next - n1.acked2 < THRESHOLD
  {
    Windows(n1);
    SameWindows(n, n1);
    hide Inv, Goes;
  }

  lemma {:induction false} Finish(n: Net) returns (n1: Net)
    requires Good(n)
    ensures Goes(n, n1) && |n1.r.delivered| == |n1.msgs| && WholeFrom(n1, |n.r.delivered|)
    decreases 2 * |n.s.stream| - (if ReceiverOk(n.r) then Measure(n) else 0)
  {
    MeasureBound(n);
    if |n.r.delivered| >= |n.msgs| {
      DeliveredBound(n);
      n1 := n;
      hide Inv, Goes;
      GoesNowhere(n);
    } else {
      var na := Round(n);
      MeasureBound(na);
      n1 := Finish(na);
      KeepsWhole(n, na, n1);
      hide Inv, Goes, Grows;
      GoesOn(n, na, n1);
    }
  }

  lemma KeepsWhole(n: Net, na: Net, n1: Net)
    requires Goes(n, na) && Goes(na, n1) && WholeFrom(na, |n.r.delivered|) && WholeFrom(n1, |na.r.delivered|)
    ensures WholeFrom(n1, |n.r.delivered|)
  {
    assert na.r.delivered <= n1.r.delivered && n1.msgs == na.msgs;
    hide Inv, Grows;
    forall i | |n.r.delivered| <= i < |n1.r.delivered|
      ensures n1.r.delivered[i].0 == n1.msgs[i]
    {
      if i < |na.r.delivered| {
        assert n1.r.delivered[i] == na.r.delivered[i];
      }
    }
  }

  /** From n on, with everything on its way lost, n1 can be reached without accepting anything new, and there the reader
      has been given every message accepted so far: those he had not been given in n whole, byte for byte. */
  ghost predicate Completes(n: Net, n1: Net) {
    && Goes(n.(wire := {}), n1)
    && n1.msgs == n.msgs && |n1.r.delivered| == |n.msgs| && n.r.delivered <= n1.r.delivered
    && forall i :: |n.r.delivered| <= i < |n.msgs| ==> n1.r.delivered[i].0 == n.msgs[i]
  }

  lemma Reached(isn: nat, mss: nat, limit: nat, size: nat, initial: int, acts: seq<Act>)
    requires mss > 0 && size > 0 && 1 <= initial && initial + size + 2 < THRESHOLD
    ensures var n0 := Networks.Start(isn, mss, limit, size, initial);
            var n := Networks.Run(n0, acts);
            Inv(n0) && Wide(n) && n.initial == initial && |n.r.ring.slots| == size && n.s.isn == isn
  {
    hide Inv;
    var n0 := Networks.Start(isn, mss, limit, size, initial);
    RunGrows(n0, acts);
  }

  /** Wherever a run stops, and whatever is lost there: if every message still to be read fits the receiver's buffer, and
      fewer than 2^30-1 packets have come since the last confirmed acknowledgement, there is a way to go on to the end. */
  lemma NeverStuck(isn: nat, mss: nat, limit: nat, size: nat, initial: int, acts: seq<Act>)
    requires mss > 0 && size > 0 && 1 <= initial && initial + size + 2 < THRESHOLD
    requires var n := Networks.Run(Networks.Start(isn, mss, limit, size, initial), acts);
             n.r.next - n.acked2 < THRESHOLD && AllFit(n)
    ensures exists n1 :: Completes(Networks.Run(Networks.Start(isn, mss, limit, size, initial), acts), n1)
  {
    hide Inv, Networks.Start, Networks.Run, AllFit, Hearing, Completes;
    Reached(isn, mss, limit, size, initial, acts);
    var n := Networks.Run(Networks.Start(isn, mss, limit, size, initial), acts);
    NearIsHeard(n);
    var n1 := FinishAll(n);
  }

  lemma FinishAll(n: Net) returns (n1: Net)
    requires Good(n)
    ensures Completes(n, n1)
  {
    var lost := n.(wire := {});
    AllLost(n);
    hide Inv, Goes;
    n1 := Finish(lost);
    FinishFacts(lost, n1);
  }

  lemma AllLost(n: Net)
    requires Inv(n)
    ensures Inv(n.(wire := {}))
  {
    hide AllThere, StreamOf, Take;
  }

  lemma FinishFacts(n: Net, n1: Net)
    requires Goes(n, n1)
    ensures n1.msgs == n.msgs && n.r.delivered <= n1.r.delivered
  {
  }

  // ----- the condition is needed

  /** Everything the reader has been given from message `from` on fitted the ring. */
  ghost predicate Fitted(n: Net, from: nat) {
    |n.r.delivered| <= |n.msgs| && n.s.mss > 0
    && forall i :: from <= i < |n.r.delivered| ==> |Fragments(n.msgs[i], n.s.mss, MsgNoOf(i), true, true)| < |n.r.ring.slots|
  }

  lemma SameDelivered(n: Net, act: Act)
    requires SenderOk(n.s) && ReceiverOk(n.r) && !act.Recv?
    ensures Next(n, act).r.delivered == n.r.delivered
  {
    hide PackData, SendMsg, OnTimeout, OnAck, OnNak, OnLightAck, AddData, AckData, AckPoint, SeqCmp, Range;
  }

  /** What is read is as long as the message. */
  lemma ReadLength(n: Net, r: Receiver, len: nat)
    requires SenderInv(n) && DeliveredInv(n) && Reads(n.r, r, len, n.s.stream) && r.start > n.r.start
    ensures var d := |n.r.delivered|;
            d < |n.msgs| && |Fragments(n.msgs[d], n.s.mss, MsgNoOf(d), true, true)| == r.start - n.r.start && |r.delivered| == d + 1
  {
    hide StreamOf, Fragments, WholeMessage, Payload, Take;
    var d := |n.r.delivered|;
    MessageAt(n.msgs, n.s.mss, d, r.start - n.r.start - 1);
    StreamPrefix(n.msgs, n.s.mss, d);
  }

  lemma RingBound(r: Receiver, r1: Receiver)
    requires ReceiverOk(r) && ReceiverOk(r1) && r1.lastAck == r.lastAck
    ensures r1.start - r.start < |r.ring.slots|
  {
  }

  lemma ReadFitted(n: Net, len: nat, from: nat)
    requires Inv(n) && Fitted(n, from)
    ensures Fitted(Next(n, Recv(len)), from)
  {
    hide Inv, Receive, StreamOf, Fragments, SenderInv, DeliveredInv, ReceiverInv, WellFormed, Carrying, Reads, ReceiverOk, NoneEmpty;
    Parts(n);
    StreamFacts(n);
    ReadKeepsReceiver(n.r, len, n.s.stream);
    var r := Receive(n.r, len);
    StartBound(n.r, n.s.stream);
    StartBound(r, n.s.stream);
    RingBound(n.r, r);
    if r.start != n.r.start {
      ReadLength(n, r, len);
    } else {
      NothingRead(n.r, r, len, n.s.stream);
    }
  }

  lemma NothingRead(r: Receiver, r1: Receiver, len: nat, stream: seq<Packet>)
    requires Reads(r, r1, len, stream) && r1.start == r.start
    ensures r1 == r
  {
  }

  lemma StreamFacts(n: Net)
    requires SenderInv(n)
    ensures Carrying(n.s.stream)
  {
    StreamShape(n.msgs, n.s.mss);
  }

  lemma StepFitted(n: Net, act: Act, from: nat)
    requires Inv(n) && Fitted(n, from)
    ensures SenderOk(n.s) && ReceiverOk(n.r) && Fitted(Next(n, act), from)
  {
    hide Inv, Next, Fragments, Take;
    Networks.StepKeeps(n, act);
    if act.Recv? {
      ReadFitted(n, act.len, from);
    } else {
      SameDelivered(n, act);
      hide Above;
    }
  }

  lemma {:induction false} RunFitted(n: Net, acts: seq<Act>, from: nat)
    requires Inv(n) && Fitted(n, from)
    ensures Fitted(Networks.Run(n, acts), from)
    decreases |acts|
  {
    hide Inv, Next, Fitted;
    if acts != [] {
      RunOne(n, acts);
      StepFitted(n, acts[0], from);
      RunFitted(Next(n, acts[0]), acts[1..], from);
    } else {
      RunNone(n);
    }
  }

  /** A message that takes as many packets as the ring has slots, or more, is never handed over, and nothing behind it. */
  lemma TooLongIsNeverRead(isn: nat, mss: nat, limit: nat, size: nat, initial: int, acts: seq<Act>, i: nat)
    requires mss > 0 && size > 0
    requires var n := Networks.Run(Networks.Start(isn, mss, limit, size, initial), acts);
             i < |n.msgs| && n.s.mss > 0 && |Fragments(n.msgs[i], n.s.mss, MsgNoOf(i), true, true)| >= size
    ensures |Networks.Run(Networks.Start(isn, mss, limit, size, initial), acts).r.delivered| <= i
  {
    var n0 := Networks.Start(isn, mss, limit, size, initial);
    assert Fitted(n0, 0) && |n0.r.ring.slots| == size;
    RunFitted(n0, acts, 0);
    RunGrows(n0, acts);
    var n := Networks.Run(n0, acts);
    assert |n.r.ring.slots| == size;
    hide Inv, Grows, Networks.Start, Networks.Run, Fragments;
  }

  // ----- a full ring turns packets away

  /** If nobody reads, the ring fills up, and both ends know it. */
  lemma {:induction false} FillRing(n: Net) returns (n1: Net)
    requires InReach(n) && n.r.start + |n.r.ring.slots| - 1 < n.s.isn + |n.s.stream|
    ensures Goes(n, n1) && InReach(n1) && n1.r.start == n.r.start && n1.r.delivered == n.r.delivered
    ensures |n1.r.ring.slots| == |n.r.ring.slots| && Agreed(n1, n.r.start + |n.r.ring.slots| - 1)
    decreases n.r.start + |n.r.ring.slots| - (if ReceiverOk(n.r) then AckPoint(n.r) else 0)
  {
    var full := n.r.start + |n.r.ring.slots| - 1;
    AckPointBound(n);
    var k := AckPoint(n.r);
    var na := Agree(n);
    SameSizes(n, na);
    hide Inv, Goes, Grows, AckPoint, OnWire;
    if k == full {
      n1 := na;
    } else {
      AckPointBound(na);
      var nb := SendMissing(na, k);
      GoesInv(na, nb);
      var nc := FillsGap(nb, k);
      GoesOn(na, nb, nc);
      GoesOn(n, na, nc);
      SameSizes(n, nc);
      NextStaysNear(n, nc);
      StaysInReach(n, nc);
      n1 := FillRing(nc);
      GoesOn(n, nc, n1);
    }
  }

  lemma AckPointBound(n: Net)
    requires Inv(n)
    ensures ReceiverOk(n.r) && AckPoint(n.r) < n.r.start + |n.r.ring.slots|
    ensures Avail(n.r.ring) == n.r.start + |n.r.ring.slots| - 1 - n.r.lastAck
  {
  }

  lemma SameSizes(n: Net, n1: Net)
    requires Goes(n, n1)
    ensures |n1.r.ring.slots| == |n.r.ring.slots| && n1.s.isn == n.s.isn && n1.s.stream == n.s.stream && n1.initial == n.initial
  {
    hide Inv;
  }

  /** The next packet is sent, and there is no room for it. */
  lemma FullTurnsAway(n: Net, x: nat) returns (n1: Net, p: Packet)
    requires InReach(n) && Agreed(n, x) && x == n.r.start + |n.r.ring.slots| - 1 && x < n.s.isn + |n.s.stream|
    ensures Goes(n, n1) && n1.r == n.r && TurnsAway(n1, x, p)
  {
    assert n.r.lastAck == x;
    hide Inv, Goes, AckPoint, OnWire, Grows, TurnsAway;
    n1 := SendMissing(n, x);
    GoesInv(n, n1);
    p := NoRoom(n1, x);
  }

  lemma NoRoom(n: Net, x: nat) returns (p: Packet)
    requires Inv(n) && OnWire(n, x) && n.r.lastAck == x == n.r.start + |n.r.ring.slots| - 1
    ensures TurnsAway(n, x, p)
  {
    p :| Data(x, p) in n.wire;
  }

  /** From every state that a run can reach and in which the receiver would still acknowledge, with whatever window to begin
      with: if the stream goes on beyond the ring, and the reader takes nothing out, there is a way to go on by which a
      packet that is wanted is turned away. */
  lemma FullRingTurnsAway(isn: nat, mss: nat, limit: nat, size: nat, initial: int, acts: seq<Act>) returns (more: seq<Act>, p: Packet)
    requires mss > 0 && size > 0 && 1 <= initial && initial + size + 2 < THRESHOLD
    requires var n := Networks.Run(Networks.Start(isn, mss, limit, size, initial), acts);
             Hearing(n) && n.r.start + size - 1 < isn + |n.s.stream|
    ensures var n := Networks.Run(Networks.Start(isn, mss, limit, size, initial), acts);
            var n1 := Networks.Run(Networks.Start(isn, mss, limit, size, initial), acts + more);
            && n1.initial == initial && |n1.r.ring.slots| == size && n1.r.start == n.r.start && n1.r.delivered == n.r.delivered
            && n1.s.stream == n.s.stream && TurnsAway(n1, n.r.start + size - 1, p)
  {
    hide Wide, Hearing, Networks.Start, Networks.Run, TurnsAway, Inv;
    var n0 := Networks.Start(isn, mss, limit, size, initial);
    Reached(isn, mss, limit, size, initial, acts);
    var n := Networks.Run(n0, acts);
    more, p := TurnsAwayFrom(n);
    RunBoth(n0, acts, more);
  }

  lemma HasRing(n: Net)
    requires InReach(n)
    ensures Inv(n) && |n.r.ring.slots| > 0
  {
  }

  lemma TurnsAwayFrom(n: Net) returns (more: seq<Act>, p: Packet)
    requires InReach(n) && n.r.start + |n.r.ring.slots| - 1 < n.s.isn + |n.s.stream|
    ensures Inv(n)
    ensures var n1 := Networks.Run(n, more);
            && n1.initial == n.initial && |n1.r.ring.slots| == |n.r.ring.slots| && n1.r.start == n.r.start && n1.r.delivered == n.r.delivered
            && n1.s.stream == n.s.stream && TurnsAway(n1, n.r.start + |n.r.ring.slots| - 1, p)
  {
    hide InReach, Inv, Grows, Goes, Networks.Run, TurnsAway, Agreed;
    HasRing(n);
    var na := FillRing(n);
    SameSizes(n, na);
    var n1;
    n1, p := FullTurnsAway(na, n.r.start + |n.r.ring.slots| - 1);
    GoesOn(n, na, n1);
    SameSizes(n, n1);
    more := Ways(n, n1);
  }

  lemma Ways(n: Net, n1: Net) returns (acts: seq<Act>)
    requires Goes(n, n1)
    ensures Networks.Run(n, acts) == n1
  {
    hide Inv, Grows;
    acts :| Networks.Run(n, acts) == n1;
  }

  /** In particular, a first window that leaves a slot free does not help: the smallest window of 2 promises too much when
      the ring is full, whatever its size. */
  lemma SmallestWindowIsTooMuch(isn: nat, msg: seq<byte>, initial: int) returns (acts: seq<Act>, p: Packet)
    requires 1 <= initial < |msg| && initial + |msg| + 2 < THRESHOLD
    ensures var n := Networks.Run(Networks.Start(isn, 1, |msg|, |msg|, initial), acts);
            n.initial <= |n.r.ring.slots| - 1 && TurnsAway(n, isn + |msg| - 1, p)
  {
    hide Inv, Networks.Start, Networks.Run, TurnsAway, Hearing;
    FirstQueued(isn, msg, initial);
    var more;
    more, p := FullRingTurnsAway(isn, 1, |msg|, |msg|, initial, [Send(msg)]);
    acts := [Send(msg)] + more;
  }

  lemma FirstQueued(isn: nat, msg: seq<byte>, initial: int)
    requires msg != []
    ensures var n := Networks.Run(Networks.Start(isn, 1, |msg|, |msg|, initial), [Send(msg)]);
            n.r.start == n.r.next == n.acked2 == n.s.isn == isn && |n.s.stream| == |msg| && Hearing(n)
  {
    hide Inv, Networks.Run, Next;
    var n0 := Networks.Start(isn, 1, |msg|, |msg|, initial);
    QueueFirst(isn, msg, |msg|, initial);
    OneSend(n0, msg);
  }

  lemma OneSend(n: Net, msg: seq<byte>)
    requires Inv(n)
    ensures SenderOk(n.s) && ReceiverOk(n.r) && Networks.Run(n, [Send(msg)]) == Next(n, Send(msg))
    ensures Next(n, Send(msg)).r == n.r && Next(n, Send(msg)).acked2 == n.acked2
  {
    RunOne(n, [Send(msg)]);
    assert [Send(msg)][1..] == [];
    Networks.StepKeeps(n, Send(msg));
    hide Inv, Grows;
    RunNone(Next(n, Send(msg)));
  }
}
