/** One sender, one receiver, and a network that loses, duplicates and reorders what they send to each other.

    Whatever has been sent stays on the wire: a message that is never delivered is lost, one delivered twice is
    duplicated, and nothing orders the deliveries.  The only thing asked of the network is that a message is not
    delivered after the other side has moved on by THRESHOLD packets, because then its sequence number means another packet. */
module Networks {
  import opened SeqNo
  import opened LossChain
  import opened Packets
  import opened RcvRing
  import opened Delivery
  import opened Streams
  import opened Protocol

  datatype Msg = Data(x: nat, p: Packet) | Control(report: Report)

  /** initial: the flow window the handshake gave the sender.  For the proofs only: msgs, what the sender has accepted,
      and acked2, the latest acknowledgement that the receiver knows the sender has got. */
  datatype Net = Net(s: Sender, r: Receiver, wire: set<Msg>, msgs: seq<seq<byte>>, initial: int, acked2: nat)

  datatype Act = Send(msg: seq<byte>) | Pack(cwnd: int) | Timeout | Deliver(m: Msg) | SendAck(light: bool, recent: bool) | Recv(len: nat)

  ghost function Start(isn: nat, mss: nat, limit: nat, size: nat, initial: int): (n: Net)
    requires mss > 0 && size > 0
    ensures Inv(n)
  {
    var none: seq<seq<byte>> := [];
    assert none[..0] == none;
    Net(Sender(isn, mss, limit, [], 1, isn, isn, isn, {}, initial, false),
        Receiver(isn, EmptyRing(size), isn, isn, isn, {}, Wrap(isn), []),
        {}, none, initial, isn)
  }

  /** The message is no older than the circular comparisons can tell. */
  predicate Fresh(n: Net, m: Msg) {
    match m
    case Data(x, _) => n.r.lastAck - x < THRESHOLD
    case Control(FullAck(a, _)) => n.s.sent - a < THRESHOLD
    case Control(LightAck(a)) => n.s.sent - a < THRESHOLD
    case Control(LossReport(lo, _)) => n.s.sent - lo < THRESHOLD
    case Control(AckOfAck(a)) => n.r.lastAck - a < THRESHOLD
    case Control(NoReport) => true
  }

  function Sends(report: Report): set<Msg> {
    if report == NoReport then {} else {Control(report)}
  }

  /** The receiver learns that its acknowledgement has arrived. */
  function Confirm(n: Net, a: nat): Net {
    n.(r := OnAck2(n.r, Wrap(a)), acked2 := if SeqCmp(Wrap(a), n.r.ackAck) > 0 then a else n.acked2)
  }

  ghost function Arrive(n: Net, m: Msg): Net
    requires ReceiverOk(n.r)
  {
    match m
    case Data(x, p) => var (r, report) := OnData(n.r, x, p); n.(r := r, wire := n.wire + Sends(report))
    case Control(FullAck(a, w)) => n.(s := OnAck(n.s, a, w), wire := n.wire + Sends(AckOfAck(a)))
    case Control(LightAck(a)) => n.(s := OnLightAck(n.s, a))
    case Control(LossReport(lo, hi)) => n.(s := OnNak(n.s, [Node(lo, hi)]))
    case Control(AckOfAck(a)) => Confirm(n, a)
    case Control(NoReport) => n
  }

  function Queue(n: Net, msg: seq<byte>): Net
    requires n.s.mss > 0
  {
    n.(s := SendMsg(n.s, msg), msgs := if Accepts(n.s, msg) then n.msgs + [msg] else n.msgs)
  }

  ghost function Next(n: Net, act: Act): Net
    requires SenderOk(n.s) && ReceiverOk(n.r)
  {
    match act
    case Send(msg) => Queue(n, msg)
    case Pack(cwnd) =>
      var (s, e) := PackData(n.s, cwnd);
      n.(s := s, wire := n.wire + if e.Emitted? then {Data(e.x, e.p)} else {})
    case Timeout => n.(s := OnTimeout(n.s))
    case Deliver(m) => if m in n.wire && Fresh(n, m) then Arrive(n, m) else n
    case SendAck(light, recent) =>
      var (r, report) := Acknowledge(n.r, light, recent);
      n.(r := r, wire := n.wire + Sends(report))
    case Recv(len) => n.(r := Receive(n.r, len))
  }

  // ----- the invariant

  /** Everything before `a` has been received. */
  ghost predicate Above(r: Receiver, a: int) {
    a <= r.next && forall c :: c in r.loss ==> a <= c
  }

  /** The receiver holds packet x, or its reader has been given it. */
  ghost predicate Has(r: Receiver, x: int) {
    x < r.start || (x - r.start < |r.ring.slots| && Ready(r.ring.slots[x - r.start]))
  }

  /** The sender may have been told to send up to here. */
  function Edge(n: Net): int {
    MaxOf(MaxOf(n.r.start + |n.r.ring.slots| - 1, n.r.lastAck + 2), n.r.isn + n.initial)
  }

  /** The largest window the sender can ever be given. */
  function MaxWindow(n: Net): int {
    MaxOf(n.initial, MaxOf(2, |n.r.ring.slots| - 1))
  }

  /** The sender has got an acknowledgement up to a, and a window with it. */
  ghost predicate Known(n: Net, a: int) {
    a <= n.s.dataAck <= n.s.lastAck && a <= n.r.lastAck && (n.s.lastAck == a ==> n.s.window >= 1)
  }

  /** What holds of a message on the wire from the time it is sent. */
  ghost predicate Sound(n: Net, m: Msg) {
    match m
    case Data(x, p) => n.s.isn <= x < n.s.sent && x - n.s.isn < |n.s.stream| && p == n.s.stream[x - n.s.isn]
    case Control(FullAck(a, w)) => n.s.isn <= a <= n.r.lastAck && Above(n.r, a) && a + w <= Edge(n) && 2 <= w <= MaxWindow(n)
    case Control(LightAck(a)) => n.s.isn <= a && Above(n.r, a)
    case Control(LossReport(lo, hi)) => n.s.isn <= lo <= hi < n.s.sent
    case Control(AckOfAck(a)) => n.s.isn <= a && Known(n, a)
    case Control(NoReport) => true
  }

  /** What the sender keeps. */
  ghost predicate SenderInv(n: Net) {
    && SenderOk(n.s) && !n.s.broken
    && NoneEmpty(n.msgs) && n.s.stream == StreamOf(n.msgs, n.s.mss) && n.s.nextMsgNo == MsgNoOf(|n.msgs|)
  }

  /** Every number from lastAck to next is either missing, and in the loss list, or stored; nothing else is stored behind
      the acknowledged part. */
  ghost predicate Filed(r: Receiver) {
    && r.start + r.ring.acked == r.lastAck && r.next - r.start <= |r.ring.slots|
    && (forall c :: c in r.loss ==> r.lastAck <= c < r.next)
    && (forall k :: r.ring.acked <= k < r.next - r.start ==> ((r.start + k) in r.loss <==> r.ring.slots[k] == Empty))
    && (forall k :: r.ring.acked <= k < |r.ring.slots| && r.ring.slots[k] != Empty ==> Ready(r.ring.slots[k]) && r.start + k < r.next)
  }

  /** What the receiver keeps; the acknowledged part is complete. */
  ghost predicate ReceiverInv(r: Receiver, stream: seq<Packet>) {
    ReceiverOk(r) && Filed(r) && AllThere(r.ring, r.start - r.isn, stream)
  }

  /** What the two know about each other. */
  ghost predicate LinkInv(n: Net) {
    && n.s.isn == n.r.isn && n.r.next <= n.s.sent && Above(n.r, n.s.lastAck)
    && n.s.lastAck + n.s.window <= Edge(n) && n.s.sent <= Edge(n)
    && n.s.lastAck + n.s.window <= n.s.dataAck + MaxWindow(n) && n.s.sent <= n.s.dataAck + MaxWindow(n)
  }

  ghost predicate ConfirmedInv(n: Net) {
    n.r.ackAck == Wrap(n.acked2) && n.r.isn <= n.acked2 <= n.r.lastAck && (n.initial >= 1 ==> Known(n, n.acked2))
  }

  ghost predicate WireInv(n: Net) {
    forall m :: m in n.wire ==> Sound(n, m)
  }

  /** The reader has been given the first messages, each as far as it fitted into his buffer. */
  ghost predicate DeliveredInv(n: Net)
    requires n.s.mss > 0
  {
    && |n.r.delivered| <= |n.msgs|
    && (forall i :: 0 <= i < |n.r.delivered| ==> n.r.delivered[i].0 == Take(n.msgs[i], n.r.delivered[i].1))
    && n.r.start - n.r.isn == |StreamOf(n.msgs[..|n.r.delivered|], n.s.mss)|
  }

  ghost predicate Inv(n: Net) {
    SenderInv(n) && ReceiverInv(n.r, n.s.stream) && LinkInv(n) && ConfirmedInv(n) && WireInv(n) && DeliveredInv(n)
  }

  // ----- what never goes back

  /** Every step only moves the counters forward, and loses nothing that was received. */
  ghost predicate Grows(n: Net, n1: Net) {
    && n.s.isn == n1.s.isn == n1.r.isn == n.r.isn && n.s.mss == n1.s.mss && n.initial == n1.initial && |n.r.ring.slots| == |n1.r.ring.slots|
    && n.s.stream <= n1.s.stream
    && n.s.dataAck <= n1.s.dataAck && n.s.lastAck <= n1.s.lastAck && n.s.sent <= n1.s.sent
    && (n.s.lastAck == n1.s.lastAck && n.s.window >= 1 ==> n1.s.window >= 1) && n1.s.dataAck <= n1.s.lastAck
    && n.r.start <= n1.r.start && n.r.lastAck <= n1.r.lastAck && n.r.next <= n1.r.next
    && (forall a :: Above(n.r, a) ==> Above(n1.r, a))
    && n.r.delivered <= n1.r.delivered && n.msgs <= n1.msgs
  }

  lemma SoundStays(n: Net, n1: Net, m: Msg)
    requires Grows(n, n1) && Sound(n, m)
    ensures Sound(n1, m)
  {
  }

  /** What arrives on the wire is sound, if the new messages are. */
  lemma WireStays(n: Net, n1: Net, new_: set<Msg>)
    requires Grows(n, n1) && WireInv(n) && n1.wire == n.wire + new_
    requires forall m :: m in new_ ==> Sound(n1, m)
    ensures WireInv(n1)
  {
    hide Grows, Sound;
    forall m | m in n1.wire
      ensures Sound(n1, m)
    {
      if m in n.wire {
        SoundStays(n, n1, m);
      }
    }
  }

  // ----- the receiver's steps

  lemma AddThere(b: Ring, base: nat, stream: seq<Packet>, p: Packet, offset: nat)
    requires AllThere(b, base, stream) && offset < Avail(b)
    requires base + b.acked + offset < |stream| && p == stream[base + b.acked + offset]
    ensures AllThere(AddData(b, p, offset).0, base, stream)
  {
    hide IsFirst, IsLast, InOrder;
  }

  lemma DataFiled(r: Receiver, x: int, p: Packet)
    requires ReceiverOk(r) && Filed(r)
    ensures var (r1, report) := OnData(r, x, p);
            && Filed(r1)
            && r1 == r.(ring := r1.ring, loss := r1.loss, next := r1.next)
            && r.next <= r1.next <= MaxOf(r.next, x + 1) && |r1.ring.slots| == |r.ring.slots|
            && (forall a :: Above(r, a) ==> Above(r1, a))
            && (report != NoReport ==> report.LossReport? && r.isn <= report.lo <= report.hi < x)
  {
    hide Range;
    var offset := x - r.lastAck;
    if 0 <= offset < Avail(r.ring) {
      var k := r.ring.acked + offset;
      var slots := r.ring.slots;
      var (b, ok) := AddData(r.ring, p, offset);
      assert x == r.start + k;
      assert forall i :: 0 <= i < |slots| ==> b.slots[i] == if ok && i == k then Full(1, p) else slots[i];
    }
  }

  lemma DataKeeps(r: Receiver, x: int, p: Packet, stream: seq<Packet>)
    requires ReceiverInv(r, stream) && 0 <= x - r.isn < |stream| && p == stream[x - r.isn]
    ensures var (r1, report) := OnData(r, x, p);
            && ReceiverInv(r1, stream)
            && r1 == r.(ring := r1.ring, loss := r1.loss, next := r1.next)
            && r.next <= r1.next <= MaxOf(r.next, x + 1) && |r1.ring.slots| == |r.ring.slots|
            && (forall a :: Above(r, a) ==> Above(r1, a))
            && (report != NoReport ==> report.LossReport? && r.isn <= report.lo <= report.hi < x)
  {
    hide Filed, Above, AllThere, OnData;
    DataFiled(r, x, p);
    DataThere(r, x, p, stream);
  }

  lemma DataThere(r: Receiver, x: int, p: Packet, stream: seq<Packet>)
    requires ReceiverOk(r) && AllThere(r.ring, r.start - r.isn, stream) && 0 <= x - r.isn < |stream| && p == stream[x - r.isn]
    ensures AllThere(OnData(r, x, p).0.ring, r.start - r.isn, stream)
  {
    hide AllThere, AddData, Range;
    var offset := x - r.lastAck;
    if 0 <= offset < Avail(r.ring) {
      AddThere(r.ring, r.start - r.isn, stream, p, offset);
    }
  }

  /** Everything in front of the acknowledgement point has been stored. */
  lemma AckPointStored(r: Receiver)
    requires ReceiverOk(r) && Filed(r)
    ensures Above(r, AckPoint(r))
    ensures forall k :: r.ring.acked <= k < AckPoint(r) - r.start ==> Ready(r.ring.slots[k])
  {
    hide Ok;
    forall k | r.ring.acked <= k < AckPoint(r) - r.start
      ensures Ready(r.ring.slots[k])
    {
      assert (r.start + k) !in r.loss;
    }
  }

  lemma AckThere(b: Ring, base: nat, stream: seq<Packet>, len: nat)
    requires AllThere(b, base, stream) && b.acked + len < |b.slots|
    requires forall k :: b.acked <= k < b.acked + len ==> Ready(b.slots[k])
    ensures AllThere(AckData(b, len), base, stream)
  {
    hide IsFirst, IsLast, InOrder;
  }

  lemma AckKeepsReceiver(r: Receiver, light: bool, recent: bool, stream: seq<Packet>)
    requires ReceiverInv(r, stream)
    ensures var (r1, report) := Acknowledge(r, light, recent);
            && ReceiverInv(r1, stream)
            && r1 == r.(ring := r1.ring, lastAck := r1.lastAck)
            && r.lastAck <= r1.lastAck && |r1.ring.slots| == |r.ring.slots|
            && (report.LightAck? ==> Above(r, report.b))
            && (report.FullAck? ==> report.a == r1.lastAck && Above(r, report.a) && report.w == MaxOf(2, Avail(r1.ring)))
            && !report.LossReport?
  {
    AckPointStored(r);
    var ack := AckPoint(r);
    hide Above, Wrap, SeqCmp;
    if ack > r.lastAck {
      AckThere(r.ring, r.start - r.isn, stream, ack - r.lastAck);
    }
    hide AllThere, AckPoint, Ok, Ready;
    assert r.next - r.start <= |r.ring.slots|;
    var r1 := Acknowledge(r, light, recent).0;
    assert r1.ring.slots == r.ring.slots;
    assert Above(r, ack);
    AboveLoss(r, ack);
  }

  lemma AboveLoss(r: Receiver, a: int)
    requires Above(r, a)
    ensures a <= r.next && forall c :: c in r.loss ==> a <= c
  {
  }

  lemma SomeBytes(stream: seq<Packet>, f: nat, t: nat, len: nat)
    requires Carrying(stream) && f <= t < |stream| && len > 0
    ensures Take(Payload(stream[f..t + 1]), len) != []
  {
    assert stream[f..t + 1][0] == stream[f];
  }

  /** Moving the start position over the first q + 1 slots of the acknowledged part. */
  lemma ShiftFiled(r: Receiver, q: nat, b: Ring, r1: Receiver)
    requires ReceiverOk(r) && Filed(r) && q < r.ring.acked
    requires Ok(b) && b.acked == r.ring.acked - (q + 1) && b.maxPos == r.ring.maxPos && ShiftedBy(r.ring.slots, q + 1, b.slots)
    requires r1 == r.(ring := b, start := r.start + q + 1, delivered := r1.delivered)
    ensures ReceiverOk(r1) && Filed(r1)
  {
    hide Ok, Ready;
    forall k | b.acked <= k < |b.slots|
      ensures b.slots[k] == if k + (q + 1) < |r.ring.slots| then r.ring.slots[k + (q + 1)] else Empty
    {
    }
    forall k | b.acked <= k < r1.next - r1.start
      ensures (r1.start + k) in r1.loss <==> b.slots[k] == Empty
    {
      assert r1.start + k == r.start + (k + (q + 1));
    }
  }

  /** The reader has been given the message from position base on, if anything. */
  ghost predicate Reads(r: Receiver, r1: Receiver, len: nat, stream: seq<Packet>) {
    if r1.start == r.start then r1 == r
    else
      && len > 0 && r.isn <= r.start < r1.start
      && WholeMessage(stream, r.start - r.isn, r1.start - r.isn - 1)
      && r1.delivered == r.delivered + [(Take(Payload(stream[r.start - r.isn..r1.start - r.isn]), len), len)]
  }

  /** Reading moves the start position by whole messages, and changes nothing else. */
  lemma ReadKeepsReceiver(r: Receiver, len: nat, stream: seq<Packet>)
    requires ReceiverInv(r, stream) && Carrying(stream)
    ensures var r1 := Receive(r, len);
            && ReceiverInv(r1, stream) && Reads(r, r1, len, stream)
            && r1 == r.(ring := r1.ring, start := r1.start, delivered := r1.delivered)
            && r.start <= r1.start && |r1.ring.slots| == |r.ring.slots|
  {
    hide ReceiverInv, ReadMsg, AllThere, WholeMessage, EndsAt, Payload, Take, Ok, Filed, NextRead, Carrying;
    ReceiverPieces(r, stream);
    if len > 0 {
      ReadsNext(r.ring, r.start - r.isn, stream, len);
      var base: nat := r.start - r.isn;
      var (b2, data) := ReadMsg(r.ring, len);
      if exists t :: 0 <= t < r.ring.acked && EndsAt(r.ring.slots, t) {
        var q: nat :| NextRead(r.ring, base, stream, len, q, b2, data);
        ReadKeepsFound(r, len, stream, q, b2, data);
      }
    }
  }

  /** What a read that finds a message leaves, in terms of the receiver. */
  lemma ReceiveFound(r: Receiver, len: nat, stream: seq<Packet>, q: nat, b2: Ring, data: seq<byte>)
    requires ReceiverOk(r) && Carrying(stream) && len > 0 && ReadMsg(r.ring, len) == (b2, data)
    requires NextRead(r.ring, r.start - r.isn, stream, len, q, b2, data)
    ensures Receive(r, len) == r.(ring := b2, start := r.start + q + 1, delivered := r.delivered + [(data, len)])
  {
    var base: nat := r.start - r.isn;
    SomeBytes(stream, base, base + q, len);
    hide ReadMsg, WholeMessage, Payload, Take, Ok, AllThere, ShiftedBy, Carrying;
  }

  lemma ReadKeepsFound(r: Receiver, len: nat, stream: seq<Packet>, q: nat, b2: Ring, data: seq<byte>)
    requires ReceiverInv(r, stream) && Carrying(stream) && len > 0 && ReadMsg(r.ring, len) == (b2, data)
    requires NextRead(r.ring, r.start - r.isn, stream, len, q, b2, data)
    ensures var r1 := Receive(r, len);
            && ReceiverInv(r1, stream) && Reads(r, r1, len, stream) && r1.start == r.start + q + 1
            && r1 == r.(ring := b2, start := r1.start, delivered := r1.delivered)
            && |b2.slots| == |r.ring.slots|
  {
    hide ReceiverInv, NextRead, Reads, ReadMsg, Receive, Carrying, ReceiverOk, Filed, AllThere, ShiftedBy, Ok;
    ReceiverPieces(r, stream);
    NextReadParts(r, stream, len, q, b2, data);
    ReceiveFound(r, len, stream, q, b2, data);
    var r1 := Receive(r, len);
    ShiftFiled(r, q, b2, r1);
    ReceiverWhole(r1, stream);
    ReadsFound(r, r1, len, stream, q, b2, data);
  }

  lemma ReceiverPieces(r: Receiver, stream: seq<Packet>)
    requires ReceiverInv(r, stream)
    ensures ReceiverOk(r) && Filed(r) && AllThere(r.ring, r.start - r.isn, stream) && r.isn <= r.start
  {
    hide Filed, AllThere;
  }

  lemma ReceiverWhole(r: Receiver, stream: seq<Packet>)
    requires ReceiverOk(r) && Filed(r) && r.isn <= r.start && AllThere(r.ring, r.start - r.isn, stream)
    ensures ReceiverInv(r, stream)
  {
    hide Filed, AllThere;
  }

  lemma NextReadParts(r: Receiver, stream: seq<Packet>, len: nat, q: nat, b2: Ring, data: seq<byte>)
    requires r.isn <= r.start && NextRead(r.ring, r.start - r.isn, stream, len, q, b2, data)
    ensures q < r.ring.acked && Ok(b2) && |b2.slots| == |r.ring.slots| && AllThere(b2, r.start - r.isn + q + 1, stream)
    ensures b2.acked == r.ring.acked - (q + 1) && b2.maxPos == r.ring.maxPos && ShiftedBy(r.ring.slots, q + 1, b2.slots)
  {
    OkOf(b2, r.start - r.isn + q + 1, stream);
    hide AllThere, Ok, WholeMessage, Payload, Take;
  }

  lemma ReadsFound(r: Receiver, r1: Receiver, len: nat, stream: seq<Packet>, q: nat, b2: Ring, data: seq<byte>)
    requires len > 0 && r.isn <= r.start && NextRead(r.ring, r.start - r.isn, stream, len, q, b2, data)
    requires r1 == r.(ring := b2, start := r.start + q + 1, delivered := r.delivered + [(data, len)])
    ensures Reads(r, r1, len, stream)
  {
    hide AllThere, WholeMessage, Payload, Take, ShiftedBy;
    assert r1.start - r.isn == r.start - r.isn + q + 1;
  }

  lemma OkOf(b: Ring, base: nat, stream: seq<Packet>)
    ensures AllThere(b, base, stream) ==> Ok(b)
  {
    hide Ok;
  }

  // ----- every step keeps the invariant

  lemma LongerThere(b: Ring, base: nat, stream: seq<Packet>, longer: seq<Packet>)
    requires AllThere(b, base, stream) && stream <= longer
    requires WellFormed(longer) && forall i :: 0 <= i < |longer| ==> InOrder(longer[i])
    ensures AllThere(b, base, longer)
  {
    hide IsFirst, IsLast, InOrder, Ready;
  }

  lemma StreamMore(msgs: seq<seq<byte>>, mss: nat, msg: seq<byte>)
    requires mss > 0
    ensures StreamOf(msgs + [msg], mss) == StreamOf(msgs, mss) + Fragments(msg, mss, MsgNoOf(|msgs|), true, true)
  {
    hide Fragments, MsgNoOf;
    assert (msgs + [msg])[..|msgs|] == msgs;
  }

  lemma QueueKeeps(n: Net, msg: seq<byte>)
    requires SenderInv(n) && Accepts(n.s, msg)
    ensures var n1 := Queue(n, msg); SenderInv(n1) && n.s.stream <= n1.s.stream
  {
    assert msg != [];
    hide Accepts, Fragments, StreamOf, NextMsgNo, MsgNoOf;
    StreamMore(n.msgs, n.s.mss, msg);
    NumberNext(|n.msgs|);
  }

  lemma NumberNext(d: nat)
    ensures MsgNoOf(d + 1) == NextMsgNo(MsgNoOf(d))
  {
  }

  lemma QueueGrows(n: Net, msg: seq<byte>)
    requires n.s.mss > 0 && n.s.isn == n.r.isn && n.s.dataAck <= n.s.lastAck
    ensures Grows(n, Queue(n, msg))
  {
    hide Fragments;
  }

  lemma QueueParts(n: Net, msg: seq<byte>)
    requires n.s.mss > 0 && LinkInv(n) && ConfirmedInv(n) && DeliveredInv(n)
    ensures var n1 := Queue(n, msg); LinkInv(n1) && ConfirmedInv(n1) && DeliveredInv(n1)
  {
    hide Fragments, StreamOf, Take, Above, Accepts, SeqCmp, Wrap;
    var n1 := Queue(n, msg);
    assert n1.msgs[..|n.r.delivered|] == n.msgs[..|n.r.delivered|];
  }

  lemma LongerReceiver(r: Receiver, stream: seq<Packet>, longer: seq<Packet>)
    requires ReceiverInv(r, stream) && stream <= longer
    requires WellFormed(longer) && forall i :: 0 <= i < |longer| ==> InOrder(longer[i])
    ensures ReceiverInv(r, longer)
  {
    hide Filed, WellFormed, AllThere, InOrder;
    LongerThere(r.ring, r.start - r.isn, stream, longer);
  }

  lemma SendKeeps(n: Net, msg: seq<byte>)
    requires Inv(n)
    ensures Inv(Next(n, Send(msg))) && Grows(n, Next(n, Send(msg)))
  {
    assert n.s.mss > 0 && n.s.isn == n.r.isn && n.s.dataAck <= n.s.lastAck;
    Parts(n);
    hide SenderInv, LinkInv, ConfirmedInv, DeliveredInv, ReceiverInv, WireInv, Grows, Accepts, Fragments, StreamOf, WellFormed, InOrder, Carrying;
    var n1 := Next(n, Send(msg));
    QueueGrows(n, msg);
    if Accepts(n.s, msg) {
      QueueKeeps(n, msg);
      QueueStream(n1);
      LongerReceiver(n.r, n.s.stream, n1.s.stream);
      QueueParts(n, msg);
      WireStays(n, n1, {});
    }
  }

  lemma QueueStream(n: Net)
    requires SenderInv(n)
    ensures WellFormed(n.s.stream) && forall i :: 0 <= i < |n.s.stream| ==> InOrder(n.s.stream[i])
  {
    StreamShape(n.msgs, n.s.mss);
  }

  lemma GrowsSelf(n: Net)
    requires Inv(n)
    ensures Grows(n, n)
  {
    assert n.s.dataAck <= n.s.lastAck && n.s.isn == n.r.isn;
    hide ReceiverInv, WireInv, DeliveredInv, SenderInv;
  }

  /** The sender's part of the link. */
  ghost predicate Covered(n: Net, s: Sender) {
    && Above(n.r, s.lastAck) && n.r.next <= s.sent
    && s.lastAck + s.window <= Edge(n) && s.sent <= Edge(n)
    && s.lastAck + s.window <= s.dataAck + MaxWindow(n) && s.sent <= s.dataAck + MaxWindow(n)
  }

  /** A step that changes the sender's counters and loss list only. */
  ghost predicate SenderMoves(n: Net, s: Sender) {
    && s == n.s.(dataAck := s.dataAck, lastAck := s.lastAck, sent := s.sent, loss := s.loss, window := s.window)
    && SenderOk(s) && n.s.dataAck <= s.dataAck && n.s.lastAck <= s.lastAck && n.s.sent <= s.sent
    && (n.s.lastAck == s.lastAck && n.s.window >= 1 ==> s.window >= 1)
  }

  lemma SenderGrows(n: Net, s: Sender, wire: set<Msg>)
    requires n.s.isn == n.r.isn && SenderMoves(n, s)
    ensures Grows(n, n.(s := s, wire := wire))
  {
  }

  lemma SenderParts(n: Net, s: Sender, wire: set<Msg>)
    requires SenderInv(n) && LinkInv(n) && ConfirmedInv(n) && DeliveredInv(n) && SenderMoves(n, s) && Covered(n, s)
    ensures var n1 := n.(s := s, wire := wire); SenderInv(n1) && LinkInv(n1) && ConfirmedInv(n1) && DeliveredInv(n1)
  {
    hide StreamOf, Take, Above, SeqCmp, Wrap;
  }

  lemma SenderStep(n: Net, s: Sender, new_: set<Msg>)
    requires Inv(n) && SenderMoves(n, s) && Covered(n, s)
    requires forall m :: m in new_ ==> Sound(n.(s := s), m)
    ensures var n1 := n.(s := s, wire := n.wire + new_); Inv(n1) && Grows(n, n1)
  {
    var n1 := n.(s := s, wire := n.wire + new_);
    forall m | m in new_
      ensures Sound(n1, m)
    {
      SameSound(n.(s := s), n1, m);
    }
    assert n.s.isn == n.r.isn && n.s.stream == s.stream;
    SenderGrows(n, s, n1.wire);
    SenderParts(n, s, n1.wire);
    hide Sound, Grows, SenderInv, LinkInv, ConfirmedInv, DeliveredInv, ReceiverInv, Covered, SenderMoves;
    WireStays(n, n1, new_);
  }

  /** What is on the wire does not matter to a message. */
  lemma SameSound(n: Net, n1: Net, m: Msg)
    requires Sound(n, m) && n1 == n.(wire := n1.wire)
    ensures Sound(n1, m)
  {
    hide Above;
  }

  /** A step that changes the receiver's ring, loss list and counters only. */
  ghost predicate ReceiverMoves(n: Net, r: Receiver) {
    && r == n.r.(ring := r.ring, lastAck := r.lastAck, next := r.next, loss := r.loss) && |r.ring.slots| == |n.r.ring.slots|
    && n.r.lastAck <= r.lastAck && n.r.next <= r.next && forall a :: Above(n.r, a) ==> Above(r, a)
  }

  lemma ReceiverGrows(n: Net, r: Receiver, wire: set<Msg>)
    requires n.s.isn == n.r.isn && n.s.dataAck <= n.s.lastAck && ReceiverMoves(n, r)
    ensures Grows(n, n.(r := r, wire := wire))
  {
  }

  lemma ReceiverParts(n: Net, r: Receiver, wire: set<Msg>)
    requires SenderInv(n) && LinkInv(n) && ConfirmedInv(n) && DeliveredInv(n) && ReceiverMoves(n, r) && r.next <= n.s.sent
    ensures var n1 := n.(r := r, wire := wire); SenderInv(n1) && LinkInv(n1) && ConfirmedInv(n1) && DeliveredInv(n1)
  {
    assert Above(r, n.s.lastAck);
    hide StreamOf, Take, Above, SeqCmp, Wrap, ReceiverOk;
  }

  lemma ReceiverStep(n: Net, r: Receiver, new_: set<Msg>)
    requires Inv(n) && ReceiverMoves(n, r) && ReceiverInv(r, n.s.stream) && r.next <= n.s.sent
    requires forall m :: m in new_ ==> Sound(n.(r := r), m)
    ensures var n1 := n.(r := r, wire := n.wire + new_); Inv(n1) && Grows(n, n1)
  {
    var n1 := n.(r := r, wire := n.wire + new_);
    forall m | m in new_
      ensures Sound(n1, m)
    {
      SameSound(n.(r := r), n1, m);
    }
    assert n.s.isn == n.r.isn && n.s.dataAck <= n.s.lastAck;
    ReceiverGrows(n, r, n1.wire);
    ReceiverParts(n, r, n1.wire);
    hide Sound, Grows, SenderInv, LinkInv, ConfirmedInv, DeliveredInv, ReceiverInv, ReceiverMoves;
    WireStays(n, n1, new_);
  }

  lemma PackMoves(n: Net, cwnd: int)
    requires SenderInv(n) && LinkInv(n)
    ensures var (s, e) := PackData(n.s, cwnd);
            SenderMoves(n, s) && Covered(n, s) && (e.Emitted? ==> Sound(n.(s := s), Data(e.x, e.p)))
  {
    hide Above, StreamOf, NoneEmpty;
  }

  lemma PackKeeps(n: Net, cwnd: int)
    requires Inv(n)
    ensures Inv(Next(n, Pack(cwnd))) && Grows(n, Next(n, Pack(cwnd)))
  {
    hide Inv, Grows, ReceiverInv, WireInv, DeliveredInv, SenderMoves, Covered, Sound, PackData;
    Parts(n);
    PackMoves(n, cwnd);
    var (s, e) := PackData(n.s, cwnd);
    SenderStep(n, s, if e.Emitted? then {Data(e.x, e.p)} else {});
  }

  lemma TimeoutKeeps(n: Net)
    requires Inv(n)
    ensures Inv(Next(n, Timeout)) && Grows(n, Next(n, Timeout))
  {
    hide Above, ReceiverInv, WireInv, DeliveredInv, StreamOf, Range, Inv;
    assert SenderInv(n) && LinkInv(n) by { Parts(n); }
    SenderStep(n, OnTimeout(n.s), {});
    assert n.wire + {} == n.wire;
  }

  lemma Parts(n: Net)
    requires Inv(n)
    ensures SenderInv(n) && LinkInv(n) && ConfirmedInv(n) && ReceiverInv(n.r, n.s.stream) && WireInv(n) && DeliveredInv(n)
  {
  }

  lemma OnAckKeeps(n: Net, a: nat, w: int)
    requires Inv(n) && Sound(n, Control(FullAck(a, w)))
    ensures var n1 := n.(s := OnAck(n.s, a, w), wire := n.wire + Sends(AckOfAck(a))); Inv(n1) && Grows(n, n1)
  {
    hide Inv, Grows, ReceiverInv, WireInv, DeliveredInv, StreamOf;
    Parts(n);
    SenderStep(n, OnAck(n.s, a, w), Sends(AckOfAck(a)));
  }

  lemma OnLightAckKeeps(n: Net, a: nat)
    requires Inv(n) && Sound(n, Control(LightAck(a)))
    ensures var n1 := n.(s := OnLightAck(n.s, a)); Inv(n1) && Grows(n, n1)
  {
    hide Inv, Grows, ReceiverInv, WireInv, DeliveredInv, StreamOf;
    Parts(n);
    SenderStep(n, OnLightAck(n.s, a), {});
    assert n.wire + {} == n.wire;
  }

  lemma OnNakKeeps(n: Net, lo: nat, hi: nat)
    requires Inv(n) && Sound(n, Control(LossReport(lo, hi)))
    ensures var n1 := n.(s := OnNak(n.s, [Node(lo, hi)])); Inv(n1) && Grows(n, n1)
  {
    var s := n.s.(loss := n.s.loss + Range(MaxOf(lo, n.s.lastAck), hi));
    assert OnNak(s, []) == s && [Node(lo, hi)][1..] == [];
    assert OnNak(n.s, [Node(lo, hi)]) == s;
    hide ReceiverInv, WireInv, DeliveredInv, StreamOf, Range, OnNak, Above;
    SenderStep(n, s, {});
    assert n.wire + {} == n.wire;
  }

  lemma OnDataKeeps(n: Net, x: nat, p: Packet)
    requires Inv(n) && Sound(n, Data(x, p))
    ensures var (r, report) := OnData(n.r, x, p); var n1 := n.(r := r, wire := n.wire + Sends(report)); Inv(n1) && Grows(n, n1)
  {
    hide Inv, ReceiverInv, OnData, Above, Grows;
    Parts(n);
    hide SenderInv, WireInv, DeliveredInv;
    DataKeeps(n.r, x, p, n.s.stream);
    var (r, report) := OnData(n.r, x, p);
    StartBound(n.r, n.s.stream);
    ReceiverStep(n, r, Sends(report));
  }

  lemma AckSound(n: Net, light: bool, recent: bool)
    requires LinkInv(n) && ReceiverInv(n.r, n.s.stream)
    ensures var (r, report) := Acknowledge(n.r, light, recent);
            && ReceiverInv(r, n.s.stream) && r == n.r.(ring := r.ring, lastAck := r.lastAck) && n.r.lastAck <= r.lastAck
            && |r.ring.slots| == |n.r.ring.slots| && (forall a :: Above(n.r, a) ==> Above(r, a))
            && (report != NoReport ==> Sound(n.(r := r), Control(report)))
  {
    AckKeepsReceiver(n.r, light, recent, n.s.stream);
    var (r, report) := Acknowledge(n.r, light, recent);
    assert forall a :: Above(n.r, a) ==> Above(r, a);
    assert ReceiverOk(r) && n.r.isn <= r.start;
    hide ReceiverInv, Acknowledge, Above;
  }

  lemma AckKeepsAll(n: Net, light: bool, recent: bool)
    requires Inv(n)
    ensures Inv(Next(n, SendAck(light, recent))) && Grows(n, Next(n, SendAck(light, recent)))
  {
    hide Inv, ReceiverInv, Acknowledge, Above, Sound, Grows;
    Parts(n);
    hide SenderInv, WireInv, DeliveredInv;
    AckSound(n, light, recent);
    var (r, report) := Acknowledge(n.r, light, recent);
    ReceiverStep(n, r, Sends(report));
  }

  lemma ConfirmKeeps(n: Net, a: nat)
    requires Inv(n) && Sound(n, Control(AckOfAck(a)))
    ensures Inv(Confirm(n, a)) && Grows(n, Confirm(n, a))
  {
    hide AllThere, StreamOf, SeqCmp, Take, Wrap;
    var n1 := Confirm(n, a);
    assert Grows(n, n1) && LinkInv(n1) && ConfirmedInv(n1);
    hide Above, Sound, Grows;
    WireStays(n, n1, {});
  }

  /** The reader gets the next message, if anything. */
  lemma DeliveredMore(n: Net, r: Receiver, len: nat)
    requires SenderInv(n) && DeliveredInv(n) && n.r.isn <= n.r.start && r.isn == n.r.isn && Reads(n.r, r, len, n.s.stream)
    ensures DeliveredInv(n.(r := r)) && n.r.delivered <= r.delivered
  {
    hide StreamOf, Take, WholeMessage, Payload;
    if r.start != n.r.start {
      var d := |n.r.delivered|;
      MessageAt(n.msgs, n.s.mss, d, r.start - n.r.start - 1);
    }
  }

  /** A step that hands the reader something and moves the start position. */
  lemma ReaderStep(n: Net, r: Receiver)
    requires Inv(n)
    requires r == n.r.(ring := r.ring, start := r.start, delivered := r.delivered)
    requires ReceiverInv(r, n.s.stream) && |r.ring.slots| == |n.r.ring.slots| && n.r.start <= r.start
    requires DeliveredInv(n.(r := r)) && n.r.delivered <= r.delivered
    ensures var n1 := n.(r := r); Inv(n1) && Grows(n, n1)
  {
    var n1 := n.(r := r);
    hide SenderInv, ReceiverInv, LinkInv, ConfirmedInv, DeliveredInv, Sound, Grows;
    ReaderParts(n, r);
    WireStays(n, n1, {});
  }

  lemma ReaderParts(n: Net, r: Receiver)
    requires SenderInv(n) && LinkInv(n) && ConfirmedInv(n)
    requires r == n.r.(ring := r.ring, start := r.start, delivered := r.delivered)
    requires |r.ring.slots| == |n.r.ring.slots| && n.r.start <= r.start && n.r.delivered <= r.delivered
    ensures var n1 := n.(r := r); Grows(n, n1) && SenderInv(n1) && LinkInv(n1) && ConfirmedInv(n1)
  {
    hide StreamOf;
  }

  lemma ReadKeepsAll(n: Net, len: nat)
    requires Inv(n)
    ensures Inv(Next(n, Recv(len))) && Grows(n, Next(n, Recv(len)))
  {
    hide Inv, ReceiverInv, DeliveredInv, StreamOf, Reads, Receive, Carrying, WellFormed, Grows;
    Parts(n);
    StreamShape(n.msgs, n.s.mss);
    ReadKeepsReceiver(n.r, len, n.s.stream);
    var r := Receive(n.r, len);
    StartBound(n.r, n.s.stream);
    DeliveredMore(n, r, len);
    ReaderStep(n, r);
  }

  lemma StartBound(r: Receiver, stream: seq<Packet>)
    requires ReceiverInv(r, stream)
    ensures r.isn <= r.start && ReceiverOk(r)
  {
  }

  lemma BothOk(n: Net)
    requires Inv(n)
    ensures SenderOk(n.s) && ReceiverOk(n.r)
  {
  }

  lemma ArriveKeeps(n: Net, m: Msg)
    requires Inv(n) && Sound(n, m)
    ensures ReceiverOk(n.r) && Inv(Arrive(n, m)) && Grows(n, Arrive(n, m))
  {
    hide Inv, Grows, Sound, OnData, OnAck, OnNak, OnLightAck, Confirm, ReceiverOk;
    BothOk(n);
    match m
    case Data(x, p) => OnDataKeeps(n, x, p);
    case Control(FullAck(a, w)) => OnAckKeeps(n, a, w);
    case Control(LightAck(a)) => OnLightAckKeeps(n, a);
    case Control(LossReport(lo, hi)) => OnNakKeeps(n, lo, hi);
    case Control(AckOfAck(a)) => ConfirmKeeps(n, a);
    case Control(NoReport) => GrowsSelf(n);
  }

  lemma DeliverKeeps(n: Net, m: Msg)
    requires Inv(n)
    ensures Inv(Next(n, Deliver(m))) && Grows(n, Next(n, Deliver(m)))
  {
    if m in n.wire && Fresh(n, m) {
      assert Sound(n, m);
      hide Inv, Grows, Sound, Arrive;
      ArriveKeeps(n, m);
    } else {
      hide Inv, Grows;
      GrowsSelf(n);
    }
  }

  lemma StepKeeps(n: Net, act: Act)
    requires Inv(n)
    ensures SenderOk(n.s) && ReceiverOk(n.r) && Inv(Next(n, act)) && Grows(n, Next(n, act))
  {
    assert SenderOk(n.s) && ReceiverOk(n.r);
    hide Inv, Grows, Next;
    match act
    case Send(msg) => SendKeeps(n, msg);
    case Pack(cwnd) => PackKeeps(n, cwnd);
    case Timeout => TimeoutKeeps(n);
    case Deliver(m) => DeliverKeeps(n, m);
    case SendAck(light, recent) => AckKeepsAll(n, light, recent);
    case Recv(len) => ReadKeepsAll(n, len);
  }

  /** A whole run. */
  ghost function Run(n: Net, acts: seq<Act>): (n1: Net)
    requires Inv(n)
    ensures Inv(n1)
    decreases |acts|
  {
    if acts == [] then n
    else
      StepKeeps(n, acts[0]);
      Run(Next(n, acts[0]), acts[1..])
  }

  lemma GrowsOn(n: Net, n1: Net, n2: Net)
    requires Grows(n, n1) && Grows(n1, n2)
    ensures Grows(n, n2)
  {
    hide Above;
  }

  /** Nothing ever goes back, however long the run. */
  lemma {:induction false} RunGrows(n: Net, acts: seq<Act>)
    requires Inv(n)
    ensures Grows(n, Run(n, acts))
    decreases |acts|
  {
    hide Inv, Grows, Next;
    if acts == [] {
      GrowsSelf(n);
    } else {
      StepKeeps(n, acts[0]);
      RunGrows(Next(n, acts[0]), acts[1..]);
      GrowsOn(n, Next(n, acts[0]), Run(n, acts));
    }
  }

  // ----- the theorems

  /** End to end: whatever the network does, the reader is given the accepted messages in order, each once, byte for
      byte as far as his buffer reaches, and never anything else. */
  lemma EndToEnd(isn: nat, mss: nat, limit: nat, size: nat, initial: int, acts: seq<Act>)
    requires mss > 0 && size > 0
    ensures var n := Run(Start(isn, mss, limit, size, initial), acts);
            && |n.r.delivered| <= |n.msgs|
            && forall i :: 0 <= i < |n.r.delivered| ==>
                 && n.r.delivered[i].0 == Take(n.msgs[i], n.r.delivered[i].1)
                 && (n.r.delivered[i].1 >= |n.msgs[i]| ==> n.r.delivered[i].0 == n.msgs[i])
  {
    var n := Run(Start(isn, mss, limit, size, initial), acts);
    hide Inv;
    Parts(n);
  }

  /** Everything in front of an acknowledgement has been received. */
  lemma AboveHas(r: Receiver, stream: seq<Packet>, a: int, x: int)
    requires ReceiverInv(r, stream) && Above(r, a) && x < a
    ensures Has(r, x)
  {
    hide Ok, WellFormed, InOrder, Tracks;
    if x >= r.start {
      var k := x - r.start;
      assert r.start + k == x;
      assert k >= r.ring.acked ==> x !in r.loss;
      assert k < |r.ring.slots|;
    }
  }

  /** Acknowledgement safety: no acknowledgement, full or light, ever passes a packet the receiver does not have; so the
      sender releases nothing that is still needed.  Packets from the acknowledged part on are each either stored or in
      the loss list, never both. */
  lemma AckSafety(n: Net, x: int)
    requires Inv(n)
    ensures forall a, w :: Control(FullAck(a, w)) in n.wire && x < a ==> Has(n.r, x)
    ensures forall a :: Control(LightAck(a)) in n.wire && x < a ==> Has(n.r, x)
    ensures x < n.s.lastAck ==> Has(n.r, x)
    ensures n.s.dataAck <= n.s.lastAck
    ensures n.r.lastAck <= x < n.r.next ==> (x in n.r.loss <==> !Has(n.r, x))
  {
    forall a | Above(n.r, a) && x < a
      ensures Has(n.r, x)
    {
      AboveHas(n.r, n.s.stream, a, x);
    }
    forall a, w | Control(FullAck(a, w)) in n.wire && x < a
      ensures Has(n.r, x)
    {
      assert Sound(n, Control(FullAck(a, w)));
    }
    forall a | Control(LightAck(a)) in n.wire && x < a
      ensures Has(n.r, x)
    {
      assert Sound(n, Control(LightAck(a)));
    }
    if n.r.lastAck <= x < n.r.next {
      var k := x - n.r.start;
      assert n.r.start + k == x;
    }
  }

  /** Every transmission of a packet, first or not, carries the same bytes and the same message header: those of the
      packet's place in the stream. */
  lemma SameEveryTime(n: Net, x: nat, p: Packet, q: Packet)
    requires Inv(n) && Data(x, p) in n.wire && Data(x, q) in n.wire
    ensures p == q && n.s.isn <= x < n.s.isn + |StreamOf(n.msgs, n.s.mss)| && p == StreamOf(n.msgs, n.s.mss)[x - n.s.isn]
  {
    assert Sound(n, Data(x, p)) && Sound(n, Data(x, q));
  }

  /** Cursors of the sender; two honest ends never break the connection. */
  lemma Cursors(n: Net)
    requires Inv(n)
    ensures n.s.isn <= n.s.dataAck <= n.s.lastAck <= n.r.next <= n.s.sent <= n.s.isn + |n.s.stream|
    ensures forall c :: c in n.s.loss ==> n.s.dataAck <= c < n.s.sent
    ensures !n.s.broken
  {
  }

  /** The numbers in use span less than the receiver's buffer on its side, and at most the largest window on the sender's
      side.  So both stay within what the loss lists are made for: the receiver's has at least as many slots as the
      buffer, the sender's twice as many as the first window. */
  lemma Windows(n: Net)
    requires Inv(n)
    ensures n.r.next - n.r.lastAck < |n.r.ring.slots|
    ensures n.s.sent - n.s.dataAck <= MaxWindow(n)
    ensures n.s.sent - n.r.lastAck <= MaxWindow(n)
    ensures n.initial >= 1 && |n.r.ring.slots| - 1 <= 2 * n.initial ==> n.s.sent - n.s.dataAck <= 2 * n.initial
  {
    assert Above(n.r, n.s.lastAck);
  }

  /** A fresh message is close enough to everything its number is compared with, as long as the windows are shorter than
      the reach of the comparisons; so the circular comparisons read it as this model does. */
  lemma FreshIsNear(n: Net, m: Msg)
    requires Inv(n) && m in n.wire && Fresh(n, m) && MaxWindow(n) < THRESHOLD
    ensures match m
            case Data(x, _) => Near(x, n.r.lastAck)
            case Control(FullAck(a, _)) => Near(a, n.s.sent) && Near(a, n.s.lastAck) && Near(a, n.s.dataAck)
            case Control(LightAck(a)) => Near(a, n.s.lastAck)
            case Control(LossReport(lo, hi)) =>
              Near(lo, hi) && Near(lo, n.s.lastAck) && Near(hi, n.s.lastAck) && Near(lo, n.s.sent - 1) && Near(hi, n.s.sent - 1)
            case Control(AckOfAck(a)) => Near(a, n.r.lastAck)
            case Control(NoReport) => true
  {
    assert Sound(n, m);
    Cursors(n);
    Windows(n);
    hide Inv;
  }

  /** Flow control: a packet that is still wanted is turned away for lack of room only if the receiver's buffer is all
      but full, where the smallest window of 2 promises too much, or if the handshake promised more than the buffer holds
      and the packet lies in that excess. */
  lemma CreditHolds(n: Net, x: nat, p: Packet)
    requires Inv(n) && Data(x, p) in n.wire && x >= n.r.lastAck && x - n.r.lastAck >= Avail(n.r.ring)
    ensures Avail(n.r.ring) <= 1 || n.r.start + |n.r.ring.slots| - 1 <= x < n.r.isn + n.initial
    ensures x <= n.r.lastAck + 1 || n.r.start + |n.r.ring.slots| - 1 <= x < n.r.isn + n.initial
  {
    assert Sound(n, Data(x, p));
  }

  /** So with a first window that leaves one slot free, and two free slots now, every packet that arrives is kept. */
  lemma ArrivesAndStays(n: Net, x: nat, p: Packet)
    requires Inv(n) && Data(x, p) in n.wire && Fresh(n, Data(x, p))
    requires n.initial <= |n.r.ring.slots| - 1 && Avail(n.r.ring) >= 2
    ensures Has(Next(n, Deliver(Data(x, p))).r, x)
    ensures x >= n.r.lastAck ==>
              var k := x - n.r.start;
              && 0 <= k < |n.r.ring.slots| && Next(n, Deliver(Data(x, p))).r.ring.slots[k] == Full(1, p)
  {
    hide Inv, OnData, ReceiverInv, ReceiverOk, Has, Above;
    IsOfStream(n, x, p);
    BothOk(n);
    if x >= n.r.lastAck {
      if x - n.r.lastAck >= Avail(n.r.ring) {
        CreditHolds(n, x, p);
      }
      StoredOrThere(n.r, n.s.stream, x, p);
    } else {
      AboveHas(n.r, n.s.stream, n.r.lastAck, x);
      TooLate(n.r, x, p);
    }
  }

  lemma TooLate(r: Receiver, x: nat, p: Packet)
    requires ReceiverOk(r) && x < r.lastAck
    ensures OnData(r, x, p).0 == r
  {
  }

  lemma IsOfStream(n: Net, x: nat, p: Packet)
    requires Inv(n) && Data(x, p) in n.wire
    ensures ReceiverInv(n.r, n.s.stream) && ReceiverOk(n.r) && 0 <= x - n.r.isn < |n.s.stream| && p == n.s.stream[x - n.r.isn]
    ensures Above(n.r, n.r.lastAck)
  {
    assert Sound(n, Data(x, p));
  }

  /** A packet with a slot is stored there, if it is not there already. */
  lemma StoredOrThere(r: Receiver, stream: seq<Packet>, x: nat, p: Packet)
    requires ReceiverInv(r, stream) && 0 <= x - r.isn < |stream| && p == stream[x - r.isn]
    requires r.lastAck <= x < r.lastAck + Avail(r.ring)
    ensures var (r1, k) := (OnData(r, x, p).0, x - r.start);
            0 <= k < |r.ring.slots| == |r1.ring.slots| && r1.ring.slots[k] == Full(1, p) && Has(r1, x)
  {
    hide WellFormed, InOrder, Range;
    var k := x - r.start;
    assert k == r.ring.acked + (x - r.lastAck);
    if r.ring.slots[k].Full? {
      assert Ready(r.ring.slots[k]);
      assert r.ring.slots[k].packet == stream[r.start - r.isn + k];
    }
  }

  // ----- a first window that is too large

  /** A packet that is wanted arrives and is turned away. */
  ghost predicate TurnsAway(n: Net, x: nat, p: Packet)
    requires Inv(n)
  {
    && Data(x, p) in n.wire && Fresh(n, Data(x, p)) && x >= n.r.lastAck && !Has(n.r, x)
    && Next(n, Deliver(Data(x, p))).r == n.r
  }

  lemma {:induction false} OneBytePackets(data: seq<byte>, msgNo: MsgNo, first: bool)
    ensures |Fragments(data, 1, msgNo, true, first)| == |data|
    decreases |data|
  {
    hide MessageWord;
    if |data| > 1 {
      OneBytePackets(data[1..], msgNo, false);
    }
  }

  function Packs(k: nat, cwnd: int): (acts: seq<Act>)
    ensures |acts| == k
  {
    seq(k, _ => Pack(cwnd))
  }

  ghost predicate OnWire(n: Net, x: nat) {
    exists p :: Data(x, p) in n.wire
  }

  lemma PackOne(n: Net, cwnd: int)
    requires Inv(n) && n.s.loss == {} && n.s.sent < n.s.isn + |n.s.stream|
    requires n.s.sent - n.s.lastAck + 1 <= n.s.window <= cwnd
    ensures var n1 := Next(n, Pack(cwnd));
            n1 == n.(s := n.s.(sent := n.s.sent + 1), wire := n.wire + {Data(n.s.sent, PacketAt(n.s, n.s.sent))}) && Inv(n1)
  {
    assert Next(n, Pack(cwnd)) == n.(s := n.s.(sent := n.s.sent + 1), wire := n.wire + {Data(n.s.sent, PacketAt(n.s, n.s.sent))});
    hide Inv, Next;
    StepKeeps(n, Pack(cwnd));
  }

  /** k new packets go out while the window lasts. */
  lemma {:induction false} PackMany(n: Net, k: nat, cwnd: int)
    requires Inv(n) && k > 0 && n.s.loss == {} && n.s.sent + k <= n.s.isn + |n.s.stream|
    requires n.s.sent - n.s.lastAck + k <= n.s.window <= cwnd
    ensures var n1 := Run(n, Packs(k, cwnd));
            n1.r == n.r && n1.s == n.s.(sent := n.s.sent + k) && OnWire(n1, n.s.sent + k - 1)
    decreases k
  {
    hide Inv, Next, Grows;
    StepKeeps(n, Pack(cwnd));
    PackOne(n, cwnd);
    var first := Next(n, Pack(cwnd));
    assert Packs(k, cwnd)[0] == Pack(cwnd);
    assert Packs(k, cwnd)[1..] == Packs(k - 1, cwnd);
    if k > 1 {
      PackMany(first, k - 1, cwnd);
    } else {
      assert Run(first, []) == first;
      assert Data(n.s.sent, PacketAt(n.s, n.s.sent)) in first.wire;
    }
  }

  /** Nothing has come back yet, and the packet right behind the last free slot is on its way. */
  lemma BehindTheRing(n: Net, x: nat)
    requires Inv(n) && n.r.ring == EmptyRing(|n.r.ring.slots|) && n.r.lastAck == n.r.start
    requires x == n.r.start + |n.r.ring.slots| - 1 && OnWire(n, x)
    ensures exists p :: TurnsAway(n, x, p)
  {
    var p :| Data(x, p) in n.wire;
    assert TurnsAway(n, x, p);
  }

  /** The first message is queued. */
  lemma QueueFirst(isn: nat, msg: seq<byte>, size: nat, initial: int)
    requires msg != [] && size > 0
    ensures var n0 := Start(isn, 1, |msg|, size, initial);
            var n := Next(n0, Send(msg));
            && Inv(n) && n.r == n0.r && n.wire == {} && n.initial == initial && |n.s.stream| == |msg|
            && n.s.isn == n.s.dataAck == n.s.lastAck == n.s.sent == isn && n.s.loss == {} && n.s.window == initial
            && n.r.ring == EmptyRing(size) && n.r.lastAck == n.r.start == isn && |n.r.ring.slots| == size
  {
    var n0 := Start(isn, 1, |msg|, size, initial);
    OneBytePackets(msg, 1, true);
    assert [] + Fragments(msg, 1, 1, true, true) == Fragments(msg, 1, 1, true, true);
    assert Accepts(n0.s, msg);
    StepKeeps(n0, Send(msg));
    hide Inv, Fragments, Grows, NextMsgNo;
  }

  /** With a first window as large as the ring, or larger (the handshake grants as many packets as the ring has slots),
      the last packet of that window has no slot, whatever the size. */
  lemma WholeRingIsTooMuch(isn: nat, msg: seq<byte>, initial: int) returns (acts: seq<Act>, p: Packet)
    requires 0 < |msg| <= initial
    ensures var n := Run(Start(isn, 1, |msg|, |msg|, initial), acts); TurnsAway(n, isn + |msg| - 1, p)
  {
    hide Inv, Next, TurnsAway, Grows, OnWire, Run, Start;
    var size := |msg|;
    var n0 := Start(isn, 1, size, size, initial);
    StepKeeps(n0, Send(msg));
    QueueFirst(isn, msg, size, initial);
    acts := [Send(msg)] + Packs(size, initial);
    assert acts[0] == Send(msg) && acts[1..] == Packs(size, initial);
    var n1 := Next(n0, Send(msg));
    PackMany(n1, size, initial);
    RunOne(n0, acts);
    var n := Run(n1, Packs(size, initial));
    BehindTheRing(n, isn + size - 1);
    p :| TurnsAway(n, isn + size - 1, p);
  }

  lemma RunNone(n: Net)
    requires Inv(n)
    ensures Run(n, []) == n
  {
  }

  lemma RunOne(n: Net, acts: seq<Act>)
    requires Inv(n) && acts != []
    ensures SenderOk(n.s) && ReceiverOk(n.r) && Inv(Next(n, acts[0])) && Run(n, acts) == Run(Next(n, acts[0]), acts[1..])
  {
    StepKeeps(n, acts[0]);
  }

  lemma {:induction false} RunBoth(n: Net, a: seq<Act>, b: seq<Act>)
    requires Inv(n)
    ensures Run(n, a + b) == Run(Run(n, a), b)
    decreases |a|
  {
    hide Inv, Next;
    if a == [] {
      assert a + b == b;
    } else {
      RunOne(n, a);
      RunOne(n, a + b);
      assert (a + b)[1..] == a[1..] + b;
      RunBoth(Next(n, a[0]), a[1..], b);
    }
  }
}
