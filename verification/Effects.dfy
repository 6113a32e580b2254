/** What the steps of Protocol do to either end: which packets are sent, given up, asked for and kept, and what every
    counter is afterwards. */
module Effects {
  import opened SeqNo
  import opened LossChain
  import opened Packets
  import opened RcvRing
  import opened Protocol
  import opened SndBuffers

  // ----- the sender

  /** Packets that are queued, sent or not. */
  function Queued(s: Sender): int {
    s.isn + |s.stream| - s.dataAck
  }

  /** The packets of a message are as many as it takes to hold its bytes. */
  lemma PacketsHold(msg: seq<byte>, mss: nat, msgNo: MsgNo)
    requires mss > 0
    ensures var k: int := |Fragments(msg, mss, msgNo, true, true)|; |msg| <= k * mss && (k > 0 ==> (k - 1) * mss < |msg|)
  {
    CountsFragments(msg, mss, msgNo, true, true);
    hide Fragments;
    var k: int := PacketCount(|msg|, mss);
    assert |msg| == |msg| / mss * mss + |msg| % mss;
    assert (k - 1) * mss == k * mss - mss;
  }

  lemma MulOrder(a: int, b: int, m: nat)
    requires a <= b
    ensures a * m <= b * m
  {
  }

  /** A message is accepted if and only if the connection stands, there is something in it, and its packets fit beside those
      that are queued. */
  lemma AcceptsIfFits(s: Sender, msg: seq<byte>)
    requires s.mss > 0
    ensures Accepts(s, msg) <==> !s.broken && msg != [] && Queued(s) + |Fragments(msg, s.mss, s.nextMsgNo, true, true)| <= s.limit
  {
    PacketsHold(msg, s.mss, s.nextMsgNo);
    hide Fragments;
    var k: int, room: int := |Fragments(msg, s.mss, s.nextMsgNo, true, true)|, s.limit - Queued(s);
    if k <= room {
      MulOrder(k, room, s.mss);
    } else {
      MulOrder(room, k - 1, s.mss);
    }
  }

  /** While something is lost, whatever the windows, the first lost packet goes out again, as it is in the stream; nothing
      new is sent. */
  lemma LostFirst(s: Sender, cwnd: int)
    requires SenderOk(s) && s.loss != {}
    ensures var x := Least(s.loss);
            && s.isn <= x < s.isn + |s.stream|
            && PackData(s, cwnd) == (s.(loss := s.loss - {x}), Emitted(x, s.stream[x - s.isn]))
  {
  }

  /** Both windows have room for one packet more than what is in flight. */
  predicate RoomFor(s: Sender, cwnd: int) {
    s.sent < s.lastAck + s.window && s.sent < s.lastAck + cwnd
  }

  /** With nothing lost, the next new packet goes out if and only if there is one and both windows have room for it. */
  lemma NewNext(s: Sender, cwnd: int)
    requires SenderOk(s) && s.loss == {}
    ensures PackData(s, cwnd) ==
            if RoomFor(s, cwnd) && s.sent < s.isn + |s.stream| then (s.(sent := s.sent + 1), Emitted(s.sent, s.stream[s.sent - s.isn]))
            else (s, Silent)
  {
  }

  /** A light ACK leaves the right edge of the window where it is. */
  lemma LightAckMeans(s: Sender, a: nat)
    ensures var s1 := OnLightAck(s, a);
            && s1.lastAck + s1.window == s.lastAck + s.window && s1.lastAck == MaxOf(s.lastAck, a)
            && s1 == s.(lastAck := s1.lastAck, window := s1.window)
  {
  }

  /** A full ACK of what was never sent breaks the connection and does nothing else.  Any other gives up everything in front
      of it, in the buffer and in the loss list, and sets the window unless a later one has been seen. */
  lemma AckMeans(s: Sender, a: nat, w: int)
    requires SenderOk(s)
    ensures var s1 := OnAck(s, a, w);
            if a > s.sent then s1 == s.(broken := true)
            else
              && s1.dataAck == MaxOf(s.dataAck, a) && s1.lastAck == MaxOf(s.lastAck, a)
              && s1.window == (if a >= s.lastAck then w else s.window)
              && (forall c :: c in s1.loss <==> c in s.loss && c >= a)
              && s1 == s.(dataAck := s1.dataAck, lastAck := s1.lastAck, window := s1.window, loss := s1.loss)
  {
  }

  /** The packets from lo to hi have all been sent. */
  predicate WereSent(s: Sender, n: Node) {
    n.lo <= n.hi < s.sent
  }

  /** How many ranges of a NAK are looked at: those in front of the first that was not sent. */
  function Leading(s: Sender, nodes: seq<Node>): (k: nat)
    ensures k <= |nodes| && (forall i :: 0 <= i < k ==> WereSent(s, nodes[i])) && (k < |nodes| ==> !WereSent(s, nodes[k]))
  {
    if nodes == [] || !WereSent(s, nodes[0]) then 0 else 1 + Leading(s, nodes[1..])
  }

  /** The range names this packet, which has not been acknowledged. */
  predicate Asks(s: Sender, n: Node, c: int) {
    n.lo <= c <= n.hi && c >= s.lastAck
  }

  lemma SecureIfSent(s: Sender, n: Node)
    requires SenderOk(s)
    ensures Secure(s, n) <==> WereSent(s, n)
  {
  }

  /** One range of a NAK: exactly its packets that have not been acknowledged join the lost ones. */
  lemma RangeMeans(s: Sender, n: Node)
    ensures var s1 := OnRange(s, n);
            s1 == s.(loss := s1.loss) && forall c :: c in s1.loss <==> c in s.loss || Asks(s, n, c)
  {
  }

  lemma RangeKeeps(s: Sender, n: Node)
    requires SenderOk(s) && WereSent(s, n)
    ensures SenderOk(OnRange(s, n))
  {
  }

  lemma LeadingStays(s: Sender, s1: Sender, nodes: seq<Node>)
    requires s1.sent == s.sent
    ensures Leading(s1, nodes) == Leading(s, nodes)
  {
  }

  /** A NAK: exactly the packets that its ranges ask for join the lost ones, up to the first range that was not sent, and
      such a range breaks the connection. */
  lemma {:induction false} NakMeans(s: Sender, nodes: seq<Node>)
    requires SenderOk(s)
    ensures var s1 := OnNak(s, nodes);
            && s1 == s.(loss := s1.loss, broken := s1.broken)
            && (s1.broken <==> s.broken || exists i :: 0 <= i < |nodes| && !WereSent(s, nodes[i]))
            && forall c :: c in s1.loss <==> c in s.loss || exists i :: 0 <= i < Leading(s, nodes) && Asks(s, nodes[i], c)
    decreases |nodes|
  {
    if nodes != [] {
      var n, rest := nodes[0], nodes[1..];
      SecureIfSent(s, n);
      hide Secure, OnRange;
      if WereSent(s, n) {
        RangeMeans(s, n);
        RangeKeeps(s, n);
        var s0 := OnRange(s, n);
        NakMeans(s0, rest);
        LeadingStays(s, s0, rest);
        hide SenderOk, OnNak;
        NakJoins(s, s0, nodes);
      }
    }
  }

  /** Putting the first range and the others together. */
  lemma NakJoins(s: Sender, s0: Sender, nodes: seq<Node>)
    requires nodes != [] && WereSent(s, nodes[0]) && s0.sent == s.sent && s0.lastAck == s.lastAck
    ensures (exists i :: 0 <= i < |nodes| && !WereSent(s, nodes[i])) <==> exists i :: 0 <= i < |nodes| - 1 && !WereSent(s0, nodes[1..][i])
    ensures forall c :: (exists i :: 0 <= i < Leading(s, nodes) && Asks(s, nodes[i], c))
                        <==> Asks(s, nodes[0], c) || exists i :: 0 <= i < Leading(s, nodes[1..]) && Asks(s0, nodes[1..][i], c)
  {
    var rest := nodes[1..];
    if i :| 0 <= i < |nodes| && !WereSent(s, nodes[i]) {
      assert !WereSent(s0, rest[i - 1]);
    }
    forall c
      ensures (exists i :: 0 <= i < Leading(s, nodes) && Asks(s, nodes[i], c))
              <==> Asks(s, nodes[0], c) || exists i :: 0 <= i < Leading(s, rest) && Asks(s0, rest[i], c)
    {
      if i :| 0 <= i < Leading(s, nodes) && Asks(s, nodes[i], c) {
        assert i > 0 ==> Asks(s0, rest[i - 1], c);
      }
      if i :| 0 <= i < Leading(s, rest) && Asks(s0, rest[i], c) {
        assert Asks(s, nodes[i + 1], c);
      }
    }
  }

  /** A timeout: if nothing is waiting to be sent again, everything sent and not acknowledged is; otherwise nothing happens. */
  lemma TimeoutMeans(s: Sender)
    requires SenderOk(s)
    ensures var s1 := OnTimeout(s);
            && s1 == s.(loss := s1.loss)
            && forall c :: c in s1.loss <==> c in s.loss || (s.loss == {} && s.lastAck <= c < s.sent)
  {
  }

  // ----- the receiver

  /** The slot for packet x is there and free. */
  predicate Wanted(r: Receiver, x: int) {
    x >= r.lastAck && x - r.start < |r.ring.slots| - 1 && 0 <= x - r.start && r.ring.slots[x - r.start] == Empty
  }

  /** A data packet that is wanted goes into its slot, unread; then exactly the packets between the greatest one before and
      this one become missing, and are reported, and this one is missing no more.  Any other changes nothing but the furthest
      position, and nothing is reported. */
  lemma DataMeans(r: Receiver, x: int, p: Packet)
    requires ReceiverOk(r)
    ensures var (r1, report) := OnData(r, x, p);
            && r1 == r.(ring := r1.ring, loss := r1.loss, next := r1.next) && r1.ring.acked == r.ring.acked
            && if Wanted(r, x) then
                 && r1.ring.slots == r.ring.slots[x - r.start := Full(1, p)] && r1.next == MaxOf(r.next, x + 1)
                 && (forall c :: c in r1.loss <==> c != x && (c in r.loss || r.next <= c < x))
                 && report == if r.next < x then LossReport(r.next, x - 1) else NoReport
               else r1.ring.slots == r.ring.slots && r1.next == r.next && r1.loss == r.loss && report == NoReport
  {
  }

  /** The furthest position covers the slot of a packet for which there is room, whether it is taken or not. */
  lemma DataReaches(r: Receiver, x: int, p: Packet)
    requires ReceiverOk(r)
    ensures var b := OnData(r, x, p).0.ring;
            b.maxPos == if r.lastAck <= x && x - r.start < |r.ring.slots| - 1 then MaxOf(r.ring.maxPos, x - r.lastAck) else r.ring.maxPos
  {
  }

  /** Packet a is the first one that has not come. */
  predicate FirstMissing(r: Receiver, a: int) {
    (a in r.loss || (r.loss == {} && a == r.next)) && forall c :: c in r.loss ==> a <= c
  }

  /** An acknowledgement says which packet is the first missing one.  None is sent if that number has been confirmed.  A light
      one says only that.  A full one advances the acknowledged part to it, with the packets where they were, and tells how
      many slots are free then, at least 2; it is not sent if the number is not newer than the confirmed one, nor repeated
      too soon. */
  lemma AckSays(r: Receiver, light: bool, recent: bool, a: nat)
    requires ReceiverOk(r) && FirstMissing(r, a)
    ensures var (r1, report) := Acknowledge(r, light, recent);
            if Wrap(a) == r.ackAck then r1 == r && report == NoReport
            else if light then r1 == r && report == LightAck(a)
            else if a == r.lastAck && recent then r1 == r && report == NoReport
            else
              && r1 == r.(lastAck := a, ring := r1.ring)
              && r1.ring.slots == r.ring.slots && r1.ring.acked == a - r.start && r1.ring.maxPos == MaxNat(r.lastAck + r.ring.maxPos, a) - a
              && report == if SeqCmp(Wrap(a), r.ackAck) > 0 then FullAck(a, MaxOf(2, |r.ring.slots| - 1 - (a - r.start))) else NoReport
  {
    hide SeqCmp, Wrap;
    MissingIs(r, a);
  }

  lemma MissingIs(r: Receiver, a: nat)
    requires ReceiverOk(r) && FirstMissing(r, a)
    ensures AckPoint(r) == a
  {
    if r.loss != {} {
      LeastIs(r.loss, a);
    }
  }

  /** There always is one. */
  lemma SomeMissing(r: Receiver)
    requires ReceiverOk(r)
    ensures FirstMissing(r, AckPoint(r)) && AckPoint(r) >= 0
  {
  }
}
