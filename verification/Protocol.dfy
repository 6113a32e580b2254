/** One sender and one receiver (core.cpp, class CUDT), as steps on values.

    Packets are named by coordinates: packet i of the stream has coordinate isn + i, and travels under the sequence
    number Wrap(isn + i).  The classes in Sender.dfy and Receiver.dfy work on the wrapped numbers, and are proved to
    make these steps. */
module Protocol {
  import opened SeqNo
  import opened LossChain
  import opened Packets
  import opened RcvRing

  lemma NotEmpty(s: set<int>)
    requires s != {}
    ensures exists x :: x in s
  {
    assert (forall x :: x !in s) ==> s == {};
  }

  ghost function Least(s: set<int>): (m: int)
    requires s != {}
    ensures m in s && forall c :: c in s ==> m <= c
  {
    NotEmpty(s);
    var x :| x in s;
    var rest := s - {x};
    assert forall c :: c in s <==> c == x || c in rest;
    if rest == {} then x
    else
      var m := Least(rest);
      if m < x then m else x
  }

  /** The least member is unique. */
  lemma LeastIs(s: set<int>, m: int)
    requires m in s && forall c :: c in s ==> m <= c
    ensures Least(s) == m
  {
  }

  // ----- the sender

  /** stream: all packets ever queued; dataAck, lastAck: released up to, acknowledged up to; sent: the next packet to be
      sent for the first time; loss: packets to be sent again. */
  datatype Sender = Sender(isn: nat, mss: nat, limit: nat, stream: seq<Packet>, nextMsgNo: MsgNo,
                           dataAck: nat, lastAck: nat, sent: nat, loss: set<int>, window: int, broken: bool)

  datatype Emit = Silent | Emitted(x: nat, p: Packet)

  ghost predicate SenderOk(s: Sender) {
    && s.mss > 0
    && s.isn <= s.dataAck <= s.lastAck <= s.sent <= s.isn + |s.stream|
    && forall c :: c in s.loss ==> s.dataAck <= c < s.sent
  }

  function PacketAt(s: Sender, x: nat): Packet
    requires s.isn <= x < s.isn + |s.stream|
  {
    s.stream[x - s.isn]
  }

  /** Is there room for a message?  The limit is counted in packets. */
  predicate Accepts(s: Sender, msg: seq<byte>) {
    !s.broken && msg != [] && (s.limit - (s.isn + |s.stream| - s.dataAck)) * s.mss >= |msg|
  }

  /** sendmsg: the transport sends every message in order. */
  function SendMsg(s: Sender, msg: seq<byte>): Sender
    requires s.mss > 0
  {
    if !Accepts(s, msg) then s
    else s.(stream := s.stream + Fragments(msg, s.mss, s.nextMsgNo, true, true), nextMsgNo := NextMsgNo(s.nextMsgNo))
  }

  /** packData: a lost packet goes first; otherwise the next new one, if the windows allow it. */
  ghost function PackData(s: Sender, cwnd: int): (r: (Sender, Emit))
    requires SenderOk(s)
  {
    if s.loss != {} then
      var x := Least(s.loss);
      (s.(loss := s.loss - {x}), Emitted(x, PacketAt(s, x)))
    else if (if s.window < cwnd then s.window else cwnd) >= s.sent - s.lastAck + 1 && s.sent < s.isn + |s.stream| then
      (s.(sent := s.sent + 1), Emitted(s.sent, PacketAt(s, s.sent)))
    else (s, Silent)
  }

  /** processCtrl, a light ACK: the window shrinks by what is acknowledged. */
  function OnLightAck(s: Sender, a: nat): Sender {
    if a >= s.lastAck then s.(window := s.window - (a - s.lastAck), lastAck := a) else s
  }

  /** processCtrl, a full ACK carrying the receiver's free space. */
  ghost function OnAck(s: Sender, a: nat, w: int): Sender {
    if a > s.sent then s.(broken := true)
    else
      var s1 := if a >= s.lastAck then s.(window := w, lastAck := a) else s;
      if a <= s.dataAck then s1
      else s1.(dataAck := a, loss := set c | c in s.loss && c > a - 1)
  }

  /** processCtrl, a NAK, range by range: the part not acknowledged yet joins the loss list; a range that is reversed or
      was never sent breaks the connection. */
  ghost function OnNak(s: Sender, nodes: seq<Node>): Sender
    decreases |nodes|
  {
    if nodes == [] then s
    else if !Secure(s, nodes[0]) then s.(broken := true)
    else OnNak(OnRange(s, nodes[0]), nodes[1..])
  }

  /** A single number is only looked at if it has not been acknowledged. */
  predicate Secure(s: Sender, n: Node) {
    if n.lo == n.hi then n.lo < s.lastAck || n.lo < s.sent else n.lo <= n.hi < s.sent
  }

  ghost function OnRange(s: Sender, n: Node): Sender {
    s.(loss := s.loss + Range(MaxOf(n.lo, s.lastAck), n.hi))
  }

  /** checkTimers: everything sent and not acknowledged is to be sent again, if nothing is waiting for that already. */
  function OnTimeout(s: Sender): Sender {
    if s.isn + |s.stream| > s.dataAck && s.sent != s.lastAck && s.loss == {} then s.(loss := Range(s.lastAck, s.sent - 1)) else s
  }

  // ----- the receiver

  /** ring: the receive buffer, whose first slot stands for packet `start`; lastAck: acknowledged up to; next: one past
      the greatest packet received; loss: gaps below next; ackAck: the sequence number last known to have reached the
      sender; delivered: what the reader has been given, with the size of his buffer. */
  datatype Receiver = Receiver(isn: nat, ring: Ring, start: nat, lastAck: nat, next: nat, loss: set<int>, ackAck: int,
                               delivered: seq<(seq<byte>, nat)>)

  datatype Report = NoReport | FullAck(a: nat, w: int) | LightAck(b: nat) | LossReport(lo: nat, hi: nat) | AckOfAck(c: nat)

  ghost predicate ReceiverOk(r: Receiver) {
    && Ok(r.ring)
    && r.isn <= r.start && r.lastAck == r.start + r.ring.acked <= r.next < r.start + |r.ring.slots|
    && forall c :: c in r.loss ==> r.lastAck <= c < r.next
  }

  /** processData: the packet is stored if it fits and is new; a gap in front of it is noted and reported. */
  ghost function OnData(r: Receiver, x: int, p: Packet): (res: (Receiver, Report))
    requires ReceiverOk(r)
    ensures ReceiverOk(res.0)
  {
    var offset := x - r.lastAck;
    if offset < 0 || offset >= Avail(r.ring) then (r, NoReport)
    else
      var (ring, ok) := AddData(r.ring, p, offset);
      if !ok then (r.(ring := ring), NoReport)
      else if x > r.next then (r.(ring := ring, loss := r.loss + Range(r.next, x - 1), next := x + 1), LossReport(r.next, x - 1))
      else if x == r.next then (r.(ring := ring, next := x + 1), NoReport)
      else (r.(ring := ring, loss := r.loss - {x}), NoReport)
  }

  /** The number sendCtrl acknowledges: the first packet that is missing. */
  ghost function AckPoint(r: Receiver): (a: int)
    requires ReceiverOk(r)
    ensures r.lastAck <= a <= r.next
  {
    if r.loss == {} then r.next else Least(r.loss)
  }

  /** sendCtrl(2): a light ACK carries the number alone; a full one also advances the buffer's acknowledged part.
      recent: the last ACK with this number was sent less than a round trip ago. */
  ghost function Acknowledge(r: Receiver, light: bool, recent: bool): (res: (Receiver, Report))
    requires ReceiverOk(r)
    ensures ReceiverOk(res.0)
  {
    var ack := AckPoint(r);
    if Wrap(ack) == r.ackAck then (r, NoReport)
    else if light then (r, LightAck(ack))
    else if ack == r.lastAck && recent then (r, NoReport)
    else
      var r1 := r.(lastAck := ack, ring := if ack > r.lastAck then AckData(r.ring, ack - r.lastAck) else r.ring);
      (r1, if SeqCmp(Wrap(ack), r.ackAck) > 0 then FullAck(ack, MaxOf(2, Avail(r1.ring))) else NoReport)
  }

  /** processCtrl, an acknowledgement of an ACK. */
  function OnAck2(r: Receiver, ack: int): Receiver {
    if SeqCmp(ack, r.ackAck) > 0 then r.(ackAck := ack) else r
  }

  /** recvmsg: a message is handed over if there is one. */
  ghost function Receive(r: Receiver, len: nat): (r1: Receiver)
    requires ReceiverOk(r)
  {
    if len == 0 then r
    else
    var (ring, data) := ReadMsg(r.ring, len);
    var start := r.start + (r.ring.acked - ring.acked);
    r.(ring := ring, start := start, delivered := if data == [] then r.delivered else r.delivered + [(data, len)])
  }
}
