/** Both ends of a connection, as the classes Sender and Receiver, with the network between them.  Every method makes one
    step of Networks, so whatever is proved of its runs holds of these objects; in particular, the windows always fit the
    loss lists, and what is read is what was sent. */
module Connections {
  import opened SeqNo
  import opened LossChain
  import opened NakCoding
  import opened Packets
  import opened RcvRing
  import Protocol
  import Effects
  import opened Networks
  import opened Streams
  import opened AckWindows
  import opened UnitQueues
  import SndBuffers
  import opened Senders
  import opened Receivers

  /** n1 is what a step of the network makes of n. */
  ghost predicate Makes(n: Net, act: Act, n1: Net) {
    Inv(n) && Inv(n1) && (BothOk(n); n1 == Next(n, act))
  }

  /** What every step keeps. */
  ghost predicate SameShape(n: Net, n1: Net) {
    Inv(n1) && n1.initial == n.initial && |n1.r.ring.slots| == |n.r.ring.slots| && MaxWindow(n1) == MaxWindow(n)
  }

  lemma Moves(n: Net, act: Act) returns (n1: Net)
    requires Inv(n)
    ensures Protocol.SenderOk(n.s) && Protocol.ReceiverOk(n.r) && n1 == Next(n, act) && Makes(n, act, n1) && SameShape(n, n1) && Inv(n1)
  {
    BothOk(n);
    StepKeeps(n, act);
    hide Inv, Next;
    n1 := Next(n, act);
  }

  /** How many packets have been sent since the one that a message speaks of. */
  function Age(n: Net, m: Msg): int {
    match m
    case Data(x, _) => n.s.sent - x
    case Control(FullAck(a, _)) => n.s.sent - a
    case Control(LightAck(a)) => n.s.sent - a
    case Control(LossReport(lo, _)) => n.s.sent - lo
    case Control(AckOfAck(a)) => n.s.sent - a
    case Control(NoReport) => 0
  }

  lemma YoungIsFresh(n: Net, m: Msg)
    requires Inv(n) && m in n.wire && Age(n, m) < THRESHOLD
    ensures Fresh(n, m)
  {
    Cursors(n);
    assert n.r.lastAck <= n.r.next by { BothOk(n); }
    hide Inv;
  }

  lemma Sending(n: Net, data: seq<byte>) returns (n1: Net)
    requires Inv(n)
    ensures Makes(n, Act.Send(data), n1) && SameShape(n, n1) && n1.r == n.r && n.s.mss > 0 && n1.s == Protocol.SendMsg(n.s, data)
    ensures n1.msgs == (if Protocol.Accepts(n.s, data) then n.msgs + [data] else n.msgs) && n1.wire == n.wire
  {
    hide Inv, SameShape, Makes, Protocol.Accepts;
    n1 := Moves(n, Act.Send(data));
  }

  lemma Packing(n: Net, cwnd: int) returns (n1: Net)
    requires Inv(n)
    ensures Makes(n, Act.Pack(cwnd), n1) && SameShape(n, n1) && n1.r == n.r && Protocol.SenderOk(n.s)
    ensures var (s, e) := Protocol.PackData(n.s, cwnd);
            && n1.s == s && n1.wire == n.wire + (if e.Emitted? then {Data(e.x, e.p)} else {})
            && (e.Emitted? ==> Age(n1, Data(e.x, e.p)) <= MaxWindow(n1))
  {
    n1 := Moves(n, Act.Pack(cwnd));
    Windows(n1);
    hide Inv, Makes, MaxWindow;
  }

  lemma TimingOut(n: Net) returns (n1: Net)
    requires Inv(n)
    ensures Makes(n, Timeout, n1) && SameShape(n, n1) && n1.r == n.r && n1.s == Protocol.OnTimeout(n.s) && n1.wire == n.wire
  {
    hide Inv, SameShape, Makes, Protocol.OnTimeout;
    n1 := Moves(n, Timeout);
  }

  lemma Arriving(n: Net, m: Msg) returns (n1: Net)
    requires Inv(n) && m in n.wire && Fresh(n, m)
    ensures Makes(n, Deliver(m), n1) && SameShape(n, n1) && Protocol.ReceiverOk(n.r)
    ensures n1 == Arrive(n, m)
  {
    hide Inv, SameShape, Makes, Arrive;
    n1 := Moves(n, Deliver(m));
  }

  lemma LightIsSent(n: Net, a: nat)
    requires Inv(n) && Control(Protocol.LightAck(a)) in n.wire
    ensures a <= n.s.sent
  {
    assert Sound(n, Control(Protocol.LightAck(a)));
  }

  lemma ArrivingAck(n: Net, a: nat, w: int) returns (n1: Net)
    requires var m := Control(Protocol.FullAck(a, w)); Inv(n) && m in n.wire && Fresh(n, m) && MaxWindow(n) < THRESHOLD
    ensures Makes(n, Deliver(Control(Protocol.FullAck(a, w))), n1) && SameShape(n, n1) && n1.r == n.r && n1.s == Protocol.OnAck(n.s, a, w)
    ensures Near(a, n.s.sent) && Near(a, n.s.lastAck) && Near(a, n.s.dataAck)
    ensures n1.wire == n.wire + {Control(Protocol.AckOfAck(a))} && n1.s.sent == n.s.sent
  {
    hide Inv, SameShape, Makes, Protocol.OnAck, MaxWindow;
    FreshIsNear(n, Control(Protocol.FullAck(a, w)));
    n1 := Arriving(n, Control(Protocol.FullAck(a, w)));
    AckSendsNothing(n.s, a, w);
  }

  lemma AckSendsNothing(s: Protocol.Sender, a: nat, w: int)
    ensures Protocol.OnAck(s, a, w).sent == s.sent
  {
  }

  lemma ArrivingLight(n: Net, a: nat) returns (n1: Net)
    requires var m := Control(Protocol.LightAck(a)); Inv(n) && m in n.wire && Fresh(n, m) && MaxWindow(n) < THRESHOLD
    ensures Makes(n, Deliver(Control(Protocol.LightAck(a))), n1) && SameShape(n, n1) && n1.r == n.r && n1.s == Protocol.OnLightAck(n.s, a)
    ensures Near(a, n.s.lastAck) && a <= n.s.sent && n1.wire == n.wire
  {
    hide Inv, SameShape, Makes, Protocol.OnLightAck, MaxWindow;
    FreshIsNear(n, Control(Protocol.LightAck(a)));
    LightIsSent(n, a);
    n1 := Arriving(n, Control(Protocol.LightAck(a)));
  }

  lemma ArrivingNak(n: Net, lo: nat, hi: nat) returns (n1: Net)
    requires var m := Control(Protocol.LossReport(lo, hi)); Inv(n) && m in n.wire && Fresh(n, m) && MaxWindow(n) < THRESHOLD
    ensures Makes(n, Deliver(Control(Protocol.LossReport(lo, hi))), n1) && SameShape(n, n1) && n1.r == n.r
    ensures n1.s == Protocol.OnNak(n.s, [Node(lo, hi)]) && n1.wire == n.wire
    ensures Near(lo, hi) && Near(lo, n.s.lastAck) && Near(hi, n.s.lastAck) && Near(lo, n.s.sent - 1) && Near(hi, n.s.sent - 1)
  {
    hide Inv, SameShape, Makes, Protocol.OnNak, MaxWindow;
    FreshIsNear(n, Control(Protocol.LossReport(lo, hi)));
    n1 := Arriving(n, Control(Protocol.LossReport(lo, hi)));
  }

  lemma ArrivingData(n: Net, x: nat, p: Packet) returns (n1: Net)
    requires Inv(n) && Data(x, p) in n.wire && Fresh(n, Data(x, p)) && MaxWindow(n) < THRESHOLD
    ensures Makes(n, Deliver(Data(x, p)), n1) && SameShape(n, n1) && n1.s == n.s && Protocol.ReceiverOk(n.r) && Near(x, n.r.lastAck)
    ensures var (r, report) := Protocol.OnData(n.r, x, p); n1.r == r && n1.wire == n.wire + Sends(report)
    ensures var report := Protocol.OnData(n.r, x, p).1;
            if report.LossReport? then Age(n1, Control(report)) <= MaxWindow(n1) && EncodeNode(Node(report.lo, report.hi)) != []
            else report == Protocol.NoReport
  {
    hide Inv, SameShape, Makes, Protocol.OnData, MaxWindow, EncodeNode;
    FreshIsNear(n, Data(x, p));
    n1 := Arriving(n, Data(x, p));
    Windows(n);
    ReportIsNew(n.r, x, p);
    SameWindow(n, n1);
  }

  lemma SameWindow(n: Net, n1: Net)
    requires SameShape(n, n1)
    ensures MaxWindow(n1) == MaxWindow(n) && Inv(n1)
  {
  }

  lemma ReportIsNew(r: Protocol.Receiver, x: nat, p: Packet)
    requires Protocol.ReceiverOk(r)
    ensures var report := Protocol.OnData(r, x, p).1;
            if report.LossReport? then report.lo >= r.lastAck && EncodeNode(Node(report.lo, report.hi)) != [] else report == Protocol.NoReport
  {
    hide Range;
  }

  lemma ArrivingAck2(n: Net, a: nat) returns (n1: Net)
    requires var m := Control(Protocol.AckOfAck(a)); Inv(n) && m in n.wire && Fresh(n, m)
    ensures Makes(n, Deliver(Control(Protocol.AckOfAck(a))), n1) && SameShape(n, n1) && n1.s == n.s && n1.r == Protocol.OnAck2(n.r, Wrap(a))
    ensures n1.wire == n.wire
  {
    hide Inv, SameShape, Makes, Protocol.OnAck2, Wrap;
    n1 := Arriving(n, Control(Protocol.AckOfAck(a)));
  }

  lemma Acknowledging(n: Net, light: bool, recent: bool) returns (n1: Net)
    requires Inv(n)
    ensures Makes(n, Act.SendAck(light, recent), n1) && SameShape(n, n1) && n1.s == n.s && Protocol.ReceiverOk(n.r)
    ensures var (r, report) := Protocol.Acknowledge(n.r, light, recent);
            && n1.r == r && n1.wire == n.wire + Sends(report)
            && (report != Protocol.NoReport ==> Age(n1, Control(report)) <= MaxWindow(n1))
  {
    hide Inv, SameShape, Makes, MaxWindow, Protocol.AckPoint;
    n1 := Moves(n, Act.SendAck(light, recent));
    Windows(n);
    SameWindow(n, n1);
  }

  /** The reader is given the next message, or nothing. */
  lemma Reading(n: Net, len: nat) returns (n1: Net)
    requires Inv(n)
    ensures Makes(n, Recv(len), n1) && SameShape(n, n1) && n1.s == n.s && n1.msgs == n.msgs && n1.wire == n.wire
    ensures Protocol.ReceiverOk(n.r) && n1.r == Protocol.Receive(n.r, len)
    ensures var (d, data) := (|n.r.delivered|, ReadMsg(n.r.ring, len).1);
            && (len > 0 && data != [] ==> d < |n.msgs| && data == Take(n.msgs[d], len))
            && n1.r.delivered == if len == 0 || data == [] then n.r.delivered else n.r.delivered + [(data, len)]
  {
    hide Inv, SameShape, Makes, Protocol.Receive;
    n1 := Moves(n, Recv(len));
    Parts(n1);
    GivenOne(n.r, len);
    hide StreamOf, Take;
    var d := |n.r.delivered|;
    assert n1.r == Protocol.Receive(n.r, len);
    assert len > 0 && ReadMsg(n.r.ring, len).1 != [] ==> n1.r.delivered[d] == (ReadMsg(n.r.ring, len).1, len);
  }

  lemma GivenOne(r: Protocol.Receiver, len: nat)
    requires Protocol.ReceiverOk(r)
    ensures Protocol.Receive(r, len).delivered
            == if len == 0 || ReadMsg(r.ring, len).1 == [] then r.delivered else r.delivered + [(ReadMsg(r.ring, len).1, len)]
  {
    hide ReadMsg;
  }

  lemma RunMore(n: Net, acts: seq<Act>, act: Act)
    requires Inv(n)
    ensures Protocol.SenderOk(Run(n, acts).s) && Protocol.ReceiverOk(Run(n, acts).r) && Run(n, acts + [act]) == Next(Run(n, acts), act)
  {
    hide Inv, Next;
    RunBoth(n, acts, [act]);
    var n1 := Run(n, acts);
    BothOk(n1);
    RunOne(n1, [act]);
    assert [act][1..] == [];
    RunNone(Next(n1, act));
  }

  lemma EncodeSingle(n: Node)
    ensures Encode([n]) == EncodeNode(n)
  {
    assert [n][1..] == [];
  }

  /** What the numbers in full ACKs stand for. */
  ghost predicate Stand(acks: seq<Record>, acked: seq<nat>) {
    |acked| == |acks| && forall i :: 0 <= i < |acked| ==> acks[i].ack == Wrap(acked[i])
  }

  lemma StandMore(acks: seq<Record>, acked: seq<nat>, r: Record, a: nat)
    requires Stand(acks, acked) && r.ack == Wrap(a)
    ensures Stand(acks + [r], acked + [a])
  {
    hide Wrap;
  }

  class Connection {
    const sender: Sender
    const receiver: Receiver

    ghost const first: Net      // what the connection started as
    ghost var past: seq<Act>    // what has happened since
    ghost var net: Net          // what has become of it
    ghost var acked: seq<nat>   // the packet up to which each full ACK acknowledged

    /** The two ends share no array. */
    ghost predicate Apart() {
      NotAtReceiver(sender.lossList.data1) && NotAtReceiver(sender.lossList.data2) && NotAtReceiver(sender.lossList.next)
    }

    ghost predicate NotAtReceiver(a: array<int>) {
      var (r, w) := (receiver.lossList, receiver.ackWindow);
      a != r.data1 && a != r.data2 && a != r.next && a != r.prior && a != w.seqNos && a != w.acks && a != w.times
    }

    ghost predicate Reached()
      reads this`past, this`net
    {
      Inv(first) && Networks.Run(first, past) == net
    }

    /** What the ends are is what the network says they are. */
    ghost predicate Joined()
      reads this, sender`state, receiver`state, receiver`acks
    {
      && net.s == sender.state && net.r == receiver.state && Inv(net)
      && Stand(receiver.acks, acked)
    }

    /** The handshake's window is within the reach of the comparisons, and at least half as large as the ring. */
    ghost predicate Sized()
      reads this`net
    {
      && net.initial >= 1 && MaxWindow(net) + 1 < THRESHOLD
      && |net.r.ring.slots| - 1 <= 2 * net.initial && sender.lossList.size == 2 * net.initial
    }

    ghost predicate Valid()
      reads this, sender, sender.sndBuffer, sender.sndBuffer.ring
      reads sender.lossList, sender.lossList.data1, sender.lossList.data2, sender.lossList.next
      reads receiver, receiver.rcvBuffer, receiver.rcvBuffer.pUnit, receiver.rcvBuffer.pUnit[..]
      reads receiver.rcvBuffer.queue, receiver.rcvBuffer.queue.place.Keys
      reads receiver.lossList, receiver.lossList.data1, receiver.lossList.data2, receiver.lossList.next, receiver.lossList.prior
      reads receiver.ackWindow, receiver.ackWindow.seqNos, receiver.ackWindow.acks, receiver.ackWindow.times
    {
      sender.Valid() && receiver.Valid() && Apart() && Reached() && Joined() && Sized()
    }

    /** Everything a call may change. */
    ghost function Repr(): set<object>
      reads sender.sndBuffer`ring, receiver.rcvBuffer.queue`place
    {
      Fixed() + (set b | b in sender.sndBuffer.ring :: b as object) + (set u | u in receiver.rcvBuffer.queue.place :: u as object)
    }

    /** The objects that are there from the start. */
    ghost function Fixed(): set<object> {
      {this, sender, sender.sndBuffer, sender.lossList, sender.lossList.data1, sender.lossList.data2, sender.lossList.next,
       receiver, receiver.rcvBuffer, receiver.rcvBuffer.pUnit, receiver.rcvBuffer.queue,
       receiver.lossList, receiver.lossList.data1, receiver.lossList.data2, receiver.lossList.next, receiver.lossList.prior,
       receiver.ackWindow, receiver.ackWindow.seqNos, receiver.ackWindow.acks, receiver.ackWindow.times}
    }

    /** isn: the initial number both ends have agreed on; window: the flow window the handshake gave the sender. */
    constructor (isn: nat, mss: nat, limit: nat, blocks: nat, window: int, queue: UnitQueue, bufSize: nat, flightSize: nat)
      requires IsSeqNo(isn) && mss > 0 && blocks > 0 && window > 0 && window + 1 < THRESHOLD && bufSize - 1 <= 2 * window
      requires queue.Valid() && 0 < bufSize <= flightSize && flightSize + 1 < THRESHOLD
      ensures Valid() && first == Networks.Start(isn, mss, limit, bufSize, window) && past == [] && net == first
      ensures receiver.rcvBuffer.queue == queue && receiver.rcvBuffer.Units() == {} && acked == [] && receiver.acks == []
      ensures fresh(sender) && fresh(sender.sndBuffer) && fresh(sender.lossList)
      ensures fresh(sender.lossList.data1) && fresh(sender.lossList.data2) && fresh(sender.lossList.next)
      ensures fresh(receiver) && fresh(receiver.rcvBuffer) && fresh(receiver.rcvBuffer.pUnit) && fresh(receiver.lossList)
      ensures fresh(receiver.lossList.data1) && fresh(receiver.lossList.data2) && fresh(receiver.lossList.next)
      ensures fresh(receiver.lossList.prior) && fresh(receiver.ackWindow) && fresh(receiver.ackWindow.seqNos)
      ensures fresh(receiver.ackWindow.acks) && fresh(receiver.ackWindow.times)
      ensures forall b :: b in sender.sndBuffer.ring ==> fresh(b)
      ensures forall k :: 0 <= k < |sender.sndBuffer.ring| ==> fresh(sender.sndBuffer.ring[k])
    {
      hide Sender.Valid, Receiver.Valid, Inv, UnitQueue.Valid;
      WrapSmall(isn);
      sender := new Sender(isn, mss, limit, blocks, window);
      receiver := new Receiver(queue, isn, bufSize, flightSize);
      first := Networks.Start(isn, mss, limit, bufSize, window);
      net := Networks.Start(isn, mss, limit, bufSize, window);
      past := [];
      acked := [];
    }

    /** One more step has been made. */
    ghost predicate Does(past0: seq<Act>, net0: Net, act: Act)
      reads this`past, this`net
    {
      past == past0 + [act] && Makes(net0, act, net)
    }

    ghost method Took(act: Act, n1: Net)
      requires Reached() && Makes(net, act, n1)
      modifies this`net, this`past
      ensures Reached() && net == n1 && past == old(past) + [act]
    {
      RunMore(first, past, act);
      net, past := n1, past + [act];
    }

    /** The windows fit the sender's loss list. */
    lemma Fits()
      requires Joined() && Sized()
      ensures sender.Spans()
    {
      Windows(net);
      hide Inv;
    }

    /** The application sends a message. */
    method Send(data: seq<byte>) returns (r: SendResult)
      requires Valid()
      modifies this`net, this`past, sender`state, sender.sndBuffer, sender.sndBuffer.ring
      ensures Valid() && Does(old(past), old(net), Act.Send(data))
      ensures net.msgs == (if r.Taken? && r.len > 0 then old(net.msgs) + [data] else old(net.msgs)) && net.wire == old(net.wire)
      ensures forall b :: b in sender.sndBuffer.ring ==> b in old(sender.sndBuffer.ring) || fresh(b)
      ensures forall k :: 0 <= k < |sender.sndBuffer.ring| ==>
                sender.sndBuffer.ring[k] in old(sender.sndBuffer.ring) || fresh(sender.sndBuffer.ring[k])
    {
      hide Sender.Valid, Receiver.Valid, Inv, MaxWindow, Makes, Reached, Fresh, Protocol.SendMsg, Protocol.Accepts;
      ghost var n1 := Sending(net, data);
      r := sender.SendMsg(data);
      Took(Act.Send(data), n1);
    }

    /** The sender may put a packet on the wire. */
    method Pack(cwnd: int) returns (seqNo: int, p: SndBuffers.Option, ghost x: nat)
      requires Valid()
      modifies this`net, this`past, sender`state, sender`sndCurrSeqNo, sender.sndBuffer`currBlock, sender.sndBuffer`sent
      modifies sender.lossList, sender.lossList.data1, sender.lossList.data2, sender.lossList.next
      ensures Valid() && Does(old(past), old(net), Act.Pack(cwnd))
      ensures net.wire == old(net.wire) + if p.Some? then {Data(x, p.value)} else {}
      ensures p.Some? ==> seqNo == Wrap(x) && Age(net, Data(x, p.value)) <= MaxWindow(net)
    {
      hide Sender.Valid, Receiver.Valid, Inv, MaxWindow, Makes, Reached, Fresh, Protocol.PackData, Wrap;
      Fits();
      ghost var n1 := Packing(net, cwnd);
      ghost var e := Protocol.PackData(net.s, cwnd).1;
      seqNo, p := sender.PackData(cwnd);
      Took(Act.Pack(cwnd), n1);
      x := if e.Emitted? then e.x else 0;
    }

    /** Nothing has come back for long: what has not been acknowledged is to be sent again. */
    method CheckTimers()
      requires Valid()
      modifies this`net, this`past, sender`state, sender.lossList, sender.lossList.data1, sender.lossList.data2, sender.lossList.next
      ensures Valid() && Does(old(past), old(net), Timeout) && net.wire == old(net.wire)
    {
      hide Sender.Valid, Receiver.Valid, Inv, MaxWindow, Makes, Reached, Fresh, Protocol.OnTimeout;
      Fits();
      ghost var n1 := TimingOut(net);
      var _ := sender.ResendAll();
      Took(Timeout, n1);
    }

    /** A full ACK comes in. */
    method AckArrives(ack: int, w: int, ghost a: nat)
      requires Valid() && ack == Wrap(a) && Control(Protocol.FullAck(a, w)) in net.wire && Fresh(net, Control(Protocol.FullAck(a, w)))
      modifies this`net, this`past, sender`state, sender`flowWindowSize, sender`sndLastAck, sender`broken, sender`sndLastDataAck
      modifies sender.lossList, sender.lossList.data1, sender.lossList.data2, sender.lossList.next
      modifies sender.sndBuffer`firstBlock, sender.sndBuffer`count, sender.sndBuffer`ring, sender.sndBuffer`queue, sender.sndBuffer`sent
      ensures Valid() && Does(old(past), old(net), Deliver(Control(Protocol.FullAck(a, w))))
      ensures net.wire == old(net.wire) + {Control(Protocol.AckOfAck(a))} && net.s.sent == old(net.s.sent)
      ensures forall b :: b in sender.sndBuffer.ring <==> b in old(sender.sndBuffer.ring)
      ensures forall k :: 0 <= k < |sender.sndBuffer.ring| ==> sender.sndBuffer.ring[k] in old(sender.sndBuffer.ring)
    {
      hide Sender.Valid, Receiver.Valid, Inv, MaxWindow, Makes, Reached, Fresh, Wrap, Protocol.OnAck;
      Fits();
      ghost var n1 := ArrivingAck(net, a, w);
      sender.ProcessAck(ack, w, a);
      Took(Deliver(Control(Protocol.FullAck(a, w))), n1);
    }

    /** A light ACK comes in. */
    method LightAckArrives(ack: int, ghost a: nat)
      requires Valid() && ack == Wrap(a) && Control(Protocol.LightAck(a)) in net.wire && Fresh(net, Control(Protocol.LightAck(a)))
      modifies this`net, this`past, sender`state, sender`flowWindowSize, sender`sndLastAck
      ensures Valid() && Does(old(past), old(net), Deliver(Control(Protocol.LightAck(a)))) && net.wire == old(net.wire)
    {
      hide Sender.Valid, Receiver.Valid, Inv, MaxWindow, Makes, Reached, Fresh, Wrap, Protocol.OnLightAck;
      ghost var n1 := ArrivingLight(net, a);
      sender.ProcessLightAck(ack, a);
      Took(Deliver(Control(Protocol.LightAck(a))), n1);
    }

    /** A NAK comes in. */
    method NakArrives(words: seq<int>, ghost lo: nat, ghost hi: nat)
      requires Valid() && words == EncodeNode(Node(lo, hi))
      requires Control(Protocol.LossReport(lo, hi)) in net.wire && Fresh(net, Control(Protocol.LossReport(lo, hi)))
      modifies this`net, this`past, sender`state, sender`broken, sender.lossList, sender.lossList.data1, sender.lossList.data2, sender.lossList.next
      ensures Valid() && Does(old(past), old(net), Deliver(Control(Protocol.LossReport(lo, hi)))) && net.wire == old(net.wire)
    {
      hide Sender.Valid, Receiver.Valid, Inv, MaxWindow, Makes, Reached, Fresh, Wrap, EncodeNode, Protocol.OnNak;
      Fits();
      ghost var n1 := ArrivingNak(net, lo, hi);
      EncodeSingle(Node(lo, hi));
      sender.ProcessNak(words, [Node(lo, hi)]);
      Took(Deliver(Control(Protocol.LossReport(lo, hi))), n1);
    }

    /** A data packet comes in, in a unit of the pool.  A NAK may go out. */
    method DataArrives(unit: Unit, seqNo: int, ghost x: nat) returns (nak: seq<int>, ghost report: Protocol.Report)
      requires Valid() && seqNo == Wrap(x) && Data(x, unit.packet) in net.wire && Fresh(net, Data(x, unit.packet))
      requires unit in receiver.rcvBuffer.queue.place && unit !in receiver.rcvBuffer.queue.busy
      modifies this`net, this`past, receiver`state, receiver`rcvCurrSeqNo
      modifies receiver.rcvBuffer`content, receiver.rcvBuffer`ring, receiver.rcvBuffer`maxPos
      modifies receiver.rcvBuffer.pUnit, unit`flag, receiver.rcvBuffer.queue`count, receiver.rcvBuffer.queue`busy
      modifies receiver.lossList, receiver.lossList.data1, receiver.lossList.data2, receiver.lossList.next, receiver.lossList.prior
      ensures Valid() && Does(old(past), old(net), Deliver(Data(x, unit.packet)))
      ensures net.wire == old(net.wire) + if nak != [] then {Control(report)} else {}
      ensures nak != [] ==> report.LossReport? && nak == EncodeNode(Node(report.lo, report.hi)) && Age(net, Control(report)) <= MaxWindow(net)
      ensures receiver.rcvBuffer.Units() <= old(receiver.rcvBuffer.Units()) + {unit}
      ensures receiver.rcvBuffer.queue.busy <= old(receiver.rcvBuffer.queue.busy) + {unit}
    {
      hide Sender.Valid, Receiver.Valid, Inv, MaxWindow, Makes, Reached, Fresh, Wrap, EncodeNode, Protocol.OnData, Stand;
      ghost var n1 := ArrivingData(net, x, unit.packet);
      nak, report := DataIn(unit, seqNo, x);
      Took(Deliver(Data(x, unit.packet)), n1);
    }

    /** What the receiver makes of it. */
    method DataIn(unit: Unit, seqNo: int, ghost x: nat) returns (nak: seq<int>, ghost report: Protocol.Report)
      requires sender.Valid() && receiver.Valid() && Apart() && Protocol.ReceiverOk(receiver.state)
      requires seqNo == Wrap(x) && Near(x, receiver.state.lastAck)
      requires unit in receiver.rcvBuffer.queue.place && unit !in receiver.rcvBuffer.queue.busy
      modifies receiver`state, receiver`rcvCurrSeqNo, receiver.rcvBuffer`content, receiver.rcvBuffer`ring, receiver.rcvBuffer`maxPos
      modifies receiver.rcvBuffer.pUnit, unit`flag, receiver.rcvBuffer.queue`count, receiver.rcvBuffer.queue`busy
      modifies receiver.lossList, receiver.lossList.data1, receiver.lossList.data2, receiver.lossList.next, receiver.lossList.prior
      ensures sender.Valid() && receiver.Valid() && Protocol.OnData(old(receiver.state), x, unit.packet) == (receiver.state, report)
      ensures nak == if report.LossReport? then EncodeNode(Node(report.lo, report.hi)) else []
      ensures receiver.rcvBuffer.Units() <= old(receiver.rcvBuffer.Units()) + {unit}
      ensures receiver.rcvBuffer.queue.busy <= old(receiver.rcvBuffer.queue.busy) + {unit}
    {
      hide Sender.Valid, Receiver.Valid, Wrap, EncodeNode, Protocol.OnData, Effects.Wanted;
      report := Protocol.OnData(receiver.state, x, unit.packet).1;
      var res;
      res, nak := receiver.ProcessData(unit, seqNo, x);
    }

    /** A datagram comes in at the receiving queue, which reads it into a unit of the pool, if there is one, and otherwise
        throws it away. */
    method Datagram(seqNo: int, p: Packet, ghost x: nat) returns (taken: bool, nak: seq<int>, ghost report: Protocol.Report)
      requires Valid() && seqNo == Wrap(x) && Data(x, p) in net.wire && Fresh(net, Data(x, p))
      modifies this`net, this`past, receiver`state, receiver`rcvCurrSeqNo
      modifies receiver.rcvBuffer`content, receiver.rcvBuffer`ring, receiver.rcvBuffer`maxPos, receiver.rcvBuffer.pUnit
      modifies receiver.rcvBuffer.queue, receiver.rcvBuffer.queue.place.Keys - receiver.rcvBuffer.queue.busy
      modifies receiver.lossList, receiver.lossList.data1, receiver.lossList.data2, receiver.lossList.next, receiver.lossList.prior
      ensures Valid()
      ensures forall u :: u in receiver.rcvBuffer.queue.place ==> u in old(receiver.rcvBuffer.queue.place) || fresh(u)
      ensures taken <==> !old(receiver.rcvBuffer.queue.WillFail())
      ensures if taken then Does(old(past), old(net), Deliver(Data(x, p))) else net == old(net) && past == old(past) && nak == []
      ensures net.wire == old(net.wire) + if nak != [] then {Control(report)} else {}
      ensures nak != [] ==> report.LossReport? && nak == EncodeNode(Node(report.lo, report.hi)) && Age(net, Control(report)) <= MaxWindow(net)
    {
      hide Valid, Inv, MaxWindow, Makes, Fresh, Wrap, EncodeNode, UnitQueue.WillFail;
      var unit := UnitFor(p);
      taken := unit != null;
      nak := [];
      report := Protocol.NoReport;
      if taken {
        nak, report := DataArrives(unit, seqNo, x);
      }
    }

    method UnitFor(p: Packet) returns (unit: Unit?)
      requires Valid()
      modifies receiver.rcvBuffer.queue, receiver.rcvBuffer.queue.place.Keys - receiver.rcvBuffer.queue.busy
      ensures Valid() && receiver.rcvBuffer.queue.busy == old(receiver.rcvBuffer.queue.busy)
      ensures old(receiver.rcvBuffer.queue.place.Keys) <= receiver.rcvBuffer.queue.place.Keys
      ensures forall u :: u in receiver.rcvBuffer.queue.place ==> u in old(receiver.rcvBuffer.queue.place) || fresh(u)
      ensures unit == null <==> old(receiver.rcvBuffer.queue.WillFail())
      ensures unit != null ==> unit in receiver.rcvBuffer.queue.place && unit !in receiver.rcvBuffer.queue.busy && unit.packet == p
    {
      hide Sender.Valid, Receiver.Valid, Inv, MaxWindow, Reached, Stand, UnitQueue.WillFail;
      unit := receiver.NextUnit(p);
    }

    /** The receiver may acknowledge. */
    method Acknowledge(light: bool, recent: bool, now: int) returns (p: AckPacket, ghost report: Protocol.Report)
      requires Valid()
      modifies this`net, this`past, this`acked, receiver`state, receiver`rcvLastAck, receiver`ackSeqNo, receiver`acks
      modifies receiver.rcvBuffer`ring, receiver.rcvBuffer`lastAckPos, receiver.rcvBuffer`maxPos
      modifies receiver.ackWindow, receiver.ackWindow.seqNos, receiver.ackWindow.acks, receiver.ackWindow.times
      ensures Valid() && Does(old(past), old(net), Act.SendAck(light, recent))
      ensures net.wire == old(net.wire) + if p != Nothing then {Control(report)} else {}
      ensures p != Nothing ==> Age(net, Control(report)) <= MaxWindow(net)
      ensures p.Light? ==> report.LightAck? && p.ack == Wrap(report.b)
      ensures if p.FullAck? then
                && report.FullAck? && report.w == p.window && p.ack == Wrap(report.a)
                && acked == old(acked) + [report.a] && receiver.acks == old(receiver.acks) + [Record(p.ackSeqNo, p.ack, now)]
              else acked == old(acked) && receiver.acks == old(receiver.acks)
    {
      hide Sender.Valid, Receiver.Valid, Inv, MaxWindow, Makes, Reached, Wrap, Protocol.Acknowledge, Stand, Apart;
      ghost var before := receiver.acks;
      ghost var n1 := Acknowledging(net, light, recent);
      p, report := AckOut(light, recent, now);
      if p.FullAck? {
        StandMore(before, acked, Record(p.ackSeqNo, p.ack, now), report.a);
      }
      Settle(Act.SendAck(light, recent), n1, if p.FullAck? then acked + [report.a] else acked);
    }

    ghost method Settle(act: Act, n1: Net, acked1: seq<nat>)
      requires sender.Valid() && receiver.Valid() && Apart() && Reached() && Sized() && Makes(net, act, n1) && SameShape(net, n1)
      requires n1.s == sender.state && n1.r == receiver.state && Stand(receiver.acks, acked1)
      modifies this`net, this`past, this`acked
      ensures Valid() && Does(old(past), old(net), act) && net == n1 && acked == acked1
    {
      hide Sender.Valid, Receiver.Valid, Inv, MaxWindow, Makes, Reached, Stand, Apart;
      Took(act, n1);
      acked := acked1;
    }

    /** What the receiver sends, and what it stands for. */
    method AckOut(light: bool, recent: bool, now: int) returns (p: AckPacket, ghost report: Protocol.Report)
      requires sender.Valid() && receiver.Valid() && Apart() && Protocol.ReceiverOk(receiver.state)
      modifies receiver`state, receiver`rcvLastAck, receiver`ackSeqNo, receiver`acks
      modifies receiver.rcvBuffer`ring, receiver.rcvBuffer`lastAckPos, receiver.rcvBuffer`maxPos
      modifies receiver.ackWindow, receiver.ackWindow.seqNos, receiver.ackWindow.acks, receiver.ackWindow.times
      ensures sender.Valid() && receiver.Valid() && Protocol.Acknowledge(old(receiver.state), light, recent) == (receiver.state, report)
      ensures p == Nothing <==> report == Protocol.NoReport
      ensures p.Light? ==> report.LightAck? && p.ack == Wrap(report.b)
      ensures if p.FullAck? then
                && report.FullAck? && report.w == p.window && p.ack == Wrap(report.a)
                && receiver.acks == old(receiver.acks) + [Record(p.ackSeqNo, p.ack, now)]
              else receiver.acks == old(receiver.acks)
    {
      hide Sender.Valid, Receiver.Valid, Wrap, Protocol.Acknowledge, Protocol.ReceiverOk, Added, IncAck;
      report := Protocol.Acknowledge(receiver.state, light, recent).1;
      p := receiver.SendAck(light, recent, now);
    }

    /** The acknowledgement of full ACK i comes in.  It counts if the ACK is still kept and time has passed since. */
    method Ack2Arrives(seqNo: int, now: int, ghost i: nat)
      requires Valid() && i < |acked| == |receiver.acks| && seqNo == receiver.acks[i].seqNo && |acked| - i < THRESHOLD
      requires Control(Protocol.AckOfAck(acked[i])) in net.wire && Fresh(net, Control(Protocol.AckOfAck(acked[i])))
      modifies this`net, this`past, receiver`state, receiver`rcvLastAckAck, receiver.ackWindow, receiver.ackWindow.seqNos
      ensures Valid() && net.wire == old(net.wire)
      ensures if old(|acked| - i <= |receiver.ackWindow.records| && now > receiver.acks[i].time)
              then Does(old(past), old(net), Deliver(Control(Protocol.AckOfAck(old(acked[i])))))
              else net == old(net) && past == old(past)
    {
      hide Sender.Valid, Receiver.Valid, Inv, MaxWindow, Makes, Reached, Fresh, Wrap, Protocol.OnAck2;
      ghost var kept := receiver.ackWindow.records;
      receiver.WhichKept(i);
      ghost var n1 := ArrivingAck2(net, acked[i]);
      receiver.ProcessAck2(seqNo, now);
      if |acked| - i <= |kept| && now > receiver.acks[i].time {
        Took(Deliver(Control(Protocol.AckOfAck(acked[i]))), n1);
      }
    }

    /** The application reads: it is given the next message, as far as it fits, or nothing. */
    method Read(len: nat) returns (data: seq<byte>)
      requires Valid()
      modifies this`net, this`past, receiver`state, receiver.rcvBuffer`content, receiver.rcvBuffer`ring, receiver.rcvBuffer`startPos
      modifies receiver.rcvBuffer.pUnit, receiver.rcvBuffer.Units(), receiver.rcvBuffer.queue`count, receiver.rcvBuffer.queue`busy
      ensures Valid() && Does(old(past), old(net), Recv(len)) && net.wire == old(net.wire)
      ensures data != [] ==> |old(net.r.delivered)| < |net.msgs| && data == Take(net.msgs[|old(net.r.delivered)|], len)
      ensures net.r.delivered == if data == [] then old(net.r.delivered) else old(net.r.delivered) + [(data, len)]
      ensures receiver.rcvBuffer.Units() <= old(receiver.rcvBuffer.Units())
      ensures receiver.rcvBuffer.queue.busy - receiver.rcvBuffer.Units() == old(receiver.rcvBuffer.queue.busy - receiver.rcvBuffer.Units())
    {
      hide Sender.Valid, Receiver.Valid, Inv, MaxWindow, Makes, Reached, Fresh, Take, ReadMsg, Protocol.Receive;
      ghost var n1 := Reading(net, len);
      data := receiver.RecvMsg(len);
      Took(Recv(len), n1);
    }
  }
}
