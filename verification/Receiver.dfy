/** The receiving side of a connection (core.cpp, class CUDT), on wrapped sequence numbers, with its buffer, its loss
    list and its history of acknowledgements.  Every method is proved to make the step of Protocol that bears its name. */
module Receivers {
  import opened SeqNo
  import opened LossChain
  import opened NakCoding
  import opened Packets
  import opened RcvRing
  import Delivery
  import Protocol
  import Effects
  import opened AckWindows
  import opened UnitQueues
  import opened RcvBuffers
  import opened RcvLossLists
  import opened Senders

  /** What sendCtrl(2) sends: nothing, a light ACK, or a full one with its own number and the window. */
  datatype AckPacket = Nothing | Light(ack: int) | FullAck(ackSeqNo: int, ack: int, window: int)

  const MAX_ACK_SEQ_NO: int := 0x7FFF_FFFF

  function IncAck(ackNo: int): int {
    if ackNo == MAX_ACK_SEQ_NO then 0 else ackNo + 1
  }

  /** Full ACK number i, from 0, carries the number i + 1, taken round. */
  ghost predicate Numbered(acks: seq<Record>) {
    forall i :: 0 <= i < |acks| ==> acks[i].seqNo == Wrap(i + 1)
  }

  ghost predicate Latest(acks: seq<Record>, kept: seq<Record>) {
    |kept| <= |acks| && kept == acks[|acks| - |kept|..]
  }

  /** No two of the ACKs that are kept have the same number. */
  lemma KeptDiffer(acks: seq<Record>, kept: seq<Record>, i: int, j: int)
    requires Numbered(acks) && Latest(acks, kept) && |kept| <= 1024
    requires 0 <= i < |kept| && 0 <= j < |kept| && kept[i].seqNo == kept[j].seqNo
    ensures i == j
  {
    var from := |acks| - |kept|;
    assert kept[i] == acks[from + i] && kept[j] == acks[from + j];
    hide Wrap, SeqCmp;
    CmpOfWrap(from + i + 1, from + j + 1);
    CmpOfWrap(from + i + 1, from + i + 1);
  }

  lemma AddedLatest(acks: seq<Record>, kept: seq<Record>, r: Record, size: nat)
    requires Numbered(acks) && Latest(acks, kept) && |kept| < size && r.seqNo == IncAck(Wrap(|acks|))
    ensures Numbered(acks + [r]) && Latest(acks + [r], Added(kept, r, size)) && r.seqNo == Wrap(|acks| + 1)
  {
    StepOfWrap(|acks|, 1);
    hide Wrap;
    var all := acks + [r];
    assert all[|all| - (|kept| + 1)..] == kept + [r];
    assert all[|all| - |kept|..] == (kept + [r])[1..];
  }

  /** A receiver that has got nothing. */
  lemma StartsOk(isn: nat, bufSize: nat, flightSize: nat)
    requires 0 < bufSize <= flightSize && flightSize + 1 < THRESHOLD
    ensures Protocol.ReceiverOk(Protocol.Receiver(isn, EmptyRing(bufSize), isn, isn, isn, {}, isn, []))
    ensures |EmptyRing(bufSize).slots| == bufSize <= Capacity(flightSize) && Numbered([]) && Latest([], [])
  {
  }

  class Receiver {
    const rcvBuffer: RcvBuffer
    const lossList: RcvLossList
    const ackWindow: AckWindow
    var rcvLastAck: int
    var rcvCurrSeqNo: int
    var rcvLastAckAck: int
    var ackSeqNo: int

    ghost var state: Protocol.Receiver
    ghost var acks: seq<Record>      // every full ACK that has been sent

    ghost predicate Fields()
      reads this
    {
      rcvLastAck == Wrap(state.lastAck) && rcvCurrSeqNo == CurrNo(state.next - 1) && rcvLastAckAck == state.ackAck
    }

    ghost predicate Buffer()
      reads this`state, rcvBuffer, rcvBuffer.pUnit, rcvBuffer.pUnit[..], rcvBuffer.queue, rcvBuffer.queue.place.Keys
    {
      rcvBuffer.Valid() && rcvBuffer.ring == state.ring
    }

    ghost predicate Losses()
      reads this`state, lossList, lossList.data1, lossList.data2, lossList.next, lossList.prior
    {
      lossList.Valid() && lossList.Contents() == state.loss
    }

    /** Full ACKs are numbered one by one, and what is kept of them are the latest ones. */
    ghost predicate History()
      reads this`acks, this`ackSeqNo, ackWindow, ackWindow.seqNos, ackWindow.acks, ackWindow.times
    {
      && ackWindow.Valid() && ackWindow.size == 1024
      && ackSeqNo == Wrap(|acks|) && Numbered(acks) && Latest(acks, ackWindow.records)
    }

    ghost predicate Spans()
      reads this`state
    {
      |state.ring.slots| <= Capacity(lossList.size) && |state.ring.slots| + 1 < THRESHOLD
    }

    /** Buffer, loss list and history share nothing; the source allocates each for itself. */
    ghost predicate Apart() {
      && lossList.data1 != ackWindow.seqNos && lossList.data1 != ackWindow.acks && lossList.data1 != ackWindow.times
      && lossList.data2 != ackWindow.seqNos && lossList.data2 != ackWindow.acks && lossList.data2 != ackWindow.times
      && lossList.next != ackWindow.seqNos && lossList.next != ackWindow.acks && lossList.next != ackWindow.times
      && lossList.prior != ackWindow.seqNos && lossList.prior != ackWindow.acks && lossList.prior != ackWindow.times
    }

    ghost predicate Valid()
      reads this, rcvBuffer, rcvBuffer.pUnit, rcvBuffer.pUnit[..], rcvBuffer.queue, rcvBuffer.queue.place.Keys
      reads lossList, lossList.data1, lossList.data2, lossList.next, lossList.prior
      reads ackWindow, ackWindow.seqNos, ackWindow.acks, ackWindow.times
    {
      Fields() && Buffer() && Losses() && History() && Apart() && Spans() && Protocol.ReceiverOk(state)
    }

    constructor (queue: UnitQueue, isn: nat, bufSize: nat, flightSize: nat)
      requires queue.Valid() && IsSeqNo(isn) && 0 < bufSize <= flightSize && flightSize + 1 < THRESHOLD
      ensures Valid() && rcvBuffer.queue == queue && rcvBuffer.Units() == {}
      ensures fresh(rcvBuffer) && fresh(rcvBuffer.pUnit) && fresh(lossList) && fresh(ackWindow)
      ensures state == Protocol.Receiver(isn, EmptyRing(bufSize), isn, isn, isn, {}, isn, []) && acks == []
      ensures fresh(lossList.data1) && fresh(lossList.data2) && fresh(lossList.next) && fresh(lossList.prior)
      ensures fresh(ackWindow.seqNos) && fresh(ackWindow.acks) && fresh(ackWindow.times)
    {
      hide Wrap, RcvBuffer.Valid, RcvLossList.Valid, AckWindow.Valid, UnitQueue.Valid, RcvBuffer.Units, RcvLossList.Contents;
      hide EmptyRing, Protocol.ReceiverOk, Capacity, Numbered, Latest;
      StartsOk(isn, bufSize, flightSize);
      WrapSmall(isn);
      WrapSmall(isn - 1);
      WrapSmall(0);
      rcvBuffer := new RcvBuffer(queue, bufSize);
      lossList := new RcvLossList(flightSize);
      ackWindow := new AckWindow(1024);
      rcvLastAck, rcvCurrSeqNo, rcvLastAckAck, ackSeqNo := isn, isn - 1, isn, 0;
      state := Protocol.Receiver(isn, EmptyRing(bufSize), isn, isn, isn, {}, isn, []);
      acks := [];
    }

    /** processCtrl, an acknowledgement of an ACK: the full ACK of that number, if it is still kept, is looked up and
        forgotten with all that went before it; it counts unless no time has passed since it was sent. */
    method ProcessAck2(seqNo: int, now: int)
      requires Valid()
      modifies this`state, this`rcvLastAckAck, ackWindow, ackWindow.seqNos
      ensures Valid()
      ensures (forall k :: 0 <= k < |old(ackWindow.records)| ==> old(ackWindow.records)[k].seqNo != seqNo) ==>
                state == old(state) && ackWindow.records == old(ackWindow.records)
      ensures forall k :: 0 <= k < |old(ackWindow.records)| && old(ackWindow.records)[k].seqNo == seqNo ==>
                var r := old(ackWindow.records)[k];
                && ackWindow.records == old(ackWindow.records)[k + 1..]
                && state == if now > r.time then Protocol.OnAck2(old(state), r.ack) else old(state)
    {
      hide Wrap, CurrNo, SeqCmp, RcvBuffer.Valid, RcvLossList.Valid, AckWindow.Valid, Capacity, Numbered;
      var rtt, ack;
      ghost var k;
      ghost var kept := ackWindow.records;
      FewKept();
      rtt, ack, k := ackWindow.Acknowledge(seqNo, now);
      forall i | 0 <= i < |kept| && kept[i].seqNo == seqNo
        ensures i == k
      {
        KeptDiffer(acks, kept, i, k);
      }
      assert Latest(acks, ackWindow.records);
      if rtt <= 0 {
        return;
      }
      if SeqCmp(ack, rcvLastAckAck) > 0 {
        rcvLastAckAck := ack;
        state := state.(ackAck := ack);
      }
    }

    /** Full ACK i is kept exactly if it is one of the latest, and then no other one that is kept has its number. */
    lemma WhichKept(i: nat)
      requires Valid() && i < |acks| && |acks| - i < THRESHOLD
      ensures var (kept, k) := (ackWindow.records, i - (|acks| - |ackWindow.records|));
              && (k >= 0 ==> k < |kept| && kept[k] == acks[i])
              && forall j :: 0 <= j < |kept| && kept[j].seqNo == acks[i].seqNo ==> j == k
    {
      hide Wrap, CurrNo, SeqCmp, RcvBuffer.Valid, RcvLossList.Valid, AckWindow.Valid;
      FewKept();
      var kept := ackWindow.records;
      forall j | 0 <= j < |kept| && kept[j].seqNo == acks[i].seqNo
        ensures j == i - (|acks| - |kept|)
      {
        var from := |acks| - |kept|;
        assert kept[j] == acks[from + j];
        CmpOfWrap(from + j + 1, i + 1);
        CmpOfWrap(i + 1, i + 1);
      }
    }

    lemma Parts()
      requires Valid()
      ensures rcvLastAck == Wrap(state.lastAck) && rcvBuffer.Valid() && rcvBuffer.ring == state.ring && Protocol.ReceiverOk(state)
    {
      hide Wrap, RcvBuffer.Valid;
    }

    lemma FewKept()
      requires Valid()
      ensures |ackWindow.records| < 1024 && Latest(acks, ackWindow.records)
    {
    }

    /** The number to be acknowledged: the first one that is missing. */
    method AckNumber() returns (ack: int)
      requires Valid()
      ensures ack == Wrap(Protocol.AckPoint(state))
    {
      hide Wrap, CurrNo, RcvBuffer.Valid, RcvLossList.Valid, AckWindow.Valid, RcvLossList.Contents;
      IncCurr(state.next - 1);
      lossList.CountIsSize();
      if lossList.length == 0 {
        ack := IncSeq(rcvCurrSeqNo);
      } else {
        ack := lossList.GetFirstLostSeq();
        ghost var x :| x in state.loss && ack == Wrap(x) && forall c :: c in state.loss ==> x <= c;
        Protocol.LeastIs(state.loss, x);
      }
    }

    /** The buffer's acknowledged part grows up to `ack`. */
    method AdvanceTo(ack: int, ghost a: nat)
      requires Valid() && ack == Wrap(a) && state.lastAck < a <= state.next && forall c :: c in state.loss ==> a <= c
      modifies this`state, this`rcvLastAck, rcvBuffer`ring, rcvBuffer`lastAckPos, rcvBuffer`maxPos
      ensures Valid() && state == old(state).(lastAck := a, ring := AckData(old(state).ring, a - old(state).lastAck))
    {
      hide Wrap, CurrNo, SeqOff, RcvBuffer.Valid, RcvLossList.Valid, AckWindow.Valid;
      OffOfWrap(state.lastAck, a);
      var acksize := SeqOff(rcvLastAck, ack);
      rcvLastAck := ack;
      rcvBuffer.AckData(acksize);
      state := state.(lastAck := a, ring := AckData(state.ring, a - state.lastAck));
    }

    /** The next full ACK gets the next number, and is recorded. */
    method Remember(ack: int, now: int)
      requires History()
      modifies this`ackSeqNo, this`acks, ackWindow, ackWindow.seqNos, ackWindow.acks, ackWindow.times
      ensures History() && ackSeqNo == IncAck(old(ackSeqNo)) && acks == old(acks) + [Record(ackSeqNo, ack, now)]
      ensures ackWindow.records == Added(old(ackWindow.records), Record(ackSeqNo, ack, now), 1024)
    {
      hide Wrap, AckWindow.Valid, Numbered, Latest, IncAck, Added;
      Few();
      AddedLatest(acks, ackWindow.records, Record(IncAck(ackSeqNo), ack, now), 1024);
      ackSeqNo := IncAck(ackSeqNo);
      ackWindow.Store(ackSeqNo, ack, now);
      acks := acks + [Record(ackSeqNo, ack, now)];
    }

    lemma Few()
      requires History()
      ensures |ackWindow.records| < 1024
    {
    }

    /** A full ACK, and what it carries. */
    method Report(now: int) returns (p: AckPacket)
      requires Valid()
      modifies this`ackSeqNo, this`acks, ackWindow, ackWindow.seqNos, ackWindow.acks, ackWindow.times
      ensures Valid() && state == old(state)
      ensures p == FullAck(IncAck(old(ackSeqNo)), Wrap(state.lastAck), MaxOf(2, Avail(state.ring)))
      ensures ackSeqNo == p.ackSeqNo && acks == old(acks) + [Record(p.ackSeqNo, p.ack, now)]
      ensures |old(ackWindow.records)| < 1024 && ackWindow.records == Added(old(ackWindow.records), Record(p.ackSeqNo, p.ack, now), 1024)
    {
      hide Wrap, CurrNo, RcvBuffer.Valid, RcvLossList.Valid, IncAck, Added, Protocol.ReceiverOk, Spans, Buffer, Losses, History, RcvLossList.Contents;
      FewKept();
      Parts();
      var window := rcvBuffer.GetAvailBufSize();
      if window < 2 {
        window := 2;
      }
      Remember(rcvLastAck, now);
      p := FullAck(ackSeqNo, rcvLastAck, window);
    }

    lemma Acknowledges(light: bool, recent: bool)
      requires Valid()
      ensures Protocol.ReceiverOk(state) && Effects.FirstMissing(state, Protocol.AckPoint(state))
      ensures var ((r, report), a) := (Protocol.Acknowledge(state, light, recent), Protocol.AckPoint(state));
              && (report.LightAck? <==> light && Wrap(a) != state.ackAck)
              && (report.FullAck? <==> !light && Wrap(a) != state.ackAck && !(a == state.lastAck && recent) && SeqCmp(Wrap(a), state.ackAck) > 0)
              && (report.FullAck? ==> report.w == MaxOf(2, |state.ring.slots| - 1 - (a - state.start)))
              && (report.LightAck? ==> report.b == a) && (report.FullAck? ==> report.a == a)
              && r.lastAck == (if light || Wrap(a) == state.ackAck then state.lastAck else a)
              && r.ring.slots == state.ring.slots && r.ring.acked == r.lastAck - r.start && r.start == state.start
    {
      hide Wrap, SeqCmp, CurrNo, RcvBuffer.Valid, RcvLossList.Valid, AckWindow.Valid, Protocol.Acknowledge, Protocol.AckPoint, Effects.FirstMissing;
      Effects.SomeMissing(state);
      Effects.AckSays(state, light, recent, Protocol.AckPoint(state));
    }

    /** sendCtrl(2).  recent: the last ACK was sent less than a round trip ago.  A full ACK gets the next number and is
        recorded; 1023 records are kept. */
    method SendAck(light: bool, recent: bool, now: int) returns (p: AckPacket)
      requires Valid()
      modifies this`state, this`rcvLastAck, this`ackSeqNo, this`acks, rcvBuffer`ring, rcvBuffer`lastAckPos, rcvBuffer`maxPos
      modifies ackWindow, ackWindow.seqNos, ackWindow.acks, ackWindow.times
      ensures Valid()
      ensures |old(ackWindow.records)| < 1024
      ensures if p.FullAck? then
                && ackSeqNo == p.ackSeqNo && acks == old(acks) + [Record(p.ackSeqNo, p.ack, now)]
                && ackWindow.records == Added(old(ackWindow.records), Record(p.ackSeqNo, p.ack, now), 1024)
              else ackSeqNo == old(ackSeqNo) && acks == old(acks) && ackWindow.records == old(ackWindow.records)
      ensures var (r, report) := Protocol.Acknowledge(old(state), light, recent);
              && state == r
              && match report
                 case NoReport => p == Nothing
                 case LightAck(a) => p == Light(Wrap(a))
                 case FullAck(a, w) => p == FullAck(IncAck(old(ackSeqNo)), Wrap(a), w)
                 case _ => false
      ensures var (s0, a) := (old(state), Protocol.AckPoint(old(state)));
              && Effects.FirstMissing(s0, a)
              && (p.Light? <==> light && Wrap(a) != s0.ackAck)
              && (p.FullAck? <==> !light && Wrap(a) != s0.ackAck && !(a == s0.lastAck && recent) && SeqCmp(Wrap(a), s0.ackAck) > 0)
              && (p != Nothing ==> p.ack == Wrap(a))
              && (p.FullAck? ==> p.window == MaxOf(2, |s0.ring.slots| - 1 - (a - s0.start)))
              && state.lastAck == (if light || Wrap(a) == s0.ackAck then s0.lastAck else a)
              && state.ring.slots == s0.ring.slots && state.ring.acked == state.lastAck - state.start && state.start == s0.start
    {
      hide Wrap, CurrNo, SeqCmp, RcvBuffer.Valid, RcvLossList.Valid, AckWindow.Valid, AckData, Capacity, MaxOf, Numbered, Latest, IncAck;
      FewKept();
      Acknowledges(light, recent);
      var ack := AckNumber();
      ghost var a := Protocol.AckPoint(state);
      if ack == rcvLastAckAck {
        return Nothing;
      }
      if light {
        return Light(ack);
      }
      CmpOfWrap(a, state.lastAck);
      if SeqCmp(ack, rcvLastAck) > 0 {
        AdvanceTo(ack, a);
      } else if ack == rcvLastAck {
        if recent {
          return Nothing;
        }
      } else {
        assert false;
      }
      if SeqCmp(rcvLastAck, rcvLastAckAck) > 0 {
        p := Report(now);
      } else {
        p := Nothing;
      }
    }

    /** Notes a gap in front of packet x, if there is one, and says what NAK to send for it. */
    method NoteGap(seqNo: int, ghost x: nat) returns (nak: seq<int>)
      requires Fields() && Losses() && Spans() && Protocol.ReceiverOk(state)
      requires seqNo == Wrap(x) && state.lastAck <= x < state.lastAck + |state.ring.slots|
      modifies this`state, lossList, lossList.data1, lossList.data2, lossList.next, lossList.prior
      ensures Fields() && Losses() && Spans()
      ensures state == if x > old(state).next then old(state).(loss := old(state).loss + Range(old(state).next, x - 1)) else old(state)
      ensures nak == if x > old(state).next then EncodeNode(Node(old(state).next, x - 1)) else []
    {
      hide Wrap, CurrNo, SeqCmp, RcvLossList.Valid, Range, Marked;
      IncCurr(state.next - 1);
      CmpOfWrap(x, state.next);
      nak := [];
      if SeqCmp(seqNo, IncSeq(rcvCurrSeqNo)) > 0 {
        StepOfWrap(x, 1);
        CmpOfWrap(state.next, x - 1);
        var first, last := IncSeq(rcvCurrSeqNo), DecSeq(seqNo);
        lossList.Insert(first, last, state.next, x - 1);
        nak := if first == last then [last] else [Marked(first), last];
        state := state.(loss := state.loss + Range(state.next, x - 1));
      }
    }

    /** Stores a packet in the buffer. */
    method Store(unit: Unit, offset: int) returns (ok: bool)
      requires Valid() && 0 <= offset < Avail(state.ring)
      requires unit in rcvBuffer.queue.place && unit !in rcvBuffer.queue.busy
      modifies this`state, rcvBuffer`content, rcvBuffer`ring, rcvBuffer`maxPos, rcvBuffer.pUnit, unit`flag
      modifies rcvBuffer.queue`count, rcvBuffer.queue`busy
      ensures Valid() && state == old(state).(ring := state.ring) && (state.ring, ok) == AddData(old(state).ring, unit.packet, offset)
      ensures rcvBuffer.Units() == old(rcvBuffer.Units()) + (if ok then {unit} else {})
      ensures rcvBuffer.queue.busy == old(rcvBuffer.queue.busy) + (if ok then {unit} else {})
    {
      hide Wrap, CurrNo, RcvBuffer.Valid, RcvLossList.Valid, AckWindow.Valid, Capacity;
      ok := rcvBuffer.AddData(unit, offset);
      state := state.(ring := AddData(state.ring, unit.packet, offset).0);
    }

    /** A packet that was missing has come: it leaves the loss list. */
    method FillGap(seqNo: int, ghost x: nat)
      requires Valid() && seqNo == Wrap(x) && state.lastAck <= x < state.next
      modifies this`state, lossList, lossList.data1, lossList.data2, lossList.next, lossList.prior
      ensures Valid() && state == old(state).(loss := old(state).loss - {x})
    {
      hide Wrap, CurrNo, RcvBuffer.Valid, RcvLossList.Valid, AckWindow.Valid, Capacity;
      var _ := lossList.Remove(seqNo, x);
      state := state.(loss := state.loss - {x});
    }

    /** What packet x, just stored, says about losses. */
    method File(seqNo: int, ghost x: nat) returns (nak: seq<int>)
      requires Valid() && seqNo == Wrap(x) && state.lastAck <= x && x + 1 < state.start + |state.ring.slots|
      modifies this`state, this`rcvCurrSeqNo, lossList, lossList.data1, lossList.data2, lossList.next, lossList.prior
      ensures Valid()
      ensures state == if x > old(state).next then old(state).(loss := old(state).loss + Range(old(state).next, x - 1), next := x + 1)
                       else if x == old(state).next then old(state).(next := x + 1)
                       else old(state).(loss := old(state).loss - {x})
      ensures nak == if x > old(state).next then EncodeNode(Node(old(state).next, x - 1)) else []
    {
      hide Wrap, CurrNo, SeqCmp, RcvBuffer.Valid, RcvLossList.Valid, AckWindow.Valid, Capacity, Range, EncodeNode;
      CmpCurr(x, state.next - 1);
      CurrIs(x);
      nak := NoteGap(seqNo, x);
      if SeqCmp(seqNo, rcvCurrSeqNo) > 0 {
        rcvCurrSeqNo := seqNo;
        state := state.(next := x + 1);
      } else {
        FillGap(seqNo, x);
      }
    }

    /** The receiving queue reads a datagram into a unit of the pool, if it finds one. */
    method NextUnit(p: Packet) returns (unit: Unit?)
      requires Valid()
      modifies rcvBuffer.queue`count, rcvBuffer.queue`entries, rcvBuffer.queue`size, rcvBuffer.queue`place, rcvBuffer.queue`curr
      modifies rcvBuffer.queue`avail, (rcvBuffer.queue.place.Keys - rcvBuffer.queue.busy)`packet
      ensures Valid() && rcvBuffer.queue.busy == old(rcvBuffer.queue.busy)
      ensures old(rcvBuffer.queue.place.Keys) <= rcvBuffer.queue.place.Keys
      ensures forall u :: u in rcvBuffer.queue.place && u !in old(rcvBuffer.queue.place) ==> fresh(u)
      ensures unit == null <==> old(rcvBuffer.queue.WillFail())
      ensures unit != null ==> unit in rcvBuffer.queue.place && unit !in rcvBuffer.queue.busy && unit.packet == p
    {
      hide Wrap, CurrNo, RcvBuffer.Valid, RcvLossList.Valid, AckWindow.Valid, Capacity, UnitQueue.WillFail, UnitQueue.Entries;
      unit := rcvBuffer.NextUnit(p);
    }

    lemma Arrives(x: nat, p: Packet)
      requires Valid()
      ensures Protocol.ReceiverOk(state)
      ensures Effects.Wanted(state, x) <==> x >= state.lastAck && x - state.lastAck < Avail(state.ring)
                                            && AddData(state.ring, p, x - state.lastAck).1
      ensures var (r, report) := Protocol.OnData(state, x, p);
              if Effects.Wanted(state, x) then
                && r.ring.slots == state.ring.slots[x - state.start := Full(1, p)] && r.next == MaxOf(state.next, x + 1)
                && (forall c :: c in r.loss <==> c != x && (c in state.loss || state.next <= c < x))
                && report == if state.next < x then Protocol.LossReport(state.next, x - 1) else Protocol.NoReport
              else r.ring.slots == state.ring.slots && r.next == state.next && r.loss == state.loss && report == Protocol.NoReport
    {
      hide Wrap, SeqCmp, CurrNo, RcvBuffer.Valid, RcvLossList.Valid, AckWindow.Valid, Protocol.OnData;
      Effects.DataMeans(state, x, p);
    }

    /** processData: a data packet has arrived. */
    method ProcessData(unit: Unit, seqNo: int, ghost x: nat) returns (res: int, nak: seq<int>)
      requires Valid() && seqNo == Wrap(x) && Near(x, state.lastAck)
      requires unit in rcvBuffer.queue.place && unit !in rcvBuffer.queue.busy
      modifies this`state, this`rcvCurrSeqNo, rcvBuffer`content, rcvBuffer`ring, rcvBuffer`maxPos, rcvBuffer.pUnit, unit`flag
      modifies rcvBuffer.queue`count, rcvBuffer.queue`busy
      modifies lossList, lossList.data1, lossList.data2, lossList.next, lossList.prior
      ensures Valid()
      ensures var (r, report) := Protocol.OnData(old(state), x, unit.packet);
              state == r && nak == if report.LossReport? then EncodeNode(Node(report.lo, report.hi)) else []
      ensures Protocol.ReceiverOk(old(state)) && (res == 0 <==> Effects.Wanted(old(state), x))
      ensures if res == 0 then
                && state.ring.slots == old(state).ring.slots[x - old(state).start := Full(1, unit.packet)]
                && state.next == MaxOf(old(state).next, x + 1)
                && (forall c :: c in state.loss <==> c != x && (c in old(state).loss || old(state).next <= c < x))
                && nak == if old(state).next < x then EncodeNode(Node(old(state).next, x - 1)) else []
              else state.ring.slots == old(state).ring.slots && state.next == old(state).next && state.loss == old(state).loss && nak == []
      ensures res == 0 || res == -1
      ensures res == 0 <==> x >= old(state).lastAck && x - old(state).lastAck < Avail(old(state).ring)
                            && AddData(old(state).ring, unit.packet, x - old(state).lastAck).1
      ensures rcvBuffer.Units() == old(rcvBuffer.Units()) + (if res == 0 then {unit} else {})
      ensures rcvBuffer.queue.busy == old(rcvBuffer.queue.busy) + (if res == 0 then {unit} else {})
    {
      hide Valid, Wrap, SeqOff, RcvBuffer.Valid, AddData, Range, EncodeNode, Ok, RcvBuffer.Units, Effects.Wanted;
      Parts();
      Arrives(x, unit.packet);
      OffOfWrap(state.lastAck, x);
      var offset := SeqOff(rcvLastAck, seqNo);
      var avail := rcvBuffer.GetAvailBufSize();
      if offset < 0 || offset >= avail {
        return -1, [];
      }
      var ok := Store(unit, offset);
      if !ok {
        return -1, [];
      }
      nak := File(seqNo, x);
      res := 0;
    }

    /** recvmsg: the next message, as far as it fits into len bytes; nothing if there is none. */
    method RecvMsg(len: nat) returns (data: seq<byte>)
      requires Valid()
      modifies this`state, rcvBuffer`content, rcvBuffer`ring, rcvBuffer`startPos, rcvBuffer.pUnit, rcvBuffer.Units()
      modifies rcvBuffer.queue`count, rcvBuffer.queue`busy
      ensures Valid() && state == Protocol.Receive(old(state), len)
      ensures data == if len == 0 then [] else ReadMsg(old(state).ring, len).1
      ensures rcvBuffer.Units() <= old(rcvBuffer.Units())
      ensures rcvBuffer.queue.busy - rcvBuffer.Units() == old(rcvBuffer.queue.busy - rcvBuffer.Units())
    {
      hide Wrap, CurrNo, RcvBuffer.Valid, RcvLossList.Valid, RcvLossList.Contents, AckWindow.Valid, ReadMsg, Apart, History, RcvBuffer.Units;
      if len <= 0 {
        return [];
      }
      Delivery.ReadAcked(state.ring, len);
      data := rcvBuffer.ReadMsg(len);
      state := Protocol.Receive(state, len);
    }
  }
}
