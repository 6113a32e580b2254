/** The sending side of a connection (core.cpp, class CUDT), on wrapped sequence numbers, with its buffer and its loss
    list.  Every method is proved to make the step of Protocol that bears its name. */
module Senders {
  import opened SeqNo
  import opened LossChain
  import opened NakCoding
  import opened Packets
  import Protocol
  import Effects
  import opened SndBuffers
  import opened SndLossLists

  /** The number of the latest packet, which is one behind the initial one before anything has been sent; the source
      computes that one without wrapping it, so it may be -1. */
  function CurrNo(x: int): int {
    if x == -1 then -1 else Wrap(x)
  }

  /** Comparing with it works all the same. */
  lemma CmpCurr(x: int, c: int)
    requires Near(x, c) && c >= -1 && x >= 0
    ensures SeqCmp(Wrap(x), CurrNo(c)) > 0 <==> x > c
  {
    if c >= 0 {
      CmpOfWrap(x, c);
    }
  }

  lemma WrapSmall(x: int)
    requires -1 <= x <= MAX_SEQ_NO
    ensures CurrNo(x) == x && (x >= 0 ==> Wrap(x) == x)
  {
  }

  lemma CurrIs(x: int)
    requires x >= 0
    ensures CurrNo(x) == Wrap(x)
  {
  }

  lemma IncCurr(c: int)
    requires c >= -1
    ensures IncSeq(CurrNo(c)) == Wrap(c + 1)
  {
    if c >= 0 {
      StepOfWrap(c, 1);
    }
  }

  /** What sendmsg returns: the number of bytes taken, or no room, or an exception. */
  datatype SendResult = Taken(len: nat) | NoRoom | TooLong | Broken

  class Sender {
    const mss: nat
    const limit: nat
    const sndBuffer: SndBuffer
    const lossList: SndLossList
    var sndLastAck: int
    var sndLastDataAck: int
    var sndCurrSeqNo: int
    var flowWindowSize: int
    var broken: bool

    ghost var state: Protocol.Sender

    ghost predicate Fields()
      reads this
    {
      && sndLastAck == Wrap(state.lastAck) && sndLastDataAck == Wrap(state.dataAck) && sndCurrSeqNo == CurrNo(state.sent - 1)
      && flowWindowSize == state.window && broken == state.broken && mss == state.mss && limit == state.limit
    }

    ghost predicate Buffer()
      reads this`state, sndBuffer, sndBuffer.ring
    {
      && sndBuffer.Valid() && sndBuffer.mss == mss && sndBuffer.nextMsgNo == state.nextMsgNo
      && state.isn <= state.dataAck <= state.sent <= state.isn + |state.stream|
      && sndBuffer.queue == state.stream[state.dataAck - state.isn..] && sndBuffer.sent == state.sent - state.dataAck
    }

    ghost predicate Losses()
      reads this`state, lossList, lossList.data1, lossList.data2, lossList.next
    {
      lossList.Valid() && lossList.Contents() == state.loss
    }

    ghost predicate Valid()
      reads this, sndBuffer, sndBuffer.ring, lossList, lossList.data1, lossList.data2, lossList.next
    {
      Fields() && Buffer() && Losses() && Protocol.SenderOk(state)
    }

    /** The numbers in use fit the loss list and can be compared. */
    ghost predicate Spans()
      reads this`state
    {
      state.sent - state.dataAck <= Capacity(lossList.size) && state.sent - state.dataAck + 1 < THRESHOLD
    }

    constructor (isn: nat, mss: nat, limit: nat, blocks: nat, window: int)
      requires IsSeqNo(isn) && mss > 0 && blocks > 0 && window > 0
      ensures Valid() && Spans()
      ensures state == Protocol.Sender(isn, mss, limit, [], 1, isn, isn, isn, {}, window, false)
      ensures fresh(sndBuffer) && forall k :: 0 <= k < |sndBuffer.ring| ==> fresh(sndBuffer.ring[k])
      ensures fresh(sndBuffer.Repr()) && fresh(lossList) && lossList.size == 2 * window
      ensures fresh(lossList.data1) && fresh(lossList.data2) && fresh(lossList.next)
    {
      hide Wrap, SndBuffer.Valid, SndLossList.Valid;
      WrapSmall(isn);
      WrapSmall(isn - 1);
      this.mss := mss;
      this.limit := limit;
      sndBuffer := new SndBuffer(blocks, mss);
      lossList := new SndLossList(window * 2);
      sndLastAck, sndLastDataAck, sndCurrSeqNo := isn, isn, isn - 1;
      flowWindowSize := window;
      broken := false;
      state := Protocol.Sender(isn, mss, limit, [], 1, isn, isn, isn, {}, window, false);
    }

    /** sendmsg, in order.  A message is too long if it would not fit into the empty buffer; otherwise there may be no room
        for it at present. */
    method SendMsg(data: seq<byte>) returns (r: SendResult)
      requires Valid()
      modifies this`state, sndBuffer, sndBuffer.ring
      ensures Valid() && state == Protocol.SendMsg(old(state), data)
      ensures r.Taken? && r.len > 0 <==> Protocol.Accepts(old(state), data)
      ensures r.Taken? && r.len > 0 <==> var s0 := old(state);
              !s0.broken && data != [] && Effects.Queued(s0) + |Fragments(data, mss, s0.nextMsgNo, true, true)| <= limit
      ensures r.Taken? ==> r.len == |data|
      ensures r == Broken <==> old(state).broken
      ensures r == TooLong <==> !old(state).broken && |data| > limit * mss
      ensures r == NoRoom <==> !old(state).broken && 0 < |data| <= limit * mss && !Protocol.Accepts(old(state), data)
      ensures forall b :: b in sndBuffer.ring ==> b in old(sndBuffer.ring) || fresh(b)
      ensures forall k :: 0 <= k < |sndBuffer.ring| ==> sndBuffer.ring[k] in old(sndBuffer.ring) || fresh(sndBuffer.ring[k])
    {
      hide Valid, SndBuffer.Valid, Fragments, Protocol.Accepts;
      Room(data);
      assert limit * mss >= 0;
      if broken {
        return Broken;
      }
      if |data| <= 0 {
        return Taken(0);
      }
      if |data| > limit * mss {
        return TooLong;
      }
      var size := sndBuffer.GetCurrBufSize();
      if (limit - size) * mss < |data| {
        return NoRoom;
      }
      Enqueue(data);
      r := Taken(|data|);
    }

    /** An accepted message is queued. */
    method Enqueue(data: seq<byte>)
      requires Valid() && Protocol.Accepts(state, data)
      modifies this`state, sndBuffer, sndBuffer.ring
      ensures Valid() && state == Protocol.SendMsg(old(state), data)
      ensures forall b :: b in sndBuffer.ring ==> b in old(sndBuffer.ring) || fresh(b)
      ensures forall k :: 0 <= k < |sndBuffer.ring| ==> sndBuffer.ring[k] in old(sndBuffer.ring) || fresh(sndBuffer.ring[k])
    {
      hide Wrap, SndBuffer.Valid, SndLossList.Valid, SndLossList.Contents, Fragments, Protocol.Accepts;
      sndBuffer.AddBuffer(data, true);
      state := Protocol.SendMsg(state, data);
    }

    /** A lost packet goes out again. */
    method PackLost(seqNo: int, ghost x: int) returns (p: Option)
      requires Fields() && Buffer() && seqNo == Wrap(x) && state.dataAck <= x < state.sent && Spans()
      ensures p == Some(Protocol.PacketAt(state, x))
    {
      hide Wrap, CurrNo, SeqOff, SndBuffer.Valid;
      OffOfWrap(state.dataAck, x);
      var offset := SeqOff(sndLastDataAck, seqNo);
      if offset < 0 {
        assert false;
      }
      var packet := sndBuffer.ReadAt(offset);
      p := Some(packet);
    }

    /** Do the windows allow another packet? */
    method Allows(cwnd: int) returns (open: bool)
      requires Fields() && Protocol.SenderOk(state) && Spans()
      ensures open <==> (if state.window < cwnd then state.window else cwnd) >= state.sent - state.lastAck + 1
    {
      hide Wrap, CurrNo, SeqLen, Capacity;
      IncCurr(state.sent - 1);
      LenOfWrap(state.lastAck, state.sent);
      var window := if flowWindowSize < cwnd then flowWindowSize else cwnd;
      open := window >= SeqLen(sndLastAck, IncSeq(sndCurrSeqNo));
    }

    /** The counters move on by one packet. */
    method Advance()
      requires Fields() && Protocol.SenderOk(state) && state.sent < state.isn + |state.stream|
      modifies this`state, this`sndCurrSeqNo
      ensures Fields() && Protocol.SenderOk(state) && state == old(state).(sent := old(state).sent + 1) && sndCurrSeqNo == Wrap(old(state).sent)
    {
      hide Wrap, CurrNo;
      IncCurr(state.sent - 1);
      CurrIs(state.sent);
      sndCurrSeqNo := IncSeq(sndCurrSeqNo);
      state := state.(sent := state.sent + 1);
    }

    /** The next new packet goes out, if there is one. */
    method PackNext() returns (p: Option)
      requires Valid()
      modifies this`state, this`sndCurrSeqNo, sndBuffer`currBlock, sndBuffer`sent
      ensures Valid()
      ensures var s0 := old(state);
              if s0.sent < s0.isn + |s0.stream| then
                state == s0.(sent := s0.sent + 1) && p == Some(Protocol.PacketAt(s0, s0.sent)) && sndCurrSeqNo == Wrap(s0.sent)
              else state == s0 && p == None
    {
      hide Fields, Protocol.SenderOk, Wrap, CurrNo, SndBuffer.Valid, SndLossList.Valid, SndLossList.Contents, Protocol.PacketAt;
      p := NextBlock();
      if p.Some? {
        Advance();
      }
    }

    /** The buffer's next packet is the one the counters stand for. */
    method NextBlock() returns (p: Option)
      requires Buffer()
      modifies sndBuffer`currBlock, sndBuffer`sent
      ensures sndBuffer.Valid() && sndBuffer.mss == mss && sndBuffer.nextMsgNo == state.nextMsgNo
      ensures sndBuffer.queue == state.stream[state.dataAck - state.isn..]
      ensures if state.sent < state.isn + |state.stream| then p == Some(Protocol.PacketAt(state, state.sent)) && sndBuffer.sent == state.sent + 1 - state.dataAck
              else p == None && sndBuffer.sent == state.sent - state.dataAck
    {
      hide SndBuffer.Valid;
      p := sndBuffer.ReadNext();
    }

    method NextLost() returns (seqNo: int, ghost x: int)
      requires Losses()
      modifies this`state, lossList, lossList.data1, lossList.data2, lossList.next
      ensures Losses()
      ensures old(state).loss == {} ==> seqNo == -1 && state == old(state)
      ensures old(state).loss != {} ==> x == Protocol.Least(old(state).loss) && seqNo == Wrap(x) && state == old(state).(loss := old(state).loss - {x})
    {
      hide Wrap, SndLossList.Valid, SndLossList.Contents;
      seqNo := lossList.GetLostSeq();
      x := 0;
      if state.loss != {} {
        x :| x in state.loss && seqNo == Wrap(x) && (forall c :: c in state.loss ==> x <= c) && lossList.Contents() == state.loss - {x};
        Protocol.LeastIs(state.loss, x);
        state := state.(loss := state.loss - {x});
      }
    }

    /** Takes the first lost number out of the loss list. */
    method TakeLost() returns (seqNo: int, ghost x: int)
      requires Valid()
      modifies this`state, lossList, lossList.data1, lossList.data2, lossList.next
      ensures Valid()
      ensures old(state).loss == {} ==> seqNo == -1 && state == old(state)
      ensures old(state).loss != {} ==> x == Protocol.Least(old(state).loss) && seqNo == Wrap(x) && state == old(state).(loss := old(state).loss - {x})
    {
      hide Wrap, CurrNo, SndBuffer.Valid, Losses;
      seqNo, x := NextLost();
    }

    /** packData: the number and the contents of the packet to be sent now, if any. */
    method PackData(cwnd: int) returns (seqNo: int, p: Option)
      requires Valid() && Spans()
      modifies this`state, this`sndCurrSeqNo, sndBuffer`currBlock, sndBuffer`sent, lossList, lossList.data1, lossList.data2, lossList.next
      ensures Valid()
      ensures var (s1, e) := Protocol.PackData(old(state), cwnd);
              state == s1 && match e case Silent => p == None case Emitted(x, packet) => p == Some(packet) && seqNo == Wrap(x)
      ensures old(state).loss != {} ==>
                var (s0, x) := (old(state), Protocol.Least(old(state).loss));
                && s0.isn <= x < s0.isn + |s0.stream| && seqNo == Wrap(x) && p == Some(s0.stream[x - s0.isn])
                && state == s0.(loss := s0.loss - {x}) && lossList.Contents() == s0.loss - {x}
      ensures old(state).loss == {} ==>
                var s0 := old(state);
                if Effects.RoomFor(s0, cwnd) && s0.isn <= s0.sent < s0.isn + |s0.stream| then
                  seqNo == Wrap(s0.sent) && p == Some(s0.stream[s0.sent - s0.isn]) && state == s0.(sent := s0.sent + 1)
                else p == None && state == s0
    {
      hide Wrap, CurrNo, Fields, Buffer, Losses, Protocol.PackData, SndLossList.Contents;
      ghost var x;
      if state.loss != {} {
        Effects.LostFirst(state, cwnd);
      } else {
        Effects.NewNext(state, cwnd);
      }
      seqNo, x := TakeLost();
      if seqNo >= 0 {
        p := PackLost(seqNo, x);
      } else {
        p := None;
        var open := Allows(cwnd);
        if open {
          p := PackNext();
          seqNo := sndCurrSeqNo;
        }
      }
      Lost();
    }

    lemma Lost()
      requires Valid()
      ensures lossList.Contents() == state.loss && Protocol.SenderOk(state)
    {
    }

    /** processCtrl, a light ACK.  The source does not check it against what has been sent. */
    method ProcessLightAck(ack: int, ghost a: nat)
      requires Valid() && ack == Wrap(a) && Near(a, state.lastAck) && a <= state.sent
      modifies this`state, this`flowWindowSize, this`sndLastAck
      ensures Valid() && state == Protocol.OnLightAck(old(state), a)
      ensures state.lastAck == MaxOf(old(state).lastAck, a) && state.lastAck + state.window == old(state).lastAck + old(state).window
    {
      hide Wrap, CurrNo, SeqCmp, SeqOff, SndBuffer.Valid, SndLossList.Valid;
      CmpOfWrap(a, state.lastAck);
      OffOfWrap(state.lastAck, a);
      if SeqCmp(ack, sndLastAck) >= 0 {
        flowWindowSize := flowWindowSize - SeqOff(sndLastAck, ack);
        sndLastAck := ack;
      }
      state := Protocol.OnLightAck(state, a);
    }

    /** Nothing in front of a is lost any more. */
    method DropLosses(ack: int, ghost a: nat)
      requires Losses() && Protocol.SenderOk(state) && Spans() && ack == Wrap(a) && state.dataAck < a <= state.sent
      modifies lossList, lossList.data1, lossList.data2, lossList.next
      ensures lossList.Valid() && lossList.Contents() == set c | c in state.loss && c > a - 1
    {
      hide Wrap, SndLossList.Valid, SndLossList.Contents;
      StepOfWrap(a, 1);
      lossList.Remove(DecSeq(ack), a - 1);
    }

    /** Releases the packets up to a, in the buffer and in the loss list. */
    method Release(ack: int, offset: int, ghost a: nat)
      requires Valid() && Spans() && ack == Wrap(a) && state.dataAck < a <= state.sent && a <= state.lastAck && offset == a - state.dataAck
      modifies this`state, this`sndLastDataAck, lossList, lossList.data1, lossList.data2, lossList.next
      modifies sndBuffer`firstBlock, sndBuffer`count, sndBuffer`ring, sndBuffer`queue, sndBuffer`sent
      ensures Valid() && state == old(state).(dataAck := a, loss := set c | c in old(state).loss && c > a - 1)
      ensures forall b :: b in sndBuffer.ring <==> b in old(sndBuffer.ring)
      ensures forall k :: 0 <= k < |sndBuffer.ring| ==> sndBuffer.ring[k] in old(sndBuffer.ring)
    {
      hide Wrap, CurrNo, SndBuffer.Valid, SndLossList.Valid, SndLossList.Contents;
      sndBuffer.AckData(offset);
      sndLastDataAck := ack;
      DropLosses(sndLastDataAck, a);
      state := state.(dataAck := a, loss := set c | c in state.loss && c > a - 1);
    }

    lemma Numbers()
      requires Valid()
      ensures Protocol.SenderOk(state) && sndLastAck == Wrap(state.lastAck) && sndLastDataAck == Wrap(state.dataAck) && sndCurrSeqNo == CurrNo(state.sent - 1) && state.sent >= 0
    {
      hide Wrap, CurrNo, SndBuffer.Valid, SndLossList.Valid;
    }

    method Break()
      requires Valid()
      modifies this`broken, this`state
      ensures Valid() && state == old(state).(broken := true)
    {
      hide Wrap, CurrNo, SndBuffer.Valid, SndLossList.Valid;
      broken := true;
      state := state.(broken := true);
    }

    /** A full ACK that is no older than the last one sets the window. */
    method Widen(ack: int, w: int, ghost a: nat)
      requires Valid() && ack == Wrap(a) && state.lastAck <= a <= state.sent
      modifies this`state, this`flowWindowSize, this`sndLastAck
      ensures Valid() && state == old(state).(window := w, lastAck := a)
    {
      hide Wrap, CurrNo, SndBuffer.Valid, SndLossList.Valid, SndLossList.Contents;
      flowWindowSize := w;
      sndLastAck := ack;
      state := state.(window := w, lastAck := a);
    }

    /** processCtrl, a full ACK with the receiver's window. */
    method ProcessAck(ack: int, w: int, ghost a: nat)
      requires Valid() && Spans() && ack == Wrap(a) && Near(a, state.sent) && Near(a, state.lastAck) && Near(a, state.dataAck)
      modifies this`state, this`flowWindowSize, this`sndLastAck, this`broken, this`sndLastDataAck, lossList, lossList.data1, lossList.data2, lossList.next
      modifies sndBuffer`firstBlock, sndBuffer`count, sndBuffer`ring, sndBuffer`queue, sndBuffer`sent
      ensures Valid() && state == Protocol.OnAck(old(state), a, w)
      ensures var s0 := old(state);
              if a > s0.sent then state == s0.(broken := true)
              else
                && state.dataAck == MaxOf(s0.dataAck, a) && state.lastAck == MaxOf(s0.lastAck, a)
                && state.window == (if a >= s0.lastAck then w else s0.window)
                && forall c :: c in state.loss <==> c in s0.loss && c >= a
      ensures forall b :: b in sndBuffer.ring <==> b in old(sndBuffer.ring)
      ensures forall k :: 0 <= k < |sndBuffer.ring| ==> sndBuffer.ring[k] in old(sndBuffer.ring)
    {
      hide Valid, Wrap, CurrNo, SeqCmp, SeqOff;
      Numbers();
      IncCurr(state.sent - 1);
      CmpOfWrap(a, state.sent);
      CmpOfWrap(a, state.lastAck);
      OffOfWrap(state.dataAck, a);
      if SeqCmp(ack, IncSeq(sndCurrSeqNo)) > 0 {
        Break();
        return;
      }
      if SeqCmp(ack, sndLastAck) >= 0 {
        Widen(ack, w, a);
      }
      var offset := SeqOff(sndLastDataAck, ack);
      if offset <= 0 {
        return;
      }
      Release(ack, offset, a);
    }

    /** A coordinate that the sender's numbers can be compared with. */
    ghost predicate Comparable(x: int)
      reads this`state
    {
      x >= 0 && Near(x, state.lastAck) && Near(x, state.sent - 1)
    }

    /** Numbers from x1 to x2 are to be sent again. */
    method AddLoss(s1: int, s2: int, ghost x1: int, ghost x2: int) returns (added: int)
      requires Valid() && Spans() && s1 == Wrap(x1) && s2 == Wrap(x2) && state.dataAck <= x1 <= x2 < state.sent
      modifies this`state, lossList, lossList.data1, lossList.data2, lossList.next
      ensures Valid() && state == old(state).(loss := old(state).loss + Range(x1, x2))
      ensures added == |state.loss| - |old(state).loss|
    {
      hide Wrap, CurrNo, SndBuffer.Valid, SndLossList.Valid, Range;
      added := lossList.Insert(s1, s2, x1, x2);
      state := state.(loss := state.loss + Range(x1, x2));
    }

    lemma CmpRange(n: Node)
      requires Comparable(n.lo) && Comparable(n.hi) && Near(n.lo, n.hi) && state.sent >= 0
      ensures SeqCmp(Wrap(n.lo), Wrap(n.hi)) > 0 <==> n.lo > n.hi
      ensures SeqCmp(Wrap(n.hi), CurrNo(state.sent - 1)) > 0 <==> n.hi >= state.sent
      ensures SeqCmp(Wrap(n.lo), Wrap(state.lastAck)) >= 0 <==> n.lo >= state.lastAck
      ensures SeqCmp(Wrap(n.hi), Wrap(state.lastAck)) >= 0 <==> n.hi >= state.lastAck
    {
      hide Wrap, CurrNo, SeqCmp;
      CmpOfWrap(n.lo, n.hi);
      CmpCurr(n.hi, state.sent - 1);
      CmpOfWrap(n.lo, state.lastAck);
      CmpOfWrap(n.hi, state.lastAck);
    }

    lemma CmpSingle(x: int)
      requires Comparable(x) && state.sent >= 0
      ensures SeqCmp(Wrap(x), CurrNo(state.sent - 1)) > 0 <==> x >= state.sent
      ensures SeqCmp(Wrap(x), Wrap(state.lastAck)) >= 0 <==> x >= state.lastAck
    {
      hide Wrap, CurrNo, SeqCmp;
      CmpCurr(x, state.sent - 1);
      CmpOfWrap(x, state.lastAck);
    }

    /** One range of a NAK. */
    method NakRange(s1: int, s2: int, ghost n: Node) returns (secure: bool)
      requires Valid() && Spans() && s1 == Wrap(n.lo) && s2 == Wrap(n.hi) && n.lo != n.hi
      requires Comparable(n.lo) && Comparable(n.hi) && Near(n.lo, n.hi)
      modifies this`state, lossList, lossList.data1, lossList.data2, lossList.next
      ensures Valid() && secure == Effects.WereSent(old(state), n) && Protocol.SenderOk(old(state))
      ensures state == if secure then Protocol.OnRange(old(state), n) else old(state)
      ensures forall c :: c in lossList.Contents() <==> c in old(state).loss || (secure && Effects.Asks(old(state), n, c))
    {
      hide Wrap, CurrNo, SeqCmp, Range, Valid, Comparable, Near, SndLossList.Contents, Protocol.Secure;
      Numbers();
      Effects.SecureIfSent(state, n);
      Effects.RangeMeans(state, n);
      CmpRange(n);
      if SeqCmp(s1, s2) > 0 || SeqCmp(s2, sndCurrSeqNo) > 0 {
        Lost();
        return false;
      }
      secure := true;
      if SeqCmp(s1, sndLastAck) >= 0 {
        var _ := AddLoss(s1, s2, n.lo, n.hi);
      } else if SeqCmp(s2, sndLastAck) >= 0 {
        var _ := AddLoss(sndLastAck, s2, state.lastAck, n.hi);
      } else {
        NothingMore(state, n);
      }
      Lost();
    }

    /** One single number of a NAK. */
    method NakOne(s1: int, ghost n: Node) returns (secure: bool)
      requires Valid() && Spans() && s1 == Wrap(n.lo) && n.lo == n.hi && Comparable(n.lo)
      modifies this`state, lossList, lossList.data1, lossList.data2, lossList.next
      ensures Valid() && secure == Effects.WereSent(old(state), n) && Protocol.SenderOk(old(state))
      ensures state == if secure then Protocol.OnRange(old(state), n) else old(state)
      ensures forall c :: c in lossList.Contents() <==> c in old(state).loss || (secure && Effects.Asks(old(state), n, c))
    {
      hide Wrap, CurrNo, SeqCmp, Range, Valid, Comparable, Near, SndLossList.Contents, Protocol.Secure;
      Numbers();
      Effects.SecureIfSent(state, n);
      Effects.RangeMeans(state, n);
      CmpSingle(n.lo);
      secure := true;
      if SeqCmp(s1, sndLastAck) >= 0 {
        if SeqCmp(s1, sndCurrSeqNo) > 0 {
          Lost();
          return false;
        }
        var _ := AddLoss(s1, s1, n.lo, n.lo);
      } else {
        NothingMore(state, n);
      }
      Lost();
    }

    /** processCtrl, a NAK: the words of its loss list. */
    method ProcessNak(words: seq<int>, ghost nodes: seq<Node>)
      requires Valid() && Spans() && words == Encode(nodes)
      requires forall n :: n in nodes ==> Comparable(n.lo) && Comparable(n.hi) && Near(n.lo, n.hi)
      modifies this`state, this`broken, lossList, lossList.data1, lossList.data2, lossList.next
      ensures Valid() && state == Protocol.OnNak(old(state), nodes)
      ensures state.broken <==> old(state).broken || exists i :: 0 <= i < |nodes| && !Effects.WereSent(old(state), nodes[i])
      ensures forall c :: c in lossList.Contents() <==>
                c in old(state).loss || exists i :: 0 <= i < Effects.Leading(old(state), nodes) && Effects.Asks(old(state), nodes[i], c)
    {
      hide Encode, EncodeNode, Wrap, Marked, Range, Valid, Protocol.Secure, Protocol.SenderOk, Near, SndLossList.Contents, Effects.WereSent, Effects.Asks;
      Lost();
      Effects.NakMeans(state, nodes);
      ghost var k := 0;
      var i := 0;
      assert words[0..] == words && nodes[0..] == nodes;
      while i < |words|
        invariant 0 <= i <= |words| && 0 <= k <= |nodes| && words[i..] == Encode(nodes[k..])
        invariant Valid() && Spans() && Protocol.OnNak(state, nodes[k..]) == Protocol.OnNak(old(state), nodes)
        invariant forall n :: n in nodes ==> Comparable(n.lo) && Comparable(n.hi) && Near(n.lo, n.hi)
      {
        ghost var rest := nodes[k..];
        EncodeStep(rest, words[i..]);
        ghost var n := nodes[k];
        Lost();
        Effects.SecureIfSent(state, n);
        assert n in nodes;
        assert rest[1..] == nodes[k + 1..];
        assert words[i] == words[i..][0];
        var secure;
        if words[i] < 0 {
          assert words[i + 1] == words[i..][1];
          secure := NakRange(Unmarked(words[i]), words[i + 1], n);
          i := i + 1;
        } else {
          secure := NakOne(words[i], n);
        }
        if !secure {
          Break();
          Lost();
          return;
        }
        i := i + 1;
        k := k + 1;
      }
      EncodeNone(nodes[k..]);
      Lost();
    }

    /** checkTimers: everything that has not been acknowledged is to be sent again. */
    method ResendAll() returns (added: int)
      requires Valid() && Spans()
      modifies this`state, lossList, lossList.data1, lossList.data2, lossList.next
      ensures Valid() && state == Protocol.OnTimeout(old(state))
      ensures forall c :: c in lossList.Contents() <==>
                c in old(state).loss || (old(state).loss == {} && old(state).lastAck <= c < old(state).sent)
    {
      hide Wrap, CurrNo, SndBuffer.Valid, SndLossList.Valid, Range;
      added := 0;
      Effects.TimeoutMeans(state);
      IncCurr(state.sent - 1);
      CmpOfWrap(state.sent, state.lastAck);
      lossList.CountIsSize();
      var size := sndBuffer.GetCurrBufSize();
      if size > 0 {
        if IncSeq(sndCurrSeqNo) != sndLastAck && lossList.length == 0 {
          CurrIs(state.sent - 1);
          added := AddLoss(sndLastAck, sndCurrSeqNo, state.lastAck, state.sent - 1);
          assert {} + Range(state.lastAck, state.sent - 1) == Range(state.lastAck, state.sent - 1);
        }
      }
    }

    lemma Room(data: seq<byte>)
      requires Valid()
      ensures Protocol.Accepts(state, data) <==> !broken && data != [] && (limit - |sndBuffer.queue|) * mss >= |data|
      ensures Protocol.Accepts(state, data) ==> |data| <= limit * mss
      ensures Protocol.Accepts(state, data) <==>
                !state.broken && data != [] && Effects.Queued(state) + |Fragments(data, mss, state.nextMsgNo, true, true)| <= limit
      ensures sndBuffer.Valid() && broken == state.broken && mss == state.mss && mss > 0
      ensures !Protocol.Accepts(state, data) ==> state == Protocol.SendMsg(state, data)
    {
      Effects.AcceptsIfFits(state, data);
      hide Fragments;
      hide SndBuffer.Valid, SndLossList.Valid;
      var q := |sndBuffer.queue|;
      assert (limit - q) * mss <= limit * mss by {
        MulLess(limit - q, limit, mss);
      }
    }
  }

  /** A range that has been acknowledged adds nothing. */
  lemma NothingMore(s: Protocol.Sender, n: Node)
    requires n.hi < s.lastAck
    ensures Protocol.OnRange(s, n) == s
  {
    assert s.loss + Range(MaxOf(n.lo, s.lastAck), n.hi) == s.loss;
  }

  lemma MulLess(a: int, b: int, m: nat)
    requires a <= b
    ensures a * m <= b * m
  {
  }
}
