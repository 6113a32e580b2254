/** What the receiver's buffer (buffer.cpp, class CRcvBuffer) does, on values.

    The ring of slots is read from the start position on: slot 0 is the next one to be read, the first `acked` slots
    have been acknowledged, and `maxPos` is the furthest slot behind them that has been filled. */
module RcvRing {
  import opened Packets

  /** A slot of the ring.  Flag 1: unread, 2: read out of order but not yet freed, 3: dropped. */
  datatype Slot = Empty | Full(flag: int, packet: Packet)

  datatype Ring = Ring(slots: seq<Slot>, acked: nat, maxPos: nat)

  /** The slot before the start position is always empty. */
  ghost predicate Ok(b: Ring) {
    b.acked + b.maxPos < |b.slots| && b.slots[|b.slots| - 1] == Empty
  }

  predicate Ready(s: Slot) {
    s.Full? && s.flag == 1
  }

  function MaxNat(a: nat, b: nat): nat {
    if a < b then b else a
  }

  function EmptyRing(size: nat): (b: Ring)
    requires size > 0
    ensures Ok(b)
  {
    Ring(seq(size, _ => Empty), 0, 0)
  }

  /** One slot always stays free. */
  function Avail(b: Ring): int {
    |b.slots| - b.acked - 1
  }

  /** Stores a packet at an offset from the acknowledged part; the furthest position moves even if the slot is taken. */
  function AddData(b: Ring, p: Packet, offset: nat): (r: (Ring, bool))
    requires Ok(b) && offset < Avail(b)
    ensures Ok(r.0) && |r.0.slots| == |b.slots|
  {
    var furthest := MaxNat(b.maxPos, offset);
    if b.slots[b.acked + offset].Full? then (b.(maxPos := furthest), false)
    else (Ring(b.slots[b.acked + offset := Full(1, p)], b.acked, furthest), true)
  }

  function AckData(b: Ring, len: nat): (r: Ring)
    requires Ok(b) && b.acked + len < |b.slots|
    ensures Ok(r)
  {
    Ring(b.slots, b.acked + len, if b.maxPos < len then 0 else b.maxPos - len)
  }

  /** Marks the packets whose header word is msgNo as dropped, up to but not including the furthest position. */
  function DropMsg(b: Ring, msgNo: Word): (r: Ring)
    requires Ok(b)
    ensures Ok(r)
  {
    b.(slots := MarkDropped(b.slots, b.acked + b.maxPos, msgNo))
  }

  function MarkDropped(slots: seq<Slot>, n: nat, msgNo: Word): (r: seq<Slot>)
    requires n <= |slots|
    ensures |r| == |slots|
    ensures forall k :: 0 <= k < |slots| ==> r[k] == if k < n && slots[k].Full? && slots[k].packet.msgNo == msgNo then slots[k].(flag := 3) else slots[k]
  {
    seq(|slots|, k requires 0 <= k < |slots| => if k < n && slots[k].Full? && slots[k].packet.msgNo == msgNo then slots[k].(flag := 3) else slots[k])
  }

  /** From slot k on, the acknowledged part holds unread packets up to the end of a message, or to its own end. */
  predicate GoodAhead(slots: seq<Slot>, k: nat, acked: nat)
    requires acked <= |slots|
    decreases acked - k
  {
    k < acked ==> Ready(slots[k]) && (IsLast(slots[k].packet) || GoodAhead(slots, k + 1, acked))
  }

  /** The first slot may stay: a message starts there and nothing of its acknowledged part is missing. */
  predicate Keeps(b: Ring)
    requires Ok(b) && b.acked > 0
  {
    Ready(b.slots[0]) && IsFirst(b.slots[0].packet) && GoodAhead(b.slots, 0, b.acked)
  }

  /** Frees the first slot and moves the start position over it. */
  function Shift(b: Ring): (r: Ring)
    requires Ok(b) && b.acked > 0
    ensures Ok(r) && |r.slots| == |b.slots|
  {
    Ring(b.slots[1..] + [Empty], b.acked - 1, b.maxPos)
  }

  /** Gives up slots that no whole message can start at. */
  function SkipBad(b: Ring): (r: Ring)
    requires Ok(b)
    ensures Ok(r) && |r.slots| == |b.slots| && r.acked <= b.acked && r.maxPos == b.maxPos
    ensures r.acked > 0 ==> Keeps(r)
    decreases b.acked
  {
    if b.acked == 0 || Keeps(b) then b else SkipBad(Shift(b))
  }

  /** The outcome of looking for a message: one from slot p to slot q, or none, in which case p is where an unfinished
      message starts, if any. */
  datatype Search = Found(p: nat, q: nat, passack: bool) | Ended(start: int)

  /** Slot k completes a message that starts at p (-1: no message has started). */
  predicate Completes(s: Slot, p: int) {
    Ready(s) && (MsgBoundary(s.packet.msgNo) == 3 || (MsgBoundary(s.packet.msgNo) == 1 && p != -1))
  }

  function StartAfter(s: Slot, k: nat, p: int): int {
    if Ready(s) then (if IsFirst(s.packet) then k else p) else -1
  }

  /** Looks at slots k to n.  A message that reaches beyond the acknowledged part counts only if it need not be
      delivered in order. */
  function FindMessage(slots: seq<Slot>, acked: nat, n: nat, k: nat, p: int): (r: Search)
    requires n < |slots| && k <= n + 1 && -1 <= p < k
    ensures r.Found? ==> k <= r.q <= n && r.p <= r.q
    ensures r.Ended? ==> -1 <= r.start <= n
    decreases n + 1 - k
  {
    if k > n then Ended(p)
    else
      var p1 := StartAfter(slots[k], k, p);
      if Completes(slots[k], p) && (k < acked || !InOrder(slots[k].packet)) then Found(p1, k, k >= acked)
      else FindMessage(slots, acked, n, k + 1, p1)
  }

  /** The slots skipped, and the message found. */
  function ScanMsg(b: Ring): (r: (Ring, Search))
    requires Ok(b)
    ensures |r.0.slots| == |b.slots| && Ok(r.0)
  {
    if b.acked == 0 && b.maxPos == 0 then (b, Ended(-1))
    else
      var b1 := SkipBad(b);
      (b1, FindMessage(b1.slots, b1.acked, b1.acked + b1.maxPos, 0, -1))
  }

  /** A search that is reported to have found something: a message, or an unfinished one that fills the whole ring.  Of the
      latter nothing is copied. */
  predicate Reported(b: Ring, s: Search) {
    s.Found? || (s.start == 0 && b.acked + b.maxPos + 2 == |b.slots|)
  }

  /** The packets in slots p up to end. */
  function PacketsOf(slots: seq<Slot>, p: nat, end: nat): (ps: seq<Packet>)
    requires p <= end <= |slots| && forall k :: p <= k < end ==> slots[k].Full?
    ensures |ps| == end - p
    ensures forall k :: 0 <= k < end - p ==> ps[k] == slots[p + k].packet
  {
    seq(end - p, k requires 0 <= k < end - p => slots[p + k].packet)
  }

  function Take(data: seq<byte>, len: nat): seq<byte> {
    if |data| <= len then data else data[..len]
  }

  /** Slots p up to end after they have been read: freed, or marked as read. */
  function AfterRead(slots: seq<Slot>, p: nat, end: nat, passack: bool): (r: seq<Slot>)
    requires p <= end <= |slots|
    ensures |r| == |slots|
    ensures forall k :: 0 <= k < |slots| ==> r[k] == if p <= k < end then (if !passack then Empty else if slots[k].Full? then slots[k].(flag := 2) else Empty) else slots[k]
  {
    seq(|slots|, k requires 0 <= k < |slots| => if p <= k < end then (if !passack then Empty else if slots[k].Full? then slots[k].(flag := 2) else Empty) else slots[k])
  }

  /** Everything FindMessage returns as found is a run of unread packets that starts a message, ends one, and has no
      other start inside. */
  lemma {:induction false} FoundRun(slots: seq<Slot>, acked: nat, n: nat, k: nat, p: int)
    requires n < |slots| && k <= n + 1 && -1 <= p < k
    requires p >= 0 ==> (forall i :: p <= i < k ==> Ready(slots[i]) && (IsFirst(slots[i].packet) <==> i == p))
    ensures var r := FindMessage(slots, acked, n, k, p);
            r.Found? ==>
              && (forall i :: r.p <= i <= r.q ==> Ready(slots[i]) && (IsFirst(slots[i].packet) <==> i == r.p))
              && IsLast(slots[r.q].packet)
              && r.passack == (r.q >= acked)
              && (r.passack ==> !InOrder(slots[r.q].packet))
    decreases n + 1 - k
  {
    hide MsgBoundary;
    if k <= n {
      FoundRun(slots, acked, n, k + 1, StartAfter(slots[k], k, p));
    }
  }

  /** A search result that fits the ring: what it found is a run of unread packets. */
  ghost predicate Fits(b: Ring, s: Search) {
    s.Found? ==> s.p <= s.q < |b.slots| && (forall i :: s.p <= i <= s.q ==> Ready(b.slots[i])) && (!s.passack ==> s.q < b.acked)
  }

  /** Copying out what a search found, up to slot k: the ring with those slots freed or marked, and the bytes. */
  function CopyPart(b: Ring, s: Search, k: int, len: nat): (r: (Ring, seq<byte>))
    requires Fits(b, s) && (s.Found? ==> s.p <= k <= s.q + 1)
    ensures |r.0.slots| == |b.slots|
  {
    if s.Ended? then (b, [])
    else
      assert forall i :: s.p <= i <= s.q ==> Ready(b.slots[i]);
      (b.(slots := AfterRead(b.slots, s.p, k, s.passack)), Take(Payload(PacketsOf(b.slots, s.p, k)), len))
  }

  function CopyRun(b: Ring, s: Search, len: nat): (r: (Ring, seq<byte>))
    requires Fits(b, s)
    ensures |r.0.slots| == |b.slots|
  {
    CopyPart(b, s, if s.Found? then s.q + 1 else 0, len)
  }

  lemma CopyNext(b: Ring, s: Search, k: int, len: nat)
    requires Fits(b, s) && s.Found? && s.p <= k <= s.q
    ensures Ready(b.slots[k])
    ensures var (b1, data1) := CopyPart(b, s, k, len);
            && b1.slots[k] == b.slots[k]
            && CopyPart(b, s, k + 1, len) == (b1.(slots := b1.slots[k := if s.passack then Full(2, b.slots[k].packet) else Empty]),
                                              data1 + Take(b.slots[k].packet.data, len - |data1|))
  {
    hide Take, Payload, PacketsOf;
    AfterReadMore(b.slots, s.p, k, s.passack);
    PayloadMore(b.slots, s.p, k, len);
  }

  lemma CopyNothing(b: Ring, s: Search, len: nat)
    requires Fits(b, s)
    ensures CopyPart(b, s, if s.Found? then s.p else 0, len) == (b, [])
  {
    if s.Found? {
      assert AfterRead(b.slots, s.p, s.p, s.passack) == b.slots;
    }
  }

  /** Moves the start position behind slot q. */
  function SkipTo(b: Ring, q: nat): Ring
    requires q < b.acked <= |b.slots|
  {
    Ring(b.slots[q + 1..] + b.slots[..q + 1], b.acked - (q + 1), b.maxPos)
  }

  lemma ScanFits(b: Ring)
    requires Ok(b)
    ensures Fits(ScanMsg(b).0, ScanMsg(b).1)
  {
    hide SkipBad, FindMessage;
    var b1 := ScanMsg(b).0;
    FoundRun(b1.slots, b1.acked, b1.acked + b1.maxPos, 0, -1);
  }

  /** One read: what is left in the ring, and the bytes handed to the reader. */
  function ReadMsg(b: Ring, len: nat): (r: (Ring, seq<byte>))
    requires Ok(b)
    ensures |r.0.slots| == |b.slots| && Ok(r.0)
  {
    var (b1, s) := ScanMsg(b);
    ScanFits(b);
    var (b2, data) := CopyRun(b1, s, len);
    (if s.Found? && !s.passack then SkipTo(b2, s.q) else b2, data)
  }

  lemma TakeMore(a: seq<byte>, b: seq<byte>, len: nat)
    ensures Take(a + b, len) == Take(a, len) + Take(b, len - |Take(a, len)|)
  {
  }

  /** Reading one packet more. */
  lemma PayloadMore(slots: seq<Slot>, p: nat, k: nat, len: nat)
    requires p <= k < |slots| && forall i :: p <= i <= k ==> slots[i].Full?
    ensures Take(Payload(PacketsOf(slots, p, k + 1)), len)
         == Take(Payload(PacketsOf(slots, p, k)), len) + Take(slots[k].packet.data, len - |Take(Payload(PacketsOf(slots, p, k)), len)|)
  {
    var before := PacketsOf(slots, p, k);
    assert PacketsOf(slots, p, k + 1) == before + [slots[k].packet];
    PayloadConcat(before, [slots[k].packet]);
    assert Payload([slots[k].packet]) == slots[k].packet.data by {
      assert [slots[k].packet][1..] == [];
    }
    TakeMore(Payload(before), slots[k].packet.data, len);
  }

  lemma AfterReadMore(slots: seq<Slot>, p: nat, k: nat, passack: bool)
    requires p <= k < |slots| && slots[k].Full?
    ensures AfterRead(slots, p, k, passack)[k] == slots[k]
    ensures AfterRead(slots, p, k + 1, passack) == AfterRead(slots, p, k, passack)[k := if passack then slots[k].(flag := 2) else Empty]
  {
  }

  lemma MarkDroppedMore(slots: seq<Slot>, k: nat, msgNo: Word)
    requires k < |slots|
    ensures MarkDropped(slots, k, msgNo)[k] == slots[k]
    ensures MarkDropped(slots, k + 1, msgNo) ==
            if slots[k].Full? && slots[k].packet.msgNo == msgNo then MarkDropped(slots, k, msgNo)[k := slots[k].(flag := 3)] else MarkDropped(slots, k, msgNo)
  {
  }

  /** Dropping by a message's number, whatever is in the ring: only the middle packets of messages sent without the order
      flag are marked.  The first and the last packet of a message never are. */
  lemma DropMarksMiddles(b: Ring, msgNo: Word)
    requires Ok(b) && msgNo <= MAX_MSG_NO
    ensures forall k :: 0 <= k < |b.slots| && b.slots[k].Full? ==>
              var p := b.slots[k].packet;
              DropMsg(b, msgNo).slots[k].flag == (if k < b.acked + b.maxPos && MsgSeq(p.msgNo) == msgNo && !IsFirst(p) && !IsLast(p) && !InOrder(p)
                                                  then 3 else b.slots[k].flag)
  {
    forall k | 0 <= k < |b.slots| && b.slots[k].Full?
      ensures var p := b.slots[k].packet;
              p.msgNo == msgNo <==> MsgSeq(p.msgNo) == msgNo && !IsFirst(p) && !IsLast(p) && !InOrder(p)
    {
      WordParts(b.slots[k].packet.msgNo, msgNo);
    }
    hide MsgSeq, IsFirst, IsLast, InOrder;
  }

  lemma WordParts(word: Word, msgNo: Word)
    requires msgNo <= MAX_MSG_NO
    ensures word == msgNo <==> MsgSeq(word) == msgNo && MsgBoundary(word) == 0 && !MsgOrderFlag(word)
    ensures MsgBoundary(word) <= 3
  {
    NoFlags(word);
    NoFlags(msgNo);
    TwoBits(word);
    hide MsgBoundary, MsgOrderFlag, MsgSeq;
  }

  lemma NoFlags(word: Word)
    ensures MsgBoundary(word) == 0 && !MsgOrderFlag(word) <==> word <= MAX_MSG_NO
    ensures word <= MAX_MSG_NO ==> MsgSeq(word) == word
  {
  }

  lemma TwoBits(word: Word)
    ensures MsgBoundary(word) <= 3
  {
  }

  lemma {:induction false} FindsNoEnd(slots: seq<Slot>, acked: nat, n: nat, k: nat)
    requires n < |slots| && 0 < k <= n + 1
    requires forall i :: k <= i <= n ==> Ready(slots[i]) && !IsFirst(slots[i].packet) && !IsLast(slots[i].packet)
    ensures FindMessage(slots, acked, n, k, 0) == Ended(0)
    decreases n + 1 - k
  {
    hide MsgBoundary;
    if k <= n {
      FindsNoEnd(slots, acked, n, k + 1);
    }
  }

  lemma {:induction false} GoodWithoutEnd(slots: seq<Slot>, k: nat, acked: nat)
    requires acked <= |slots| && forall i :: k <= i < acked ==> Ready(slots[i])
    ensures GoodAhead(slots, k, acked)
    decreases acked - k
  {
    hide MsgBoundary;
    if k < acked {
      GoodWithoutEnd(slots, k + 1, acked);
    }
  }

  /** An unfinished message that fills the ring: the reader is told that there is one, and is given nothing. */
  lemma FullOfOneMessage(b: Ring, len: nat)
    requires Ok(b) && b.acked > 0 && b.acked + b.maxPos + 2 == |b.slots|
    requires forall i :: 0 <= i <= b.acked + b.maxPos ==> Ready(b.slots[i]) && !IsLast(b.slots[i].packet) && (IsFirst(b.slots[i].packet) <==> i == 0)
    ensures Reported(ScanMsg(b).0, ScanMsg(b).1) && ReadMsg(b, len) == (b, [])
  {
    hide MsgBoundary, MsgOrderFlag;
    GoodWithoutEnd(b.slots, 0, b.acked);
    assert SkipBad(b) == b;
    FindsNoEnd(b.slots, b.acked, b.acked + b.maxPos, 1);
  }
}
