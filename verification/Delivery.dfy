/** What the receiver's buffer guarantees to its reader, whatever is stored, acknowledged, dropped and read.

    Slot 0 of the ring stands for position `base` of the packet stream; only the packet of a position is ever stored
    in its slot. */
module Delivery {
  import opened Packets
  import opened RcvRing

  /** A stream of whole messages: a packet starts a message exactly if it is the first one or follows the end of one. */
  ghost predicate WellFormed(stream: seq<Packet>) {
    && (stream != [] ==> IsFirst(stream[0]))
    && forall i :: 0 < i < |stream| ==> (IsFirst(stream[i]) <==> IsLast(stream[i - 1]))
  }

  /** Every filled slot holds the packet of its position. */
  ghost predicate Tracks(slots: seq<Slot>, base: nat, stream: seq<Packet>) {
    forall k :: 0 <= k < |slots| && slots[k].Full? ==> base + k < |stream| && slots[k].packet == stream[base + k]
  }

  lemma {:induction false} SkipTracks(b: Ring, base: nat, stream: seq<Packet>)
    requires Ok(b) && Tracks(b.slots, base, stream)
    ensures Tracks(SkipBad(b).slots, base + (b.acked - SkipBad(b).acked), stream)
    decreases b.acked
  {
    hide GoodAhead, MsgBoundary;
    if b.acked == 0 || Keeps(b) {
    } else {
      var s := Shift(b);
      assert Tracks(s.slots, base + 1, stream);
      SkipTracks(s, base + 1, stream);
    }
  }

  /** From a slot inside an unbroken acknowledged message on, the search either completes that message or leaves the
      acknowledged part. */
  lemma {:induction false} FindStays(slots: seq<Slot>, acked: nat, n: nat, k: nat, base: nat, stream: seq<Packet>)
    requires n < |slots| && 0 < k <= n + 1 && acked <= n + 1
    requires Tracks(slots, base, stream) && WellFormed(stream)
    requires k <= acked ==> Ready(slots[k - 1]) && !IsLast(slots[k - 1].packet) && GoodAhead(slots, k, acked)
    ensures var r := FindMessage(slots, acked, n, k, 0);
            r.Found? && !r.passack ==> r.p == 0
    decreases n + 1 - k
  {
    hide MsgBoundary, MsgOrderFlag;
    if k <= n && k < acked {
      assert !IsFirst(slots[k].packet) by {
        assert slots[k - 1].packet == stream[base + (k - 1)] && slots[k].packet == stream[base + k];
      }
      if !IsLast(slots[k].packet) {
        FindStays(slots, acked, n, k + 1, base, stream);
      }
    } else {
      FoundBeyond(slots, acked, n, k, 0);
    }
  }

  lemma {:induction false} FoundBeyond(slots: seq<Slot>, acked: nat, n: nat, k: nat, p: int)
    requires n < |slots| && k <= n + 1 && -1 <= p < k && k >= acked
    ensures var r := FindMessage(slots, acked, n, k, p);
            r.Found? ==> r.passack
    decreases n + 1 - k
  {
    hide MsgBoundary, MsgOrderFlag;
    if k <= n {
      FoundBeyond(slots, acked, n, k + 1, StartAfter(slots[k], k, p));
    }
  }

  /** Packets f to t of the stream are exactly one message. */
  ghost predicate WholeMessage(stream: seq<Packet>, f: nat, t: nat) {
    && f <= t < |stream|
    && forall i :: f <= i <= t ==> (IsFirst(stream[i]) <==> i == f) && (IsLast(stream[i]) <==> i == t)
  }

  /** Whatever the reader is given is one whole message; if it lies in the acknowledged part, it is the first one. */
  lemma FoundIsWhole(b: Ring, base: nat, stream: seq<Packet>)
    requires Ok(b) && Tracks(b.slots, base, stream) && WellFormed(stream)
    ensures var (b1, s) := ScanMsg(b); var base1 := base + (b.acked - b1.acked);
            && b1.acked <= b.acked && Tracks(b1.slots, base1, stream) && Ok(b1) && Fits(b1, s) && |b1.slots| == |b.slots|
            && (s.Found? ==> WholeMessage(stream, base1 + s.p, base1 + s.q) && (!s.passack ==> s.p == 0))
  {
    hide MsgBoundary, MsgOrderFlag, FindMessage, GoodAhead, SkipBad;
    var (b1, s) := ScanMsg(b);
    var base1 := base + (b.acked - b1.acked);
    ScanFits(b);
    SkipTracks(b, base, stream);
    var n := b1.acked + b1.maxPos;
    FoundRun(b1.slots, b1.acked, n, 0, -1);
    if s.Found? {
      MessageFound(b1.slots, base1, stream, s.p, s.q);
      if !s.passack {
        FindFirst(b1.slots, b1.acked, n, base1, stream);
      }
    }
  }

  lemma MessageFound(slots: seq<Slot>, base: nat, stream: seq<Packet>, p: nat, q: nat)
    requires Tracks(slots, base, stream) && WellFormed(stream) && p <= q < |slots|
    requires forall i :: p <= i <= q ==> Ready(slots[i]) && (IsFirst(slots[i].packet) <==> i == p)
    requires Ready(slots[q]) && IsLast(slots[q].packet)
    ensures WholeMessage(stream, base + p, base + q)
  {
    hide MsgBoundary, IsFirst, IsLast;
    assert Ready(slots[q]) && stream[base + q] == slots[q].packet;
    forall i | base + p <= i <= base + q
      ensures (IsFirst(stream[i]) <==> i == base + p) && (IsLast(stream[i]) <==> i == base + q)
    {
      var k := i - base;
      assert Ready(slots[k]) && stream[i] == slots[k].packet;
      if i < base + q {
        assert Ready(slots[k + 1]) && stream[i + 1] == slots[k + 1].packet;
      }
    }
  }

  lemma FindFirst(slots: seq<Slot>, acked: nat, n: nat, base: nat, stream: seq<Packet>)
    requires n < |slots| && acked <= n && Tracks(slots, base, stream) && WellFormed(stream)
    requires acked > 0 ==> Ready(slots[0]) && IsFirst(slots[0].packet) && GoodAhead(slots, 0, acked)
    ensures var r := FindMessage(slots, acked, n, 0, -1);
            r.Found? && !r.passack ==> r.p == 0
  {
    hide MsgBoundary, MsgOrderFlag;
    if acked == 0 {
      FoundBeyond(slots, acked, n, 0, -1);
    } else {
      FirstBoundary(slots[0].packet);
      if !IsLast(slots[0].packet) {
        FindStays(slots, acked, n, 1, base, stream);
      }
    }
  }

  lemma FirstBoundary(p: Packet)
    ensures IsFirst(p) && IsLast(p) <==> MsgBoundary(p.msgNo) == 3
  {
  }

  /** The slots moved d places towards the start, with empty ones put behind. */
  ghost predicate ShiftedBy(slots: seq<Slot>, d: nat, moved: seq<Slot>) {
    |moved| == |slots| && forall k :: 0 <= k < |moved| ==> moved[k] == if k + d < |slots| then slots[k + d] else Empty
  }

  lemma ShiftedTwice(a: seq<Slot>, d: nat, b: seq<Slot>, e: nat, c: seq<Slot>)
    requires ShiftedBy(a, d, b) && ShiftedBy(b, e, c)
    ensures ShiftedBy(a, d + e, c)
  {
    forall k | 0 <= k < |c|
      ensures c[k] == if k + (d + e) < |a| then a[k + (d + e)] else Empty
    {
      if k + e < |b| {
        assert b[k + e] == if k + e + d < |a| then a[k + e + d] else Empty;
      }
    }
  }

  lemma ShiftMoves(b: Ring)
    requires Ok(b) && b.acked > 0
    ensures ShiftedBy(b.slots, 1, Shift(b).slots) && Shift(b).acked == b.acked - 1
  {
  }

  lemma {:induction false} SkipShifts(b: Ring)
    requires Ok(b)
    ensures ShiftedBy(b.slots, b.acked - SkipBad(b).acked, SkipBad(b).slots)
    decreases b.acked
  {
    hide Shift, Keeps, ShiftedBy;
    if b.acked == 0 || Keeps(b) {
      ShiftedNone(b.slots);
    } else {
      var s := Shift(b);
      ShiftMoves(b);
      SkipShifts(s);
      ShiftedTwice(b.slots, 1, s.slots, s.acked - SkipBad(s).acked, SkipBad(s).slots);
    }
  }

  lemma ShiftedNone(slots: seq<Slot>)
    ensures ShiftedBy(slots, 0, slots)
  {
  }

  // ----- runs

  datatype Op = Add(offset: nat) | Ack(len: nat) | Drop(msgNo: Word) | Read(len: nat)

  /** The ring, the stream position of its first slot, and of each message read so far the range of its packets, the size
      of the reader's buffer and the bytes given out. */
  datatype State = State(b: Ring, base: nat, ranges: seq<(nat, nat)>, lens: seq<nat>, got: seq<seq<byte>>)

  function Start(size: nat): State
    requires size > 0
  {
    State(EmptyRing(size), 0, [], [], [])
  }

  /** One operation; one that its caller would not be allowed to make does nothing. */
  ghost function Step(st: State, op: Op, stream: seq<Packet>): (r: State)
    requires Ok(st.b)
    ensures Ok(r.b) && |r.b.slots| == |st.b.slots|
  {
    match op
    case Add(offset) =>
      var i := st.base + st.b.acked + offset;
      if offset < Avail(st.b) && i < |stream| then st.(b := AddData(st.b, stream[i], offset).0) else st
    case Ack(len) => if st.b.acked + len < |st.b.slots| then st.(b := AckData(st.b, len)) else st
    case Drop(msgNo) => st.(b := DropMsg(st.b, msgNo))
    case Read(len) => ReadStep(st, len)
  }

  ghost function ReadStep(st: State, len: nat): (r: State)
    requires Ok(st.b)
    ensures Ok(r.b) && |r.b.slots| == |st.b.slots|
  {
    var (b1, s) := ScanMsg(st.b);
    var (b2, data) := ReadMsg(st.b, len);
    ReadAcked(st.b, len);
    var base1 := st.base + (st.b.acked - b1.acked);
    State(b2, st.base + (st.b.acked - b2.acked),
          if s.Found? then st.ranges + [(base1 + s.p, base1 + s.q)] else st.ranges,
          if s.Found? then st.lens + [len] else st.lens,
          if s.Found? then st.got + [data] else st.got)
  }

  lemma ReadAcked(b: Ring, len: nat)
    requires Ok(b)
    ensures ReadMsg(b, len).0.acked <= ScanMsg(b).0.acked <= b.acked
  {
    hide SkipBad, FindMessage, PacketsOf, Payload, AfterRead;
    ScanFits(b);
  }

  ghost function Run(st: State, ops: seq<Op>, stream: seq<Packet>): (r: State)
    requires Ok(st.b)
    ensures Ok(r.b)
    decreases |ops|
  {
    if ops == [] then st else Run(Step(st, ops[0], stream), ops[1..], stream)
  }

  /** Position j has been given out: it lies behind the ring, or its slot is marked as read. */
  ghost predicate Spent(st: State, j: nat) {
    j < st.base || (j - st.base < |st.b.slots| && st.b.slots[j - st.base].Full? && st.b.slots[j - st.base].flag != 1)
  }

  ghost predicate RangesSpent(st: State) {
    forall i, j :: 0 <= i < |st.ranges| && st.ranges[i].0 <= j <= st.ranges[i].1 ==> Spent(st, j)
  }

  ghost predicate Overlap(r1: (nat, nat), r2: (nat, nat)) {
    r1.0 <= r2.1 && r2.0 <= r1.1
  }

  ghost predicate NoneTwice(ranges: seq<(nat, nat)>) {
    forall i, j :: 0 <= i < j < |ranges| ==> !Overlap(ranges[i], ranges[j])
  }

  ghost predicate AllWhole(stream: seq<Packet>, ranges: seq<(nat, nat)>) {
    forall i :: 0 <= i < |ranges| ==> WholeMessage(stream, ranges[i].0, ranges[i].1)
  }

  ghost predicate Invariant(st: State, stream: seq<Packet>) {
    && Ok(st.b) && Tracks(st.b.slots, st.base, stream)
    && AllWhole(stream, st.ranges) && NoneTwice(st.ranges) && RangesSpent(st)
  }

  lemma AddKeeps(st: State, offset: nat, stream: seq<Packet>)
    requires Invariant(st, stream)
    ensures Invariant(Step(st, Add(offset), stream), stream)
  {
    var after := Step(st, Add(offset), stream);
    forall j: nat | Spent(st, j)
      ensures Spent(after, j)
    {
    }
  }

  lemma DropKeeps(st: State, msgNo: Word, stream: seq<Packet>)
    requires Invariant(st, stream)
    ensures Invariant(Step(st, Drop(msgNo), stream), stream)
  {
    var after := Step(st, Drop(msgNo), stream);
    forall j: nat | Spent(st, j)
      ensures Spent(after, j)
    {
    }
  }

  lemma ScanShifts(b: Ring)
    requires Ok(b)
    ensures ScanMsg(b).0.acked <= b.acked && ShiftedBy(b.slots, b.acked - ScanMsg(b).0.acked, ScanMsg(b).0.slots)
  {
    hide SkipBad, ShiftedBy, FindMessage;
    SkipShifts(b);
    ShiftedNone(b.slots);
  }

  /** Moving the ring towards the reader forgets nothing that has been given out. */
  lemma SpentAfterShift(st: State, d: nat, b: Ring)
    requires RangesSpent(st) && ShiftedBy(st.b.slots, d, b.slots)
    ensures RangesSpent(st.(b := b, base := st.base + d))
  {
    var after := st.(b := b, base := st.base + d);
    forall j: nat | Spent(st, j)
      ensures Spent(after, j)
    {
      if j >= after.base {
        assert b.slots[j - after.base] == st.b.slots[j - st.base];
      }
    }
  }

  /** A run of unread packets overlaps nothing that has been given out. */
  lemma UnreadIsNew(st: State, p: nat, q: nat, stream: seq<Packet>)
    requires RangesSpent(st) && AllWhole(stream, st.ranges) && p <= q < |st.b.slots|
    requires forall i :: p <= i <= q ==> Ready(st.b.slots[i])
    ensures forall i :: 0 <= i < |st.ranges| ==> !Overlap(st.ranges[i], (st.base + p, st.base + q))
  {
    forall j: nat | st.base + p <= j <= st.base + q
      ensures !Spent(st, j)
    {
      assert Ready(st.b.slots[j - st.base]);
    }
    forall i | 0 <= i < |st.ranges|
      ensures !Overlap(st.ranges[i], (st.base + p, st.base + q))
    {
      var j := MaxNat(st.ranges[i].0, st.base + p);
      assert st.ranges[i].0 <= j <= st.ranges[i].1 ==> Spent(st, j);
    }
  }

  /** Marking a run of unread packets as read. */
  lemma MarkKeeps(st: State, p: nat, q: nat, stream: seq<Packet>)
    requires Invariant(st, stream) && p <= q < |st.b.slots|
    requires forall i :: p <= i <= q ==> Ready(st.b.slots[i])
    requires WholeMessage(stream, st.base + p, st.base + q)
    requires q < |st.b.slots| - 1
    ensures Invariant(st.(b := st.b.(slots := AfterRead(st.b.slots, p, q + 1, true)), ranges := st.ranges + [(st.base + p, st.base + q)]), stream)
  {
    hide IsFirst, IsLast;
    UnreadIsNew(st, p, q, stream);
    var after := st.(b := st.b.(slots := AfterRead(st.b.slots, p, q + 1, true)), ranges := st.ranges + [(st.base + p, st.base + q)]);
    forall j: nat | Spent(st, j)
      ensures Spent(after, j)
    {
    }
  }

  lemma FreedIsShifted(b: Ring, q: nat)
    requires q < b.acked <= |b.slots|
    ensures ShiftedBy(b.slots, q + 1, SkipTo(b.(slots := AfterRead(b.slots, 0, q + 1, false)), q).slots)
  {
    var freed := AfterRead(b.slots, 0, q + 1, false);
    var slots := SkipTo(b.(slots := freed), q).slots;
    forall k | 0 <= k < |slots|
      ensures slots[k] == if k + (q + 1) < |b.slots| then b.slots[k + (q + 1)] else Empty
    {
    }
  }

  /** Freeing a run of unread packets at the start of the ring. */
  lemma FreeKeeps(st: State, q: nat, stream: seq<Packet>)
    requires Invariant(st, stream) && q < st.b.acked
    requires forall i :: 0 <= i <= q ==> Ready(st.b.slots[i])
    requires WholeMessage(stream, st.base, st.base + q)
    ensures var b2 := st.b.(slots := AfterRead(st.b.slots, 0, q + 1, false));
            Invariant(State(SkipTo(b2, q), st.base + q + 1, st.ranges + [(st.base, st.base + q)], st.lens, st.got), stream)
  {
    hide IsFirst, IsLast, AfterRead, WholeMessage, Ready, MsgBoundary;
    FreedIsShifted(st.b, q);
    UnreadIsNew(st, 0, q, stream);
    var b2 := SkipTo(st.b.(slots := AfterRead(st.b.slots, 0, q + 1, false)), q);
    SpentAfterShift(st, q + 1, b2);
    FreedSpent(st.(b := b2, base := st.base + (q + 1)), st.base, q);
  }

  /** The slots in front of the ring have been given out. */
  lemma FreedSpent(st: State, from: nat, q: nat)
    requires RangesSpent(st) && st.base == from + q + 1
    ensures RangesSpent(st.(ranges := st.ranges + [(from, from + q)]))
  {
    var after := st.(ranges := st.ranges + [(from, from + q)]);
    forall j: nat | Spent(st, j) || from <= j <= from + q
      ensures Spent(after, j)
    {
    }
  }

  lemma BytesAside(st: State, lens: seq<nat>, got: seq<seq<byte>>, stream: seq<Packet>)
    requires Invariant(st, stream)
    ensures Invariant(st.(lens := lens, got := got), stream)
  {
    var after := st.(lens := lens, got := got);
    forall j: nat | Spent(st, j)
      ensures Spent(after, j)
    {
    }
  }

  /** The message from f to t has been given out, as far as it fits. */
  ghost predicate GivesOut(st: State, after: State, stream: seq<Packet>, f: nat, t: nat, len: nat) {
    && WholeMessage(stream, f, t)
    && after.ranges == st.ranges + [(f, t)]
    && after.lens == st.lens + [len]
    && after.got == st.got + [Take(Payload(stream[f..t + 1]), len)]
  }

  /** A read keeps the invariant; what it adds is one whole message, and the bytes of that message as far as they fit. */
  lemma ReadKeeps(st: State, len: nat, stream: seq<Packet>)
    requires Invariant(st, stream) && WellFormed(stream)
    ensures var after := Step(st, Read(len), stream);
            && Invariant(after, stream)
            && ((after.ranges == st.ranges && after.lens == st.lens && after.got == st.got) || exists f: nat, t: nat :: GivesOut(st, after, stream, f, t, len))
  {
    hide Tracks, AllWhole, NoneTwice, RangesSpent, WholeMessage, ShiftedBy, ScanMsg, ReadMsg, Payload, PacketsOf, Take, SkipTo, AfterRead;
    var (b1, s) := ScanMsg(st.b);
    var d := st.b.acked - b1.acked;
    FoundIsWhole(st.b, st.base, stream);
    ScanShifts(st.b);
    SpentAfterShift(st, d, b1);
    var st1 := st.(b := b1, base := st.base + d);
    var after := Step(st, Read(len), stream);
    ReadShape(st, len, b1, s);
    if s.Found? {
      EndNotLast(b1, s);
      RunPackets(b1.slots, st1.base, stream, s.p, s.q);
      if s.passack {
        MarkKeeps(st1, s.p, s.q, stream);
        BytesAside(st1.(b := after.b, ranges := after.ranges), after.lens, after.got, stream);
      } else {
        FreeKeeps(st1, s.q, stream);
        BytesAside(State(after.b, after.base, after.ranges, st1.lens, st1.got), after.lens, after.got, stream);
      }
      assert GivesOut(st, after, stream, st1.base + s.p, st1.base + s.q, len);
    }
  }

  lemma EndNotLast(b: Ring, s: Search)
    requires Ok(b) && Fits(b, s) && s.Found?
    ensures s.q < |b.slots| - 1 && forall i :: s.p <= i < s.q + 1 ==> b.slots[i].Full?
  {
    assert Ready(b.slots[s.q]);
    assert forall i :: s.p <= i < s.q + 1 ==> Ready(b.slots[i]);
  }

  /** The state after reading the message that a search found. */
  ghost function AfterFound(st: State, b1: Ring, base1: nat, s: Search, len: nat): State
    requires Fits(b1, s) && s.Found? && b1.acked <= |b1.slots|
  {
    assert forall i :: s.p <= i < s.q + 1 ==> Ready(b1.slots[i]);
    var b2 := b1.(slots := AfterRead(b1.slots, s.p, s.q + 1, s.passack));
    State(if s.passack then b2 else SkipTo(b2, s.q), if s.passack then base1 else base1 + s.q + 1,
          st.ranges + [(base1 + s.p, base1 + s.q)], st.lens + [len], st.got + [Take(Payload(PacketsOf(b1.slots, s.p, s.q + 1)), len)])
  }

  /** What one read makes of the state. */
  lemma ReadShape(st: State, len: nat, b1: Ring, s: Search)
    requires Ok(st.b) && (b1, s) == ScanMsg(st.b)
    ensures b1.acked <= st.b.acked && Ok(b1) && Fits(b1, s)
    ensures ReadStep(st, len) == var base1 := st.base + (st.b.acked - b1.acked);
                                 if s.Found? then AfterFound(st, b1, base1, s, len) else State(b1, base1, st.ranges, st.lens, st.got)
  {
    hide ScanMsg, Take, Payload, PacketsOf, AfterRead, Ok;
    ScanFits(st.b);
    ReadAcked(st.b, len);
    if s.Found? {
      assert forall i :: s.p <= i < s.q + 1 ==> Ready(b1.slots[i]);
    }
  }

  lemma RunPackets(slots: seq<Slot>, base: nat, stream: seq<Packet>, p: nat, q: nat)
    requires Tracks(slots, base, stream) && p <= q < |slots|
    requires forall i :: p <= i <= q ==> Ready(slots[i])
    ensures forall i :: p <= i < q + 1 ==> slots[i].Full?
    ensures base + q < |stream| && PacketsOf(slots, p, q + 1) == stream[base + p..base + q + 1]
  {
    assert Ready(slots[q]);
    assert forall i :: p <= i < q + 1 ==> Ready(slots[i]);
  }

  lemma AckKeeps(st: State, len: nat, stream: seq<Packet>)
    requires Invariant(st, stream)
    ensures Invariant(Step(st, Ack(len), stream), stream)
  {
    var after := Step(st, Ack(len), stream);
    forall j: nat {:trigger Spent(after, j)} | Spent(st, j)
      ensures Spent(after, j)
    {
    }
  }

  lemma StepKeeps(st: State, op: Op, stream: seq<Packet>)
    requires Invariant(st, stream) && WellFormed(stream)
    ensures Invariant(Step(st, op, stream), stream)
  {
    hide Invariant;
    match op
    case Add(offset) => AddKeeps(st, offset, stream);
    case Ack(len) => AckKeeps(st, len, stream);
    case Drop(msgNo) => DropKeeps(st, msgNo, stream);
    case Read(len) => ReadKeeps(st, len, stream);
  }

  /** The bytes given out for each range are those of its packets, as far as they fit into the reader's buffer. */
  ghost predicate GaveBytes(st: State, stream: seq<Packet>) {
    && |st.got| == |st.lens| == |st.ranges|
    && AllWhole(stream, st.ranges)
    && forall i :: 0 <= i < |st.got| ==> st.got[i] == Take(Payload(stream[st.ranges[i].0..st.ranges[i].1 + 1]), st.lens[i])
  }

  lemma StepGives(st: State, op: Op, stream: seq<Packet>)
    requires Invariant(st, stream) && WellFormed(stream) && GaveBytes(st, stream)
    ensures GaveBytes(Step(st, op, stream), stream)
  {
    assert Ok(st.b);
    hide Invariant, AllWhole, Payload;
    if op.Read? {
      ReadKeeps(st, op.len, stream);
      hide Step;
      var after := Step(st, op, stream);
      StepKeeps(st, op, stream);
      if !(after.ranges == st.ranges && after.lens == st.lens && after.got == st.got) {
        var f: nat, t: nat :| GivesOut(st, after, stream, f, t, op.len);
        GivesMore(st, after, stream, f, t, op.len);
      }
    }
  }

  lemma GivesMore(st: State, after: State, stream: seq<Packet>, f: nat, t: nat, len: nat)
    requires GaveBytes(st, stream) && GivesOut(st, after, stream, f, t, len)
    ensures GaveBytes(after, stream)
  {
    hide IsFirst, IsLast, Payload, Take;
    forall i | 0 <= i < |after.got|
      ensures after.got[i] == Take(Payload(stream[after.ranges[i].0..after.ranges[i].1 + 1]), after.lens[i])
    {
      if i < |st.got| {
        assert after.got[i] == st.got[i] && after.ranges[i] == st.ranges[i] && after.lens[i] == st.lens[i];
      }
    }
  }

  /** At most once, and only whole messages: whatever is stored in whatever order, acknowledged, marked as dropped and
      read - ordered and unordered messages mixed - every range of packets given to the reader is exactly one message
      of the stream, its bytes are that message's, and no packet is ever given out twice. */
  lemma {:induction false} AtMostOnceFrom(st: State, ops: seq<Op>, stream: seq<Packet>)
    requires Invariant(st, stream) && WellFormed(stream) && GaveBytes(st, stream)
    ensures var after := Run(st, ops, stream);
            AllWhole(stream, after.ranges) && NoneTwice(after.ranges) && GaveBytes(after, stream)
    decreases |ops|
  {
    hide Step, GaveBytes;
    if ops != [] {
      StepKeeps(st, ops[0], stream);
      StepGives(st, ops[0], stream);
      AtMostOnceFrom(Step(st, ops[0], stream), ops[1..], stream);
    }
  }

  lemma AtMostOnce(size: nat, ops: seq<Op>, stream: seq<Packet>)
    requires size > 0 && WellFormed(stream)
    ensures var after := Run(Start(size), ops, stream);
            AllWhole(stream, after.ranges) && NoneTwice(after.ranges) && GaveBytes(after, stream)
  {
    hide Run, WellFormed;
    AtMostOnceFrom(Start(size), ops, stream);
  }

  // ----- in-order delivery

  /** Everything acknowledged is there, unread, and all messages are to be delivered in order. */
  ghost predicate AllThere(b: Ring, base: nat, stream: seq<Packet>) {
    && Ok(b) && Tracks(b.slots, base, stream) && WellFormed(stream)
    && (forall k :: 0 <= k < b.acked ==> Ready(b.slots[k]))
    && (forall i :: 0 <= i < |stream| ==> InOrder(stream[i]))
    && (base == 0 || (base <= |stream| && IsLast(stream[base - 1])))
  }

  lemma {:induction false} AllReadyIsGood(slots: seq<Slot>, k: nat, acked: nat)
    requires acked <= |slots| && forall i :: 0 <= i < acked ==> Ready(slots[i])
    ensures GoodAhead(slots, k, acked)
    decreases acked - k
  {
    hide MsgBoundary;
    if k < acked {
      AllReadyIsGood(slots, k + 1, acked);
    }
  }

  ghost predicate EndsAt(slots: seq<Slot>, t: nat) {
    t < |slots| && Ready(slots[t]) && IsLast(slots[t].packet)
  }

  /** If a message ends in the acknowledged part, the search finds one. */
  lemma {:induction false} FindComplete(slots: seq<Slot>, acked: nat, n: nat, k: nat, p: int, t: nat)
    requires n < |slots| && k <= n + 1 && -1 <= p < k && acked <= n + 1
    requires forall i :: 0 <= i < acked ==> Ready(slots[i])
    requires k <= t < acked && EndsAt(slots, t)
    requires p == -1 ==> Ready(slots[k]) && IsFirst(slots[k].packet)
    ensures FindMessage(slots, acked, n, k, p).Found?
    decreases n + 1 - k
  {
    if p == -1 {
      FirstBoundary(slots[k].packet);
    }
    if !Completes(slots[k], p) {
      FindComplete(slots, acked, n, k + 1, StartAfter(slots[k], k, p), t);
    }
  }

  /** The search in an unbroken acknowledged part. */
  lemma FindsInOrder(b: Ring, base: nat, stream: seq<Packet>)
    requires AllThere(b, base, stream)
    ensures var (b1, s) := ScanMsg(b);
            && b1 == b && Fits(b, s)
            && (s.Found? <==> exists t :: 0 <= t < b.acked && EndsAt(b.slots, t))
            && (s.Found? ==> !s.passack && s.p == 0 && s.q < b.acked && WholeMessage(stream, base, base + s.q))
  {
    hide MsgBoundary, MsgOrderFlag, WholeMessage;
    var n := b.acked + b.maxPos;
    if b.acked > 0 {
      AllReadyIsGood(b.slots, 0, b.acked);
      assert Ready(b.slots[0]);
    }
    var s := ScanMsg(b).1;
    FoundRun(b.slots, b.acked, n, 0, -1);
    FoundIsWhole(b, base, stream);
    if s.Found? {
      assert Ready(b.slots[s.q]) && stream[base + s.q] == b.slots[s.q].packet;
      assert EndsAt(b.slots, s.q);
    }
    if t :| 0 <= t < b.acked && EndsAt(b.slots, t) {
      FindComplete(b.slots, b.acked, n, 0, -1, t);
    }
  }

  /** The message from position base to slot q has been read: the reader is given its bytes, as far as they fit, and
      the start position moves right behind it. */
  ghost predicate NextRead(b: Ring, base: nat, stream: seq<Packet>, len: nat, q: nat, b2: Ring, data: seq<byte>) {
    && q < b.acked
    && WholeMessage(stream, base, base + q)
    && data == Take(Payload(stream[base..base + q + 1]), len)
    && AllThere(b2, base + q + 1, stream)
    && b2.acked == b.acked - (q + 1) && b2.maxPos == b.maxPos && ShiftedBy(b.slots, q + 1, b2.slots)
  }

  /** Reading in order: the reader is given the next message of the stream as soon as all of it is acknowledged; until
      then nothing changes. */
  lemma ReadsNext(b: Ring, base: nat, stream: seq<Packet>, len: nat)
    requires AllThere(b, base, stream)
    ensures var (b2, data) := ReadMsg(b, len);
            if exists t :: 0 <= t < b.acked && EndsAt(b.slots, t) then
              exists q: nat :: NextRead(b, base, stream, len, q, b2, data)
            else b2 == b && data == []
  {
    FindsInOrder(b, base, stream);
    hide ScanMsg, EndsAt, WholeMessage, AllThere, Payload, PacketsOf, Take, NextRead;
    var (b2, data) := ReadMsg(b, len);
    var s := ScanMsg(b).1;
    if s.Found? {
      TakesNext(b, base, stream, len, s);
      assert NextRead(b, base, stream, len, s.q, b2, data);
    }
  }

  lemma TakesNext(b: Ring, base: nat, stream: seq<Packet>, len: nat, s: Search)
    requires AllThere(b, base, stream) && Fits(b, s) && s.Found?
    requires !s.passack && s.p == 0 && WholeMessage(stream, base, base + s.q)
    ensures var (b2, data) := CopyRun(b, s, len);
            s.q < b.acked && NextRead(b, base, stream, len, s.q, SkipTo(b2, s.q), data)
  {
    hide IsFirst, IsLast, InOrder, Payload, Take;
    RunPackets(b.slots, base, stream, 0, s.q);
    var b2 := SkipTo(CopyRun(b, s, len).0, s.q);
    assert ShiftedBy(b.slots, s.q + 1, b2.slots);
    forall k | 0 <= k < b2.acked
      ensures Ready(b2.slots[k])
    {
      assert Ready(b.slots[k + s.q + 1]);
    }
  }
}
