/** What a read finds, exactly: when there is a message for the reader, in which order messages are taken, and that none
    that has come is passed over. */
module Findings {
  import opened Packets
  import opened RcvRing
  import opened Delivery

  /** Slots p to q hold a message that nobody has read, and that may be handed over: all of it is there, and its end has been
      acknowledged or it need not be kept in order. */
  ghost predicate Readable(slots: seq<Slot>, acked: nat, p: nat, q: nat) {
    && p <= q < |slots|
    && (forall i :: p <= i <= q ==> Ready(slots[i]) && (IsFirst(slots[i].packet) <==> i == p))
    && IsLast(slots[q].packet) && (q < acked || !InOrder(slots[q].packet))
  }

  /** The end of a message that has started at c is recognized, with the start that the search has noted. */
  lemma EndSeen(slots: seq<Slot>, acked: nat, c: nat, q: nat, p: int)
    requires Readable(slots, acked, c, q) && (c == q || p == c)
    ensures Completes(slots[q], p)
  {
    assert Ready(slots[q]);
  }

  /** The search comes to an end no later than at a readable message whose start it has noted or is still to come to. */
  lemma {:induction false} FindsBy(slots: seq<Slot>, acked: nat, n: nat, k: nat, p: int, c: nat, q: nat)
    requires n < |slots| && k <= q <= n && -1 <= p < k && (k <= c || p == c)
    requires Readable(slots, acked, c, q)
    ensures var r := FindMessage(slots, acked, n, k, p); r.Found? && r.q <= q
    decreases n - k
  {
    hide MsgBoundary, MsgOrderFlag;
    if k == q {
      EndSeen(slots, acked, c, q, p);
    } else {
      assert c <= k ==> Ready(slots[k]) && (IsFirst(slots[k].packet) <==> k == c);
      FindsBy(slots, acked, n, k + 1, StartAfter(slots[k], k, p), c, q);
    }
  }

  /** The search finds a message exactly if one is readable within its reach, and then the one that ends first. */
  lemma FindsExactly(slots: seq<Slot>, acked: nat, n: nat)
    requires n < |slots|
    ensures var r := FindMessage(slots, acked, n, 0, -1);
            && (r.Found? <==> exists p: nat, q: nat :: q <= n && Readable(slots, acked, p, q))
            && (r.Found? ==> Readable(slots, acked, r.p, r.q) && r.q <= n && r.passack == (r.q >= acked))
            && forall p: nat, q: nat :: q <= n && Readable(slots, acked, p, q) ==> r.Found? && r.q <= q
  {
    FoundRun(slots, acked, n, 0, -1);
    var r := FindMessage(slots, acked, n, 0, -1);
    hide FindMessage, IsFirst, IsLast, InOrder;
    if r.Found? {
      assert Ready(slots[r.q]);
      assert Readable(slots, acked, r.p, r.q);
    }
    forall p: nat, q: nat | q <= n && Readable(slots, acked, p, q)
      ensures r.Found? && r.q <= q
    {
      FindsBy(slots, acked, n, 0, -1, p, q);
    }
  }

  /** What the source's first test asks: nothing has been acknowledged that is unread, and nothing lies behind the first
      slot. */
  predicate LooksEmpty(b: Ring) {
    b.acked == 0 && b.maxPos == 0
  }

  /** From slot c up to slot end there is the beginning of one message, unread. */
  ghost predicate Begun(slots: seq<Slot>, c: nat, end: nat) {
    c < end <= |slots| && forall i :: c <= i < end ==> Ready(slots[i]) && (IsFirst(slots[i].packet) <==> i == c)
  }

  /** p is where the last message begins whose beginning, up to slot k, is all there; -1 if there is none. */
  ghost predicate Notes(slots: seq<Slot>, k: nat, p: int) {
    -1 <= p < k && forall c: nat :: c < k ==> (c == p <==> Begun(slots, c, k))
  }

  lemma NotesMore(slots: seq<Slot>, k: nat, p: int)
    requires k < |slots| && Notes(slots, k, p)
    ensures Notes(slots, k + 1, StartAfter(slots[k], k, p))
  {
    var p1, next := StartAfter(slots[k], k, p), k + 1;
    forall c: nat | c < next
      ensures c == p1 <==> Begun(slots, c, next)
    {
      BegunMore(slots, c, k);
    }
    assert Notes(slots, next, p1);
  }

  lemma BegunMore(slots: seq<Slot>, c: nat, k: nat)
    requires c <= k < |slots|
    ensures Begun(slots, c, k + 1) <==> Ready(slots[k]) && if c == k then IsFirst(slots[k].packet) else Begun(slots, c, k) && !IsFirst(slots[k].packet)
  {
    hide IsFirst;
  }

  /** A search that ends without a message has noted where an unfinished one begins. */
  lemma {:induction false} EndsWith(slots: seq<Slot>, acked: nat, n: nat, k: nat, p: int)
    requires n < |slots| && k <= n + 1 && Notes(slots, k, p)
    ensures var r := FindMessage(slots, acked, n, k, p); r.Ended? ==> Notes(slots, n + 1, r.start)
    decreases n + 1 - k
  {
    hide MsgBoundary, MsgOrderFlag, Completes, IsFirst, Notes;
    NotesBound(slots, k, p);
    if k <= n {
      NotesMore(slots, k, p);
      EndsWith(slots, acked, n, k + 1, StartAfter(slots[k], k, p));
    }
  }

  lemma NotesBound(slots: seq<Slot>, k: nat, p: int)
    requires Notes(slots, k, p)
    ensures -1 <= p < k
  {
  }

  /** When a scan is reported to have found something: when it has, or when the beginning of one message fills all slots but
      one. */
  lemma ReportedExactly(b: Ring)
    requires Ok(b)
    ensures var (b1, s) := ScanMsg(b);
            Reported(b1, s) <==> s.Found? || (!LooksEmpty(b) && b1.acked + b1.maxPos + 2 == |b1.slots| && Begun(b1.slots, 0, |b1.slots| - 1))
  {
    hide SkipBad, FindMessage, Begun;
    var b1 := ScanMsg(b).0;
    if !LooksEmpty(b) && ScanMsg(b).1.Ended? {
      EndsWith(b1.slots, b1.acked, b1.acked + b1.maxPos, 0, -1);
    }
  }

  // ----- nothing readable is skipped

  /** From the start of a message of which nothing is missing in the acknowledged part, the look-ahead is content. */
  lemma {:induction false} GoodUpTo(slots: seq<Slot>, k: nat, acked: nat, q: nat)
    requires acked <= |slots| && q < |slots| && k <= q
    requires (forall i :: k <= i <= q ==> Ready(slots[i])) && Ready(slots[q]) && IsLast(slots[q].packet)
    ensures GoodAhead(slots, k, acked)
    decreases q - k
  {
    hide IsLast;
    if k < q {
      GoodUpTo(slots, k + 1, acked, q);
    }
  }

  /** Giving up slots stops where a readable message starts. */
  lemma {:induction false} SkipSpares(b: Ring, p: nat, q: nat)
    requires Ok(b) && Readable(b.slots, b.acked, p, q)
    ensures b.acked - SkipBad(b).acked <= p
    decreases b.acked
  {
    hide IsFirst, IsLast, InOrder, GoodAhead;
    if b.acked > 0 {
      if p == 0 {
        GoodUpTo(b.slots, 0, b.acked, q);
        assert Ready(b.slots[0]);
      } else if !Keeps(b) {
        ReadableShifts(b, p, q);
        SkipSpares(Shift(b), p - 1, q - 1);
      }
    }
  }

  lemma ReadableShifts(b: Ring, p: nat, q: nat)
    requires Ok(b) && b.acked > 0 && p > 0 && Readable(b.slots, b.acked, p, q)
    ensures Readable(Shift(b).slots, Shift(b).acked, p - 1, q - 1)
  {
    hide IsFirst, IsLast, InOrder;
    assert forall i :: p <= i <= q ==> Shift(b).slots[i - 1] == b.slots[i];
    assert Ready(b.slots[q]);
  }

  /** A message stays readable when the ring is moved by d slots, and was readable before. */
  lemma ReadableMoves(slots: seq<Slot>, acked: nat, d: nat, moved: seq<Slot>, p: nat, q: nat)
    requires ShiftedBy(slots, d, moved) && d <= acked
    ensures Readable(moved, acked - d, p, q) <==> Readable(slots, acked, p + d, q + d)
  {
    hide IsFirst, IsLast, InOrder;
    if Readable(moved, acked - d, p, q) {
      assert Ready(moved[q]) && slots[q + d] == moved[q];
      forall i | p + d <= i <= q + d
        ensures Ready(slots[i]) && (IsFirst(slots[i].packet) <==> i == p + d)
      {
        assert Ready(moved[i - d]) && slots[i] == moved[i - d];
      }
    }
    if Readable(slots, acked, p + d, q + d) {
      assert Ready(slots[q + d]) && moved[q] == slots[q + d];
      forall i | p <= i <= q
        ensures Ready(moved[i]) && (IsFirst(moved[i].packet) <==> i == p)
      {
        assert Ready(slots[i + d]) && moved[i] == slots[i + d];
      }
    }
  }

  /** A scan finds a message exactly if one is readable and the ring does not look empty; then it is the one that ends
      first. */
  lemma ScanExactly(b: Ring)
    requires Ok(b)
    ensures var (b1, s) := ScanMsg(b);
            && b1.acked <= b.acked
            && (s.Found? <==> !LooksEmpty(b) && exists p: nat, q: nat :: q <= b.acked + b.maxPos && Readable(b.slots, b.acked, p, q))
            && (s.Found? ==> forall p: nat, q: nat :: q <= b.acked + b.maxPos && Readable(b.slots, b.acked, p, q) ==> b.acked - b1.acked + s.q <= q)
  {
    hide ScanMsg, Readable;
    ScanAcked(b);
    if LooksEmpty(b) {
      EmptyFindsNothing(b);
    } else {
      ScanFound(b);
      forall p: nat, q: nat | q <= b.acked + b.maxPos && Readable(b.slots, b.acked, p, q)
        ensures ScanMsg(b).1.Found? && b.acked - ScanMsg(b).0.acked + ScanMsg(b).1.q <= q
      {
        ScanFindsBy(b, p, q);
      }
    }
  }

  lemma ScanAcked(b: Ring)
    requires Ok(b)
    ensures ScanMsg(b).0.acked <= b.acked
  {
    hide SkipBad, FindMessage;
  }

  lemma EmptyFindsNothing(b: Ring)
    requires Ok(b) && LooksEmpty(b)
    ensures ScanMsg(b) == (b, Ended(-1))
  {
    hide SkipBad, FindMessage;
  }

  lemma ScanFindsBy(b: Ring, p: nat, q: nat)
    requires Ok(b) && !LooksEmpty(b) && q <= b.acked + b.maxPos && Readable(b.slots, b.acked, p, q)
    ensures var (b1, s) := ScanMsg(b); s.Found? && b1.acked <= b.acked && b.acked - b1.acked + s.q <= q
  {
    hide Ok, SkipBad, FindMessage, Readable, ShiftedBy;
    var b1 := ScanMsg(b).0;
    var d := b.acked - b1.acked;
    SkipShifts(b);
    OkReach(b1);
    SkipSpares(b, p, q);
    ReadableOrder(b.slots, b.acked, p, q);
    ReadableMoves(b.slots, b.acked, d, b1.slots, p - d, q - d);
    FindsExactly(b1.slots, b1.acked, b1.acked + b1.maxPos);
  }

  lemma ScanFound(b: Ring)
    requires Ok(b) && !LooksEmpty(b)
    ensures var (b1, s) := ScanMsg(b);
            s.Found? ==> b1.acked <= b.acked
                         && var d := b.acked - b1.acked; s.q + d <= b.acked + b.maxPos && Readable(b.slots, b.acked, s.p + d, s.q + d)
  {
    hide Ok, SkipBad, FindMessage, Readable, ShiftedBy;
    var (b1, s) := ScanMsg(b);
    SkipShifts(b);
    OkReach(b1);
    FindsExactly(b1.slots, b1.acked, b1.acked + b1.maxPos);
    if s.Found? {
      ReadableMoves(b.slots, b.acked, b.acked - b1.acked, b1.slots, s.p, s.q);
    }
  }

  lemma OkReach(b: Ring)
    requires Ok(b)
    ensures b.acked + b.maxPos < |b.slots|
  {
  }

  lemma ReadableOrder(slots: seq<Slot>, acked: nat, p: nat, q: nat)
    requires Readable(slots, acked, p, q)
    ensures p <= q < |slots|
  {
  }

  // ----- over runs

  /** No packet lies behind the furthest position. */
  ghost predicate Reaches(b: Ring) {
    forall k :: b.acked + b.maxPos < k < |b.slots| ==> b.slots[k] == Empty
  }

  lemma ReachesMoved(b: Ring, d: nat, b1: Ring)
    requires Reaches(b) && ShiftedBy(b.slots, d, b1.slots) && b1.acked + d == b.acked && b1.maxPos == b.maxPos
    ensures Reaches(b1)
  {
    forall k | b1.acked + b1.maxPos < k < |b1.slots|
      ensures b1.slots[k] == Empty
    {
      assert b1.slots[k] == if k + d < |b.slots| then b.slots[k + d] else Empty;
    }
  }

  lemma ReachesRead(st: State, len: nat, stream: seq<Packet>)
    requires Invariant(st, stream) && WellFormed(stream) && Reaches(st.b)
    ensures Reaches(Step(st, Read(len), stream).b)
  {
    hide Tracks, AllWhole, NoneTwice, RangesSpent, WholeMessage, ShiftedBy, ScanMsg, ReadMsg, Payload, PacketsOf, Take, SkipTo, AfterRead, Reaches;
    var (b1, s) := ScanMsg(st.b);
    FoundIsWhole(st.b, st.base, stream);
    ScanShifts(st.b);
    SameReach(st.b);
    ReachesMoved(st.b, st.b.acked - b1.acked, b1);
    ReadShape(st, len, b1, s);
    if s.Found? {
      EndNotLast(b1, s);
      if s.passack {
        ReachesMarked(b1, s.p, s.q + 1);
      } else {
        FreedIsShifted(b1, s.q);
        var b2 := SkipTo(b1.(slots := AfterRead(b1.slots, 0, s.q + 1, false)), s.q);
        assert b2.acked + (s.q + 1) == b1.acked && b2.maxPos == b1.maxPos by { SkipToCounts(b1.(slots := AfterRead(b1.slots, 0, s.q + 1, false)), s.q); }
        ReachesMoved(b1, s.q + 1, b2);
      }
    }
  }

  lemma SameReach(b: Ring)
    requires Ok(b)
    ensures ScanMsg(b).0.maxPos == b.maxPos
  {
    hide SkipBad, FindMessage;
  }

  lemma SkipToCounts(b: Ring, q: nat)
    requires q < b.acked <= |b.slots|
    ensures SkipTo(b, q).acked == b.acked - (q + 1) && SkipTo(b, q).maxPos == b.maxPos
  {
  }

  lemma ReachesMarked(b: Ring, p: nat, end: nat)
    requires Reaches(b) && p <= end <= |b.slots| && forall i :: p <= i < end ==> b.slots[i].Full?
    ensures Reaches(b.(slots := AfterRead(b.slots, p, end, true)))
  {
  }

  lemma ReachesStep(st: State, op: Op, stream: seq<Packet>)
    requires Invariant(st, stream) && WellFormed(stream) && Reaches(st.b)
    ensures Reaches(Step(st, op, stream).b)
  {
    match op
    case Read(len) => ReachesRead(st, len, stream);
    case _ => hide ScanMsg, ReadMsg;
  }

  lemma {:induction false} ReachesFrom(st: State, ops: seq<Op>, stream: seq<Packet>)
    requires Invariant(st, stream) && WellFormed(stream) && Reaches(st.b)
    ensures var st1 := Run(st, ops, stream); Invariant(st1, stream) && Reaches(st1.b)
    decreases |ops|
  {
    hide Invariant, WellFormed, Reaches, Step;
    if ops != [] {
      InvariantOk(st, stream);
      StepKeeps(st, ops[0], stream);
      ReachesStep(st, ops[0], stream);
      ReachesFrom(Step(st, ops[0], stream), ops[1..], stream);
    }
  }

  lemma InvariantOk(st: State, stream: seq<Packet>)
    requires Invariant(st, stream)
    ensures Ok(st.b)
  {
  }

  /** Slots p to q hold one whole message of the stream, unread, and it has been acknowledged or need not be kept in order. */
  ghost predicate Waits(st: State, stream: seq<Packet>, p: nat, q: nat) {
    && p <= q < |st.b.slots| && WholeMessage(stream, st.base + p, st.base + q)
    && (forall i :: p <= i <= q ==> Ready(st.b.slots[i]))
    && (q < st.b.acked || !InOrder(stream[st.base + q]))
  }

  lemma WaitsIsReadable(st: State, stream: seq<Packet>, p: nat, q: nat)
    requires Invariant(st, stream) && WellFormed(stream)
    ensures Waits(st, stream, p, q) <==> Readable(st.b.slots, st.b.acked, p, q)
  {
    hide IsFirst, IsLast, InOrder, AllWhole, NoneTwice, RangesSpent, Ok;
    if Waits(st, stream, p, q) {
      forall i | p <= i <= q
        ensures Ready(st.b.slots[i]) && st.b.slots[i].packet == stream[st.base + i]
      {
      }
    }
    if Readable(st.b.slots, st.b.acked, p, q) {
      assert Ready(st.b.slots[q]);
      MessageFound(st.b.slots, st.base, stream, p, q);
    }
  }

  /** In every run, ordered and unordered messages mixed: a read hands a message over exactly if one is there, unread, that
      has been acknowledged or need not be kept in order, except while the ring looks empty; and of several, the one that
      ends first. */
  lemma ReadsExactly(size: nat, ops: seq<Op>, stream: seq<Packet>, len: nat)
    requires size > 0 && WellFormed(stream)
    ensures var st := Run(Start(size), ops, stream);
            var st1 := Step(st, Read(len), stream);
            && (|st1.ranges| == |st.ranges| + 1 || st1.ranges == st.ranges)
            && (|st1.ranges| > |st.ranges| <==> !LooksEmpty(st.b) && exists p: nat, q: nat :: Waits(st, stream, p, q))
            && (|st1.ranges| > |st.ranges| ==>
                  forall p: nat, q: nat :: Waits(st, stream, p, q) ==> st1.ranges[|st.ranges|].1 <= st.base + q)
  {
    StartReaches(size, stream);
    ReachesFrom(Start(size), ops, stream);
    var st := Run(Start(size), ops, stream);
    var (b1, s) := ScanMsg(st.b);
    ReadShape(st, len, b1, s);
    ScanExactly(st.b);
    hide Run, Start, Invariant, WellFormed, Readable, Waits, ScanMsg, LooksEmpty, Take, Payload, PacketsOf, AfterRead, SkipTo;
    forall p: nat, q: nat
      ensures Waits(st, stream, p, q) <==> q <= st.b.acked + st.b.maxPos && Readable(st.b.slots, st.b.acked, p, q)
    {
      WaitsIsReadable(st, stream, p, q);
      if Readable(st.b.slots, st.b.acked, p, q) {
        WithinReach(st.b, p, q);
      }
    }
    assert Step(st, Read(len), stream) == ReadStep(st, len);
  }

  lemma WithinReach(b: Ring, p: nat, q: nat)
    requires Reaches(b) && Readable(b.slots, b.acked, p, q)
    ensures q <= b.acked + b.maxPos
  {
    assert Ready(b.slots[q]);
  }

  lemma StartReaches(size: nat, stream: seq<Packet>)
    requires size > 0
    ensures Invariant(Start(size), stream) && Reaches(Start(size).b)
  {
  }

  /** The exception does happen: a message of one packet that need not be kept in order, and that comes first, is not handed
      over before it is acknowledged or something comes behind it. */
  lemma FirstAloneWaits(size: nat, p: Packet, len: nat)
    requires size > 2 && IsFirst(p) && IsLast(p) && !InOrder(p)
    ensures WellFormed([p])
    ensures var st := Run(Start(size), [Add(0)], [p]);
            && Waits(st, [p], 0, 0) && Step(st, Read(len), [p]).ranges == []
            && |Step(Step(st, Ack(1), [p]), Read(len), [p]).ranges| == 1
  {
    hide IsFirst, IsLast, InOrder, Run, Step;
    RunTwo(Start(size), Add(0), Ack(1), [p]);
    FirstStored(size, p);
    ReadsExactly(size, [Add(0)], [p], len);
    ReadsExactly(size, [Add(0), Ack(1)], [p], len);
    var st1 := Step(Run(Start(size), [Add(0)], [p]), Ack(1), [p]);
    assert Waits(st1, [p], 0, 0);
  }

  /** Storing the packet, and acknowledging it. */
  lemma FirstStored(size: nat, p: Packet)
    requires size > 2
    ensures var slots := EmptyRing(size).slots[0 := Full(1, p)];
            var st := State(Ring(slots, 0, 0), 0, [], [], []);
            && Step(Start(size), Add(0), [p]) == st && Step(st, Ack(1), [p]) == State(Ring(slots, 1, 0), 0, [], [], [])
  {
  }

  lemma RunTwo(st: State, a: Op, b: Op, stream: seq<Packet>)
    requires Ok(st.b)
    ensures Run(st, [a, b], stream) == Step(Step(st, a, stream), b, stream) && Run(st, [a], stream) == Step(st, a, stream)
  {
    hide Step;
    assert [a, b][1..] == [b] && [b][1..] == [] && [a][1..] == [];
    var st1 := Step(st, a, stream);
    assert Run(st, [a, b], stream) == Run(st1, [b], stream);
  }
}
