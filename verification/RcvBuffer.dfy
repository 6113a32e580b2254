/** The receiver's buffer (buffer.cpp, class CRcvBuffer): an array of slots for units of the shared pool, read as a ring
    from the start position on.  Every method is proved to do to the ring what the functions of RcvRing say, and to
    keep the pool's account of units in use. */
module RcvBuffers {
  import opened Circular
  import opened Packets
  import opened RcvRing
  import opened UnitQueues

  /** The array contents, read as a ring from start on. */
  function View(content: seq<Slot>, start: int): (slots: seq<Slot>)
    requires 0 <= start < |content|
    ensures |slots| == |content|
    ensures forall k :: 0 <= k < |content| ==> slots[k] == content[Pos(start, k, |content|)]
  {
    content[start..] + content[..start]
  }

  lemma ViewUpdate(content: seq<Slot>, start: int, k: int, s: Slot)
    requires 0 <= start < |content| && 0 <= k < |content|
    ensures View(content[Pos(start, k, |content|) := s], start) == View(content, start)[k := s]
  {
  }

  lemma ViewAdvance(content: seq<Slot>, start: int, n: int)
    requires 0 <= start < |content| && 0 <= n <= |content|
    ensures View(content, if n == |content| then start else Pos(start, n, |content|)) == View(content, start)[n..] + View(content, start)[..n]
  {
  }

  /** Storing a packet, in terms of the array. */
  lemma RingAdd(content: seq<Slot>, start: int, last: int, maxPos: nat, p: Packet, offset: nat)
    requires 0 <= start < |content| && 0 <= last < |content|
    requires Ok(Ring(View(content, start), Distance(start, last, |content|), maxPos))
    requires Distance(start, last, |content|) + offset < |content| - 1
    ensures 0 <= Pos(last, offset, |content|) < |content|
    ensures var acked, pos := Distance(start, last, |content|), Pos(last, offset, |content|);
            var r := RcvRing.AddData(Ring(View(content, start), acked, maxPos), p, offset);
            && r == (if content[pos].Full? then (Ring(View(content, start), acked, MaxNat(maxPos, offset)), false)
                     else (Ring(View(content[pos := Full(1, p)], start), acked, MaxNat(maxPos, offset)), true))
            && Ok(r.0)
  {
    var acked, pos := Distance(start, last, |content|), Pos(last, offset, |content|);
    assert pos == Pos(start, acked + offset, |content|);
    ViewUpdate(content, start, acked + offset, Full(1, p));
  }

  /** Moving the start position, in terms of the array. */
  lemma RingSkip(content: seq<Slot>, start: int, last: int, maxPos: nat, q: nat)
    requires 0 <= start < |content| && 0 <= last < |content| && q < Distance(start, last, |content|)
    ensures 0 <= Pos(start, q + 1, |content|) < |content|
    ensures SkipTo(Ring(View(content, start), Distance(start, last, |content|), maxPos), q)
         == Ring(View(content, Pos(start, q + 1, |content|)), Distance(Pos(start, q + 1, |content|), last, |content|), maxPos)
  {
    ViewAdvance(content, start, q + 1);
    DistanceMoved(start, last, q + 1, |content|);
    hide View, Pos, Distance;
  }

  function UnitsOf(slots: seq<Unit?>): set<Unit> {
    set u: Unit | u in slots
  }

  /** The content says which slots are filled, and with what. */
  ghost predicate Shown(slots: seq<Unit?>, content: seq<Slot>)
    reads slots
  {
    && |slots| == |content|
    && forall i :: 0 <= i < |slots| ==> if slots[i] == null then content[i] == Empty else content[i] == Full(slots[i].flag, slots[i].packet)
  }

  /** No two slots share a unit. */
  ghost predicate Distinct(slots: seq<Unit?>) {
    forall i, j :: 0 <= i < j < |slots| && slots[i] != null ==> slots[i] != slots[j]
  }

  lemma UnitsPut(slots: seq<Unit?>, i: int, unit: Unit)
    requires 0 <= i < |slots| && slots[i] == null && unit !in slots && Distinct(slots)
    ensures UnitsOf(slots[i := unit]) == UnitsOf(slots) + {unit} && Distinct(slots[i := unit])
  {
    var after := slots[i := unit];
    assert after[i] == unit;
    forall u: Unit | u in slots
      ensures u in after
    {
      var j :| 0 <= j < |slots| && slots[j] == u;
      assert after[j] == u;
    }
  }

  lemma UnitsFree(slots: seq<Unit?>, i: int, unit: Unit)
    requires 0 <= i < |slots| && slots[i] == unit && Distinct(slots)
    ensures UnitsOf(slots[i := null]) == UnitsOf(slots) - {unit} && Distinct(slots[i := null])
  {
    var after := slots[i := null];
    forall u: Unit | u in slots && u != unit
      ensures u in after
    {
      var j :| 0 <= j < |slots| && slots[j] == u;
      assert after[j] == u;
    }
  }

  lemma UnitsOfNone()
    ensures UnitsOf([]) == {}
  {
  }

  lemma UnitsOfNext(slots: seq<Unit?>, i: int)
    requires 0 <= i < |slots| && Distinct(slots)
    ensures UnitsOf(slots[..i + 1]) == UnitsOf(slots[..i]) + (if slots[i] == null then {} else {slots[i]})
    ensures slots[i] != null ==> slots[i] !in UnitsOf(slots[..i]) && slots[i] in UnitsOf(slots)
    ensures UnitsOf(slots[..i + 1]) <= UnitsOf(slots)
  {
    assert slots[..i + 1] == slots[..i] + [slots[i]];
  }

  class RcvBuffer {
    const size: nat
    const pUnit: array<Unit?>
    const queue: UnitQueue
    var startPos: int
    var lastAckPos: int
    var maxPos: int

    ghost var content: seq<Slot>  // what the array positions hold
    ghost var ring: Ring          // the same, read as a ring

    /** The units in the slots. */
    ghost function Units(): set<Unit>
      reads pUnit
    {
      UnitsOf(pUnit[..])
    }

    /** The slots and the pool: the units in the slots are different ones, and all of them are counted as in use. */
    ghost predicate Slots()
      reads this`content, pUnit, pUnit[..], queue, queue.place.Keys
    {
      && pUnit.Length == size == |content| > 0
      && Shown(pUnit[..], content) && Distinct(pUnit[..])
      && Units() <= queue.busy
      && queue.Valid()
    }

    ghost predicate Valid()
      reads this, pUnit, pUnit[..], queue, queue.place.Keys
    {
      && Slots()
      && 0 <= startPos < size && 0 <= lastAckPos < size && 0 <= maxPos
      && ring == Ring(View(content, startPos), Distance(startPos, lastAckPos, size), maxPos)
      && |ring.slots| == size
      && Ok(ring)
    }

    constructor (queue: UnitQueue, bufsize: nat)
      requires bufsize > 0 && queue.Valid()
      ensures Valid() && ring == EmptyRing(bufsize) && Units() == {} && this.queue == queue && size == bufsize
      ensures fresh(pUnit)
    {
      size := bufsize;
      pUnit := new Unit?[bufsize](_ => null);
      this.queue := queue;
      startPos, lastAckPos, maxPos := 0, 0, 0;
      content := seq(bufsize, _ => Empty);
      ring := EmptyRing(bufsize);
    }

    lemma InSlots(unit: Unit)
      ensures unit in Units() <==> unit in pUnit[..]
    {
    }

    lemma DistinctAt(i: int)
      requires Slots() && 0 <= i < size && content[i] != Empty
      ensures pUnit[i] != null && pUnit[i] in queue.busy
      ensures forall j :: 0 <= j < size && j != i ==> pUnit[j] != pUnit[i]
    {
      assert pUnit[..][i] == pUnit[i];
      assert pUnit[i] in pUnit[..];
      assert pUnit[i] in Units();
      forall j | 0 <= j < size && j != i
        ensures pUnit[j] != pUnit[i]
      {
        assert pUnit[..][j] == pUnit[j];
      }
    }

    /** Puts a free unit of the pool into an empty slot. */
    method Put(i: int, unit: Unit)
      requires Slots() && 0 <= i < size && content[i] == Empty && unit in queue.place && unit !in queue.busy
      modifies this`content, pUnit, unit`flag, queue`count, queue`busy
      ensures Slots() && content == old(content)[i := Full(1, unit.packet)]
      ensures Units() == old(Units()) + {unit} && queue.busy == old(queue.busy) + {unit}
    {
      hide UnitsOf, Distinct, UnitQueue.Valid;
      assert unit !in pUnit[..] by { InSlots(unit); }
      UnitsPut(pUnit[..], i, unit);
      ghost var slots := pUnit[..];
      pUnit[i] := unit;
      assert pUnit[..] == slots[i := unit];
      queue.Occupy(unit);
      content := content[i := Full(1, unit.packet)];
    }

    /** Empties a slot and returns its unit to the pool. */
    method Free(i: int)
      requires Slots() && 0 <= i < size && content[i] != Empty
      modifies this`content, pUnit, pUnit[i], queue`count, queue`busy
      ensures Slots() && content == old(content)[i := Empty]
      ensures Units() == old(Units()) - {old(pUnit[i])} && queue.busy == old(queue.busy) - {old(pUnit[i])}
    {
      hide UnitsOf, Distinct, UnitQueue.Valid;
      DistinctAt(i);
      var tmp := pUnit[i];
      InSlots(tmp);
      UnitsFree(pUnit[..], i, tmp);
      ghost var slots := pUnit[..];
      pUnit[i] := null;
      assert pUnit[..] == slots[i := null];
      queue.Vacate(tmp);
      content := content[i := Empty];
    }

    /** Changes the flag of a filled slot. */
    method Flag(i: int, flag: int)
      requires Slots() && 0 <= i < size && content[i] != Empty && flag != 0
      modifies this`content, pUnit[i]
      ensures Slots() && content == old(content)[i := old(content[i]).(flag := flag)]
    {
      pUnit[i].flag := flag;
      content := content[i := content[i].(flag := flag)];
    }

    /** A datagram is read into a unit of the pool; if the pool has none, it is thrown away. */
    method NextUnit(p: Packet) returns (unit: Unit?)
      requires Valid()
      modifies queue`count, queue`entries, queue`size, queue`place, queue`curr, queue`avail, (queue.place.Keys - queue.busy)`packet
      ensures Valid() && queue.busy == old(queue.busy)
      ensures old(queue.place.Keys) <= queue.place.Keys && forall u :: u in queue.place && u !in old(queue.place) ==> fresh(u)
      ensures unit == null <==> old(queue.WillFail())
      ensures unit != null ==> unit in queue.place && unit !in queue.busy && unit.packet == p
    {
      hide UnitsOf, Distinct, View, Distance, UnitQueue.Valid, UnitQueue.WillFail;
      ghost var before := pUnit[..];
      unit := queue.GetNextAvailUnit();
      if unit != null {
        assert unit !in pUnit[..] by { InSlots(unit); }
        queue.Fill(unit, p);
      }
      assert Shown(pUnit[..], content);
    }

    /** Where ring position k is in the array, and what is there. */
    lemma At(k: int)
      requires Valid() && 0 <= k < size
      ensures 0 <= Pos(startPos, k, size) < size
      ensures ring.slots[k] == content[Pos(startPos, k, size)]
      ensures var u := pUnit[Pos(startPos, k, size)];
              if u == null then ring.slots[k] == Empty else ring.slots[k] == Full(u.flag, u.packet) && u in queue.busy && u.flag != 0
      ensures |ring.slots| == size
      ensures Pos(startPos, ring.acked, size) == lastAckPos
      ensures k == ring.acked <==> Pos(startPos, k, size) == lastAckPos
    {
      hide Placed, Distinct, UnitsOf;
      var i := Pos(startPos, k, size);
      assert pUnit[..][i] == pUnit[i];
      if pUnit[i] != null {
        DistinctAt(i);
      }
    }

    method GetRcvDataSize() returns (n: int)
      requires Valid()
      ensures n == ring.acked
    {
      if lastAckPos >= startPos {
        return lastAckPos - startPos;
      }
      return size + lastAckPos - startPos;
    }

    method GetAvailBufSize() returns (n: int)
      requires Valid()
      ensures n == Avail(ring)
    {
      var used := GetRcvDataSize();
      n := size - used - 1;
    }

    lemma Sizes()
      requires Slots()
      ensures pUnit.Length == size == |content| > 0
    {
    }

    /** Stores a unit at an offset from the last acknowledged position. */
    method AddData(unit: Unit, offset: int) returns (ok: bool)
      requires Valid() && 0 <= offset < Avail(ring)
      requires unit in queue.place && unit !in queue.busy
      modifies this`content, this`ring, this`maxPos, pUnit, unit`flag, queue`count, queue`busy
      ensures Valid() && (ring, ok) == RcvRing.AddData(old(ring), unit.packet, offset)
      ensures Units() == old(Units()) + (if ok then {unit} else {})
      ensures queue.busy == old(queue.busy) + (if ok then {unit} else {})
    {
      hide Slots, UnitsOf, View, Round, Pos, Distance, RcvRing.AddData;
      Sizes();
      PosMod(lastAckPos, offset, size);
      RingAdd(content, startPos, lastAckPos, maxPos, unit.packet, offset);
      var pos := Round(lastAckPos + offset, size);
      ContentAt(pos);
      if offset > maxPos {
        maxPos := offset;
      }
      ring := RcvRing.AddData(ring, unit.packet, offset).0;
      if pUnit[pos] != null {
        return false;
      }
      Put(pos, unit);
      return true;
    }

    lemma ContentAt(i: int)
      requires Slots() && 0 <= i < size
      ensures pUnit[i] == null <==> content[i] == Empty
      ensures pUnit[i] != null ==> content[i] == Full(pUnit[i].flag, pUnit[i].packet) && pUnit[i] in queue.busy
    {
      hide Placed;
      assert pUnit[..][i] == pUnit[i];
      if pUnit[i] != null {
        assert pUnit[i] in pUnit[..];
        assert pUnit[i] in Units();
      }
    }

    /** Moves the last acknowledged position. */
    method AckData(len: int)
      requires Valid() && 0 <= len && ring.acked + len < |ring.slots|
      modifies this`ring, this`lastAckPos, this`maxPos
      ensures Valid() && ring == RcvRing.AckData(old(ring), len)
    {
      hide Placed, Distinct, UnitsOf, Shown, View, Round;
      At(ring.acked + len);
      PosMod(startPos, ring.acked + len, size);
      PosMod(lastAckPos, len, size);
      lastAckPos := Round(lastAckPos + len, size);
      maxPos := maxPos - len;
      if maxPos < 0 {
        maxPos := 0;
      }
      ring := RcvRing.AckData(ring, len);
    }

    /** The unit in a filled slot is one of this buffer's. */
    lemma UnitAt(i: int)
      requires Slots() && 0 <= i < size && pUnit[i] != null
      ensures pUnit[i] in Units() && pUnit[i] in pUnit[..]
    {
      assert pUnit[..][i] == pUnit[i];
    }

    /** Flags the unit at ring position k. */
    method SetFlag(i: int, flag: int, ghost k: int)
      requires Valid() && 0 <= k < size && i == Pos(startPos, k, size) && ring.slots[k].Full? && flag != 0
      modifies this`content, this`ring, pUnit[i]
      ensures Valid() && ring == old(ring).(slots := old(ring).slots[k := Full(flag, old(ring).slots[k].packet)])
      ensures Units() == old(Units()) && queue.busy == old(queue.busy)
    {
      hide Slots, UnitsOf, View, Round, Pos, Distance;
      Sizes();
      At(k);
      LastSlot(k);
      ViewUpdate(content, startPos, k, Full(flag, ring.slots[k].packet));
      ring := ring.(slots := ring.slots[k := Full(flag, ring.slots[k].packet)]);
      Flag(i, flag);
    }

    lemma LastSlot(k: int)
      requires Valid() && 0 <= k < size && ring.slots[k].Full?
      ensures k < size - 1
    {
      hide Slots;
      At(k);
    }

    /** Frees the unit at ring position k. */
    method Release(i: int, ghost k: int)
      requires Valid() && 0 <= k < size && i == Pos(startPos, k, size) && ring.slots[k].Full?
      modifies this`content, this`ring, pUnit, pUnit[i], queue`count, queue`busy
      ensures Valid() && ring == old(ring).(slots := old(ring).slots[k := Empty])
      ensures Units() <= old(Units()) && queue.busy - Units() == old(queue.busy - Units())
    {
      hide Slots, Units, View, Round, Pos, Distance;
      Sizes();
      At(k);
      UnitAt(i);
      LastSlot(k);
      ViewUpdate(content, startPos, k, Empty);
      ring := ring.(slots := ring.slots[k := Empty]);
      Free(i);
    }

    /** Marks the packet at array position i as dropped, if it has the given header word. */
    method MarkAt(i: int, msgNo: Word, ghost k: int)
      requires Valid() && 0 <= k < size && i == Pos(startPos, k, size) && 0 <= i < size
      modifies this`content, this`ring, Units()
      ensures Valid() && pUnit[..] == old(pUnit[..]) && queue.busy == old(queue.busy)
      ensures var slot := old(ring).slots[k];
              ring == old(ring).(slots := if slot.Full? && slot.packet.msgNo == msgNo then old(ring).slots[k := slot.(flag := 3)] else old(ring).slots)
    {
      hide Slots, Units, View, Round, Pos, Distance;
      Sizes();
      At(k);
      if pUnit[i] != null && msgNo == pUnit[i].packet.msgNo {
        UnitAt(i);
        SetFlag(i, 3, k);
      }
    }

    /** The array position of the furthest filled slot. */
    lemma FurthestAt()
      requires Valid()
      ensures |ring.slots| == size > ring.acked + ring.maxPos && 0 <= startPos < size && Pos(startPos, 0, size) == startPos
      ensures Round(lastAckPos + maxPos, size) == Pos(startPos, ring.acked + ring.maxPos, size)
    {
      hide Slots, View, Round, Pos, Distance;
      Sizes();
      PosAdd(startPos, lastAckPos, maxPos, size);
      PosMod(lastAckPos, maxPos, size);
      PosZero(startPos, size);
    }

    /** Marks the packets with the given header word as dropped. */
    method DropMsg(msgNo: Word)
      requires Valid()
      modifies this`content, this`ring, Units()
      ensures Valid() && ring == RcvRing.DropMsg(old(ring), msgNo)
      ensures Units() == old(Units()) && queue.busy == old(queue.busy)
    {
      hide Slots, Units, View, Round, Pos, Distance, MarkDropped;
      ghost var before := ring;
      ghost var all := ring.acked + ring.maxPos;
      FurthestAt();
      ghost var k := 0;
      var i := startPos;
      var n := Round(lastAckPos + maxPos, size);
      assert MarkDropped(before.slots, 0, msgNo) == before.slots;
      while i != n
        invariant Valid() && pUnit[..] == old(pUnit[..]) && queue.busy == old(queue.busy)
        invariant startPos == old(startPos) && 0 <= k <= all < size && i == Pos(startPos, k, size) && 0 <= i < size
        invariant ring == before.(slots := MarkDropped(before.slots, k, msgNo))
        decreases all - k
      {
        PosInjective(startPos, k, all, size);
        PosNext(startPos, k, size);
        MarkAt(i, msgNo, k);
        MarkDroppedMore(before.slots, k, msgNo);
        i := Round(i + 1, size);
        k := k + 1;
      }
      PosInjective(startPos, k, all, size);
    }

    /** Frees the first slot, if it is filled, and moves the start position over it. */
    method Advance()
      requires Valid() && ring.acked > 0
      modifies this`content, this`ring, this`startPos, pUnit, Units(), queue`count, queue`busy
      ensures Valid() && ring == Shift(old(ring))
      ensures Units() <= old(Units()) && queue.busy - Units() == old(queue.busy - Units())
    {
      hide Slots, Units, View, Round, Pos, Distance;
      Sizes();
      At(0);
      PosZero(startPos, size);
      if pUnit[startPos] != null {
        UnitAt(startPos);
        Release(startPos, 0);
      }
      StartNext();
    }

    /** Moves the start position over an empty slot. */
    method StartNext()
      requires Valid() && ring.acked > 0 && ring.slots[0] == Empty
      modifies this`ring, this`startPos
      ensures Valid() && ring == Shift(old(ring))
    {
      hide Slots, Units, View, Round, Pos, Distance;
      Sizes();
      PosZero(startPos, size);
      PosNext(startPos, 0, size);
      ViewAdvance(content, startPos, 1);
      DistanceMoved(startPos, lastAckPos, 1, size);
      ring := Shift(ring);
      startPos := startPos + 1;
      if startPos == size {
        startPos := 0;
      }
    }

    /** Looks ahead for a whole message in the acknowledged part. */
    method LooksGood() returns (good: bool)
      requires Valid() && ring.acked > 0
      ensures good == GoodAhead(ring.slots, 0, ring.acked)
    {
      hide Slots, Units, View, Round, Pos, Distance, MsgBoundary;
      Sizes();
      var i := startPos;
      ghost var k := 0;
      PosZero(startPos, size);
      At(0);
      while i != lastAckPos
        invariant 0 <= k <= ring.acked < size && i == Pos(startPos, k, size) && 0 <= i < size
        invariant GoodAhead(ring.slots, 0, ring.acked) == GoodAhead(ring.slots, k, ring.acked)
        decreases ring.acked - k
      {
        At(k);
        PosNext(startPos, k, size);
        if pUnit[i] == null || pUnit[i].flag != 1 {
          return false;
        }
        if MsgBoundary(pUnit[i].packet.msgNo) == 1 || MsgBoundary(pUnit[i].packet.msgNo) == 3 {
          return true;
        }
        i := i + 1;
        if i == size {
          i := 0;
        }
        k := k + 1;
        At(k);
      }
      At(k);
      return true;
    }

    /** Gives up slots at the start that no whole message can start at. */
    method SkipBad()
      requires Valid()
      modifies this`content, this`ring, this`startPos, pUnit, Units(), queue`count, queue`busy
      ensures Valid() && ring == RcvRing.SkipBad(old(ring))
      ensures Units() <= old(Units()) && queue.busy - Units() == old(queue.busy - Units())
    {
      hide Slots, Units, View, Round, Pos, Distance, GoodAhead, MsgBoundary;
      Sizes();
      At(0);
      PosZero(startPos, size);
      while startPos != lastAckPos
        invariant Valid() && RcvRing.SkipBad(ring) == RcvRing.SkipBad(old(ring))
        invariant startPos == lastAckPos <==> ring.acked == 0
        invariant Units() <= old(Units()) && queue.busy - Units() == old(queue.busy - Units())
        decreases ring.acked
      {
        Sizes();
        At(0);
        PosZero(startPos, size);
        if ring.slots[0].Full? {
          BoundaryRange(ring.slots[0].packet.msgNo);
        }
        if pUnit[startPos] != null && pUnit[startPos].flag == 1 && MsgBoundary(pUnit[startPos].packet.msgNo) > 1 {
          var good := LooksGood();
          if good {
            break;
          }
        }
        Advance();
        At(0);
        PosZero(startPos, size);
      }
    }

    /** Looks for the next message: array positions p to q.  passack: it reaches beyond the acknowledged part. */
    method ScanMsg() returns (found: bool, p: int, q: int, passack: bool, ghost s: Search)
      requires Valid()
      modifies this`content, this`ring, this`startPos, pUnit, Units(), queue`count, queue`busy
      ensures Valid() && (ring, s) == RcvRing.ScanMsg(old(ring))
      ensures Units() <= old(Units()) && queue.busy - Units() == old(queue.busy - Units())
      ensures s.Found? ==> found && p == Pos(startPos, s.p, size) && q == Pos(startPos, s.q, size) && passack == s.passack
      ensures s.Ended? && found ==> passack && p == Round(q + 1, size)
      ensures found == Reported(ring, s)
    {
      hide Slots, Units, View, Round, Pos, Distance, RcvRing.SkipBad, FindMessage;
      p, q, passack := -1, 0, false;
      s := RcvRing.ScanMsg(ring).1;
      Sizes();
      At(0);
      PosZero(startPos, size);
      if startPos == lastAckPos && maxPos <= 0 {
        return false, p, q, passack, s;
      }
      SkipBad();
      found, p, q, passack := Search();
    }

    /** The search for a message behind the start position. */
    method Search() returns (found: bool, p: int, q: int, passack: bool)
      requires Valid()
      ensures var s := FindMessage(ring.slots, ring.acked, ring.acked + ring.maxPos, 0, -1);
              && (s.Found? ==> found && p == Pos(startPos, s.p, size) && q == Pos(startPos, s.q, size) && passack == s.passack)
              && (s.Ended? && found ==> passack && p == Round(q + 1, size))
              && found == Reported(ring, s)
    {
      hide Slots, Units, View, Round, Pos, Distance, FindMessage;
      ghost var start;
      found, p, q, passack, start := Look();
      Sizes();
      if !found {
        if start >= 0 {
          RunCloses(startPos, start, ring.acked + ring.maxPos, size);
        }
        if p != -1 && Round(q + 1, size) == p {
          found := true;
        }
      }
    }

    /** Looks at one slot after the other, up to the furthest filled one. */
    method Look() returns (found: bool, p: int, q: int, passack: bool, ghost start: int)
      requires Valid()
      ensures var n := ring.acked + ring.maxPos;
              var s := FindMessage(ring.slots, ring.acked, n, 0, -1);
              && (found ==> s.Found? && p == Pos(startPos, s.p, size) && q == Pos(startPos, s.q, size) && passack == s.passack)
              && (!found ==> s == Ended(start) && passack && q == Pos(startPos, n + 1, size) && -1 <= start <= n < size
                             && (n + 1 == size ==> start == -1) && (start == -1 <==> p == -1) && (start >= 0 ==> p == Pos(startPos, start, size)))
    {
      hide Slots, Units, View, Round, Pos, Distance, MsgBoundary, MsgOrderFlag, Completes, StartAfter;
      Sizes();
      At(0);
      PosZero(startPos, size);
      p := -1;
      q := startPos;
      passack := startPos == lastAckPos;
      found := false;
      start := -1;
      var size1 := GetRcvDataSize();
      var n := maxPos + size1;
      ghost var s := FindMessage(ring.slots, ring.acked, n, 0, -1);
      var i := 0;
      while i <= n && !found
        invariant 0 <= i <= n + 1 && n == ring.acked + ring.maxPos
        invariant !found ==> q == Pos(startPos, i, size) && 0 <= q < size
        invariant !found ==> -1 <= start < i && (start == -1 <==> p == -1) && (start >= 0 ==> p == Pos(startPos, start, size))
        invariant !found ==> (i == size ==> start == -1)
        invariant !found ==> passack == (i >= ring.acked) && s == FindMessage(ring.slots, ring.acked, n, i, start)
        invariant found ==> s.Found? && p == Pos(startPos, s.p, size) && q == Pos(startPos, s.q, size) && passack == s.passack
        decreases n - i, !found
      {
        PosNext(startPos, i, size);
        var p1, completes := Step(p, q, start, i);
        p := p1;
        start := StartAfter(ring.slots[i], i, start);
        if completes && (!passack || !MsgOrderFlag(pUnit[q].packet.msgNo)) {
          found := true;
        } else {
          q := q + 1;
          if q == size {
            q := 0;
          }
          At(if i + 1 < size then i + 1 else 0);
          if q == lastAckPos {
            passack := true;
          }
          i := i + 1;
        }
      }
    }

    /** What the packet at array position q, ring position k, does to the search. */
    method Step(p: int, q: int, ghost start: int, ghost k: int) returns (p1: int, completes: bool)
      requires Valid() && 0 <= k < size && q == Pos(startPos, k, size) && -1 <= start < k
      requires (start == -1 <==> p == -1) && (start >= 0 ==> p == Pos(startPos, start, size))
      ensures completes == Completes(ring.slots[k], start)
      ensures completes ==> ring.slots[k].Full? && pUnit[q] != null && pUnit[q].packet == ring.slots[k].packet && 0 <= q < size
      ensures var start1 := StartAfter(ring.slots[k], k, start);
              (start1 == -1 <==> p1 == -1) && (start1 >= 0 ==> p1 == Pos(startPos, start1, size))
      ensures -1 <= StartAfter(ring.slots[k], k, start) <= k && (k == size - 1 ==> StartAfter(ring.slots[k], k, start) == -1)
    {
      hide Slots, Units, View, Round, Pos, Distance, MsgBoundary;
      Sizes();
      At(k);
      p1, completes := p, false;
      if pUnit[q] != null && pUnit[q].flag == 1 {
        var boundary := MsgBoundary(pUnit[q].packet.msgNo);
        if boundary == 3 {
          p1, completes := q, true;
        } else if boundary == 2 {
          p1 := q;
        } else if boundary == 1 {
          completes := p != -1;
        }
      } else {
        p1 := -1;
      }
    }

    /** Reads the next message, as far as it fits into a buffer of len bytes.  The source returns the number of bytes
        copied; here the bytes themselves are returned. */
    method ReadMsg(len: nat) returns (data: seq<byte>)
      requires Valid()
      modifies this`content, this`ring, this`startPos, pUnit, Units(), queue`count, queue`busy
      ensures Valid() && (ring, data) == RcvRing.ReadMsg(old(ring), len)
      ensures Units() <= old(Units()) && queue.busy - Units() == old(queue.busy - Units())
    {
      hide Slots, Units, View, Round, Pos, Distance, RcvRing.ScanMsg, CopyPart, SkipTo;
      ghost var whole := RcvRing.ReadMsg(ring, len);
      ScanFits(ring);
      var found, p, q, passack;
      ghost var s;
      found, p, q, passack, s := ScanMsg();
      if !found {
        assert CopyPart(ring, s, 0, len) == (ring, []) by { CopyNothing(ring, s, len); }
        return [];
      }
      data := CopyOut(p, q, passack, len, s);
      if !passack {
        StartBehind(q, s);
      }
    }

    /** Is there a message to be read?  (1 or 0.)  It says so too if an unfinished message fills the ring. */
    method GetRcvMsgNum() returns (n: int)
      requires Valid()
      modifies this`content, this`ring, this`startPos, pUnit, Units(), queue`count, queue`busy
      ensures Valid() && ring == RcvRing.ScanMsg(old(ring)).0
      ensures n == if Reported(ring, RcvRing.ScanMsg(old(ring)).1) then 1 else 0
      ensures Units() <= old(Units()) && queue.busy - Units() == old(queue.busy - Units())
    {
      hide Slots, Units, View, Pos, Distance, RcvRing.ScanMsg;
      var found, p, q, passack;
      ghost var s;
      found, p, q, passack, s := ScanMsg();
      n := if found then 1 else 0;
    }

    /** The destructor: all units go back to the pool. */
    method Destroy()
      requires Slots()
      modifies Units(), queue`count, queue`busy
      ensures queue.Valid() && queue.busy == old(queue.busy) - old(Units())
    {
      hide UnitQueue.Valid, UnitsOf, Shown, Distinct;
      assert UnitsOf(pUnit[..0]) == {} by { UnitsOfNone(); }
      for i := 0 to size
        invariant queue.Valid() && queue.busy == old(queue.busy) - UnitsOf(pUnit[..i])
        invariant UnitsOf(pUnit[..i]) <= Units() <= old(queue.busy)
      {
        UnitsOfNext(pUnit[..], i);
        assert pUnit[..][..i] == pUnit[..i] && pUnit[..][..i + 1] == pUnit[..i + 1];
        if pUnit[i] != null {
          queue.Vacate(pUnit[i]);
        }
      }
      assert pUnit[..size] == pUnit[..];
    }

    /** Moves the start position behind the message just read. */
    method StartBehind(q: int, ghost s: Search)
      requires Valid() && s.Found? && s.q < ring.acked && q == Pos(startPos, s.q, size) && Ok(SkipTo(ring, s.q))
      modifies this`ring, this`startPos
      ensures Valid() && ring == SkipTo(old(ring), s.q)
    {
      hide Slots, Units, View, Round, Pos, Distance, SkipTo;
      Sizes();
      PosNext(startPos, s.q, size);
      RingSkip(content, startPos, lastAckPos, maxPos, s.q);
      startPos := Round(q + 1, size);
      ring := SkipTo(ring, s.q);
    }

    /** Copies the packets from p to q, and frees them or marks them as read.  If the search ended without a message
        but the ring is full of an unfinished one, p is the position behind q and nothing is copied. */
    method CopyOut(p0: int, q: int, passack: bool, len: nat, ghost s: Search) returns (data: seq<byte>)
      requires Valid() && Fits(ring, s)
      requires s.Found? ==> p0 == Pos(startPos, s.p, size) && q == Pos(startPos, s.q, size) && passack == s.passack
      requires s.Ended? ==> p0 == Round(q + 1, size)
      modifies this`content, this`ring, pUnit, Units(), queue`count, queue`busy
      ensures Valid() && (ring, data) == CopyRun(old(ring), s, len)
      ensures Units() <= old(Units()) && queue.busy - Units() == old(queue.busy - Units())
    {
      hide Slots, Units, View, Round, Pos, Distance, CopyPart, Take;
      ghost var b := ring;
      ghost var k := if s.Found? then s.p else 0;
      var p := p0;
      var rs: int := len;
      data := [];
      CopyNothing(b, s, len);
      if s.Found? {
        RunEnd(q, s);
      }
      while p != Round(q + 1, size)
        invariant Valid() && size == |b.slots|
        invariant s.Ended? ==> p == Round(q + 1, size) && k == 0
        invariant s.Found? ==> s.p <= k <= s.q + 1 < size && p == Pos(startPos, k, size)
        invariant s.Found? ==> (p == Round(q + 1, size) <==> k == s.q + 1)
        invariant startPos == old(startPos) && (ring, data) == CopyPart(b, s, k, len) && rs == len - |data| >= 0
        invariant Units() <= old(Units()) && queue.busy - Units() == old(queue.busy - Units())
        decreases (if s.Found? then s.q + 1 else 0) - k
      {
        CopyNext(b, s, k, len);
        Sizes();
        At(k);
        UnitAt(p);
        var chunk := TakeUnit(pUnit[p].packet.data, rs);
        data := data + chunk;
        rs := rs - |chunk|;
        if !passack {
          Release(p, k);
        } else {
          SetFlag(p, 2, k);
        }
        PosNext(startPos, k, size);
        p := p + 1;
        if p == size {
          p := 0;
        }
        k := k + 1;
        RunPos(q, s, k);
      }
    }

    lemma RunEnd(q: int, s: Search)
      requires Valid() && Fits(ring, s) && s.Found? && q == Pos(startPos, s.q, size)
      ensures s.q + 1 < size && (Pos(startPos, s.p, size) == Round(q + 1, size) <==> s.p == s.q + 1)
    {
      hide Slots, Units, View, Round, Pos, Distance;
      LastSlot(s.q);
      RunPos(q, s, s.p);
    }

    lemma RunPos(q: int, s: Search, k: int)
      requires Valid() && s.Found? && s.q + 1 < size && 0 <= k < size && q == Pos(startPos, s.q, size)
      ensures Pos(startPos, k, size) == Round(q + 1, size) <==> k == s.q + 1
    {
      hide Slots, Units, View, Round, Pos, Distance;
      PosNext(startPos, s.q, size);
      PosInjective(startPos, k, s.q + 1, size);
    }
  }

  /** The part of a packet that still fits. */
  method TakeUnit(packet: seq<byte>, rs: int) returns (chunk: seq<byte>)
    requires rs >= 0
    ensures chunk == Take(packet, rs) && |chunk| <= rs
  {
    var unitsize := |packet|;
    if rs >= 0 && unitsize > rs {
      unitsize := rs;
    }
    chunk := packet[..unitsize];
  }
}
