/** The receiver's loss list (list.cpp, class CRcvLossList): a doubly linked chain of intervals whose new entries
    always lie beyond the old ones.  `Contents()` is the set of lost packets, by coordinate. */
module RcvLossLists {
  import opened SeqNo
  import opened LossChain
  import opened NakCoding

  class RcvLossList {
    const size: int
    const data1: array<int>
    const data2: array<int>
    const next: array<int>
    const prior: array<int>
    var head: int
    var tail: int
    var length: int

    ghost var nodes: seq<Node>
    ghost var at: seq<int>
    ghost var org: int

    ghost function Repr(): set<object> {
      {this, data1, data2, next, prior}
    }

    ghost predicate Valid()
      reads this, data1, data2, next, prior
    {
      Rep(0)
    }

    /** The representation while `uncounted` numbers are still missing from the length field. */
    ghost predicate Rep(uncounted: int)
      reads this, data1, data2, next, prior
    {
      && data1 != data2 && data1 != next && data1 != prior && data2 != next && data2 != prior && next != prior
      && data1.Length == data2.Length == next.Length == prior.Length == size > 0
      && Stored(data1[..], data2[..], next[..], nodes, at, org, size)
      && Backed(prior[..], at)
      && |at| == |nodes|
      && head == HeadOf(at)
      && (at != [] ==> tail == at[|at| - 1])
      && length + uncounted == Total(nodes)
      && Disjoint(nodes)
    }

    ghost function Contents(): set<int>
      reads this`nodes
    {
      Members(nodes)
    }

    /** The coordinate x can be compared with everything in the list. */
    ghost predicate Comparable(x: int)
      reads this`nodes
    {
      forall c :: c in Contents() ==> Near(c, x)
    }

    constructor (size: int)
      requires size > 0
      ensures Valid() && Contents() == {} && this.size == size
      ensures fresh(data1) && fresh(data2) && fresh(next) && fresh(prior)
    {
      this.size := size;
      data1 := new int[size](_ => -1);
      data2 := new int[size](_ => -1);
      next := new int[size](_ => 0);
      prior := new int[size](_ => 0);
      head := -1;
      tail := -1;
      length := 0;
      nodes := [];
      at := [];
      org := 0;
    }

    lemma NodeAt(k: int)
      requires Valid() && 0 <= k < |nodes|
      ensures 0 <= at[k] < size && at[k] == Slot(nodes[k].lo, org, size) && at[k] in at
      ensures data1[at[k]] == Wrap(nodes[k].lo) && data2[at[k]] == EndOf(nodes[k])
      ensures next[at[k]] == NextOf(at, k) && prior[at[k]] == PriorOf(at, k)
      ensures nodes[0].lo <= nodes[k].lo <= nodes[k].hi < nodes[0].lo + Capacity(size)
      ensures k + 1 < |nodes| ==> nodes[k].hi < nodes[k + 1].lo && at[k] != at[k + 1] && 0 <= at[k + 1] < size
      ensures k > 0 ==> 0 <= at[k - 1] < size && at[k - 1] != at[k] && next[at[k - 1]] == at[k]
      ensures nodes[k].lo in Contents() && nodes[k].hi in Contents() && Ordered(nodes) && Placed(at, size)
    {
      hide Stored, Members, Total, Wrap, Slot;
      StoredNode(data1[..], data2[..], next[..], nodes, at, org, size, k);
      if k > 0 {
        StoredNode(data1[..], data2[..], next[..], nodes, at, org, size, k - 1);
      }
      EndsAreMembers(nodes, k);
    }

    lemma NearNode(x: int, k: int)
      requires Valid() && Comparable(x) && 0 <= k < |nodes|
      ensures Near(nodes[k].lo, x) && Near(nodes[k].hi, x)
    {
      hide Stored, Members, Total, Wrap, Slot;
      NodeAt(k);
    }

    /** The length field counts the members. */
    lemma CountIsSize()
      requires Valid()
      ensures length == |Contents()|
      ensures length == 0 <==> nodes == []
      ensures nodes == [] ==> Contents() == {}
    {
      hide Wrap, Slot, Linked, Backed;
      TotalIsCardinality(nodes);
      TotalPositive(nodes);
    }

    lemma Extremes()
      requires Valid() && nodes != []
      ensures nodes[0].lo in Contents() && nodes[|nodes| - 1].hi in Contents()
      ensures forall c :: c in Contents() ==> nodes[0].lo <= c <= nodes[|nodes| - 1].hi
    {
      hide Wrap, Slot, Linked, Members, Backed;
      EndsAreMembers(nodes, 0);
      EndsAreMembers(nodes, |nodes| - 1);
      forall c | c in Members(nodes)
        ensures nodes[0].lo <= c <= nodes[|nodes| - 1].hi
      {
        ExtremesOfChain(nodes, c);
      }
    }

    method InsertFirst(s1: int, s2: int, ghost x1: int, ghost x2: int)
      requires Valid() && nodes == [] && s1 == Wrap(x1) && s2 == Wrap(x2) && x1 <= x2 < x1 + Capacity(size)
      modifies this, data1, data2, next, prior
      ensures Valid() && Contents() == Range(x1, x2)
    {
      ghost var n := Node(x1, x2);
      ghost var d1, d2, nx, pr := data1[..], data2[..], next[..], prior[..];
      hide Wrap, SeqLen, Stored;
      CmpOfWrap(x1, x2);
      LenOfWrap(x1, x2);
      StoreFirst(d1, d2, nx, at, org, size, n);
      head := 0;
      tail := 0;
      WriteNode(data1, data2, head, s1, s2, n);
      next[head] := -1;
      prior[head] := -1;
      length := length + SeqLen(s1, s2);
      assert next[..] == nx[0 := -1] && prior[..] == pr[0 := -1];
      nodes, at, org := [n], [0], x1;
      SingleChain(n);
    }

    /** The new range continues the last node. */
    method ExtendTail(s2: int, ghost x1: int, ghost x2: int)
      requires Valid() && nodes != [] && s2 == Wrap(x2) && x1 <= x2 < nodes[0].lo + Capacity(size)
      requires nodes[|nodes| - 1].lo < nodes[|nodes| - 1].hi && x1 == nodes[|nodes| - 1].hi + 1
      modifies this`nodes, data2
      ensures Rep(x2 - x1 + 1) && Contents() == old(Contents()) + Range(x1, x2)
    {
      hide Stored, Backed, Ordered, Members, Total, Wrap, Slot, Range;
      ghost var k := |nodes| - 1;
      ghost var d2 := data2[..];
      NodeAt(k);
      StoreSetHi(data1[..], d2, next[..], nodes, at, org, size, k, x2);
      StretchNode(nodes, k, x1, x2);
      ReplaceNode(nodes, k, Node(nodes[k].lo, x2));
      data2[tail] := s2;
      nodes := nodes[k := Node(nodes[k].lo, x2)];
      assert data2[..] == d2[at[k] := EndOf(nodes[k])];
    }

    /** What the arrays must become when a node is put behind the last one. */
    lemma Appended(loc: int, n: Node)
      requires Valid() && nodes != [] && n.lo <= n.hi < nodes[0].lo + Capacity(size)
      requires nodes[|nodes| - 1].hi < n.lo && loc == Slot(n.lo, org, size)
      ensures var k := |nodes|;
              && 0 <= tail < size && 0 <= loc < size && tail != loc && tail == at[k - 1] && data1[loc] == -1 && data2[loc] == -1 && Near(n.lo, n.hi)
              && Stored(data1[..][loc := Wrap(n.lo)], data2[..][loc := EndOf(n)], next[..][loc := -1][tail := loc],
                        InsertAt(nodes, k, n), InsertAt(at, k, loc), org, size)
              && Backed(prior[..][loc := tail], InsertAt(at, k, loc)) && Disjoint(InsertAt(nodes, k, n))
              && Members(InsertAt(nodes, k, n)) == Members(nodes) + Range(n.lo, n.hi)
              && Total(InsertAt(nodes, k, n)) == Total(nodes) + (n.hi - n.lo + 1)
    {
      hide Stored, Backed, Members, Total, Wrap, Slot, Range, InsertAt;
      var k := |nodes|;
      NodeAt(k - 1);
      StoredWindow(data1[..], data2[..], next[..], nodes, at, org, size);
      AppendDisjoint(nodes, n);
      StoreInsert(data1[..], data2[..], next[..], nodes, at, org, size, k, n);
      BackAppend(prior[..], at, loc);
      InsertNode(nodes, k, n);
      StoredEmpty(data1[..], data2[..], next[..], nodes, at, org, size, loc);
    }

    /** The new range becomes a node behind the last one. */
    method Append(loc: int, s1: int, s2: int, ghost x1: int, ghost x2: int)
      requires Valid() && nodes != [] && s1 == Wrap(x1) && s2 == Wrap(x2) && x1 <= x2 < nodes[0].lo + Capacity(size)
      requires nodes[|nodes| - 1].hi < x1 && loc == Slot(x1, org, size)
      modifies this`tail, this`nodes, this`at, data1, data2, next, prior
      ensures Rep(x2 - x1 + 1) && Contents() == old(Contents()) + Range(x1, x2)
    {
      hide Stored, Backed, Members, Total, Wrap, Slot, Range, InsertAt, Disjoint;
      ghost var k := |nodes|;
      ghost var n := Node(x1, x2);
      ghost var nx, pr := next[..], prior[..];
      Appended(loc, n);
      CmpOfWrap(x1, x2);
      WriteNode(data1, data2, loc, s1, s2, n);
      next[tail] := loc;
      prior[loc] := tail;
      next[loc] := -1;
      tail := loc;
      assert next[..] == nx[loc := -1][at[k - 1] := loc] && prior[..] == pr[loc := at[k - 1]];
      nodes, at := InsertAt(nodes, k, n), InsertAt(at, k, loc);
    }

    /** Appends the numbers from s1 to s2, all of them beyond the present contents. */
    method Insert(s1: int, s2: int, ghost x1: int, ghost x2: int)
      requires Valid() && s1 == Wrap(x1) && s2 == Wrap(x2) && x1 <= x2 < x1 + Capacity(size)
      requires forall c :: c in Contents() ==> c < x1 && x2 - c < Capacity(size)
      modifies this, data1, data2, next, prior
      ensures Valid() && Contents() == old(Contents()) + Range(x1, x2)
    {
      hide Stored, Backed, Ordered, Members, Total, Wrap, SeqOff, SeqLen, Slot, SlotFrom, DisjointBut, Contents, Range, IncSeq;
      CountIsSize();
      if length == 0 {
        InsertFirst(s1, s2, x1, x2);
        return;
      }
      ghost var k := |nodes| - 1;
      Extremes();
      NodeAt(0);
      NodeAt(k);
      OffOfWrap(nodes[0].lo, x1);
      SlotMove(nodes[0].lo, x1 - nodes[0].lo, org, size);
      StepOfWrap(nodes[k].hi, 1);
      CmpOfWrap(nodes[k].hi + 1, x1);
      LenOfWrap(x1, x2);
      var offset := SeqOff(data1[head], s1);
      var loc := SlotFrom(head, offset, size);
      if data2[tail] != -1 && IncSeq(data2[tail]) == s1 {
        ExtendTail(s2, x1, x2);
      } else {
        Append(loc, s1, s2, x1, x2);
      }
      length := length + SeqLen(s1, s2);
    }

    /** Deletes node k, which holds a single number. */
    method DeleteSingle(loc: int, ghost k: int)
      requires Valid() && 0 <= k < |nodes| && loc == at[k] && nodes[k].lo == nodes[k].hi
      modifies this`head, this`tail, this`nodes, this`at, data1, next, prior
      ensures Rep(-1) && Contents() == old(Contents()) - {old(nodes[k].lo)}
    {
      hide Stored, Backed, Members, Total, Wrap, Slot, Range;
      ghost var d1, d2, nx, pr := data1[..], data2[..], next[..], prior[..];
      NodeAt(k);
      StoreDelete(d1, d2, nx, nodes, at, org, size, k);
      BackDelete(pr, at, k);
      DeleteMembers(nodes, k);
      UnlinkNode(loc, k);
      data1[loc] := -1;
      assert data1[..] == d1[loc := -1] && data2[..] == d2[loc := -1];
      nodes, at := DeleteAt(nodes, k), DeleteAt(at, k);
    }

    /** The links round node k once it is gone. */
    method UnlinkNode(loc: int, ghost k: int)
      requires next != prior && next.Length == prior.Length && Placed(at, next.Length)
      requires 0 <= k < |at| && loc == at[k] && head == HeadOf(at) && tail == at[|at| - 1]
      requires next[at[k]] == NextOf(at, k) && prior[at[k]] == PriorOf(at, k)
      modifies this`head, this`tail, next, prior
      ensures next[..] == LinkAfterDelete(old(next[..]), at, k)
      ensures prior[..] == PriorAfterDelete(old(prior[..]), at, k)
      ensures head == HeadOf(DeleteAt(at, k))
      ensures |at| > 1 ==> tail == DeleteAt(at, k)[|at| - 2]
    {
      hide DeleteAt;
      if head == loc {
        head := next[head];
        if head != -1 {
          prior[head] := -1;
        }
      } else {
        next[prior[loc]] := next[loc];
        if next[loc] != -1 {
          prior[next[loc]] := prior[loc];
        } else {
          tail := prior[loc];
        }
      }
    }

    /** Takes the first number off node k, which holds more than one: the node moves on by one slot. */
    method ShiftStart(loc: int, ghost k: int)
      requires Valid() && 0 <= k < |nodes| && loc == at[k] && nodes[k].lo < nodes[k].hi
      modifies this`head, this`tail, this`nodes, this`at, data1, data2, next, prior
      ensures Rep(-1) && Contents() == old(Contents()) - {old(nodes[k].lo)}
    {
      hide Stored, Backed, Placed, Members, Total, Wrap, Slot, NextSlot, Range, SeqCmp, IncSeq, Ordered, DisjointBut;
      ghost var d1, d2, nx, pr := data1[..], data2[..], next[..], prior[..];
      ghost var n := nodes[k];
      NodeAt(k);
      StepOfWrap(n.lo, 1);
      CmpOfWrap(n.hi, n.lo + 1);
      SlotNext(n.lo, org, size);
      var i := NextSlot(loc, size);
      StoreShift(d1, d2, nx, nodes, at, org, size, k);
      BackMove(pr, at, k, i);
      NarrowNode(nodes, k, Node(n.lo + 1, n.hi), n.lo);
      StoredEmpty(d1, d2, nx, nodes, at, org, size, i);
      ShiftNumbers(loc, i);
      MoveLinks(loc, i, k);
      nodes, at := nodes[k := Node(n.lo + 1, n.hi)], at[k := i];
    }

    /** The numbers of the node at loc, less the first one, moved to the empty slot i. */
    method ShiftNumbers(loc: int, i: int)
      requires data1 != data2 && 0 <= loc < data1.Length == data2.Length && 0 <= i < data1.Length && i != loc
      requires data2[i] == -1
      modifies data1, data2
      ensures data1[..] == old(data1[..])[loc := -1][i := IncSeq(old(data1[loc]))]
      ensures data2[..] == old(data2[..])[loc := -1][i := if SeqCmp(old(data2[loc]), IncSeq(old(data1[loc]))) > 0 then old(data2[loc]) else -1]
    {
      hide SeqCmp, IncSeq;
      data1[i] := IncSeq(data1[loc]);
      if SeqCmp(data2[loc], IncSeq(data1[loc])) > 0 {
        data2[i] := data2[loc];
      }
      data1[loc] := -1;
      data2[loc] := -1;
    }

    /** The links round node k once it has moved from loc to i. */
    method MoveLinks(loc: int, i: int, ghost k: int)
      requires next != prior && next.Length == prior.Length && Placed(at, next.Length)
      requires 0 <= k < |at| && loc == at[k] && head == HeadOf(at) && tail == at[|at| - 1]
      requires next[at[k]] == NextOf(at, k) && prior[at[k]] == PriorOf(at, k)
      requires 0 <= i < next.Length && i !in at
      modifies this`head, this`tail, next, prior
      ensures next[..] == if k > 0 then old(next[..])[i := NextOf(at, k)][at[k - 1] := i] else old(next[..])[i := NextOf(at, k)]
      ensures prior[..] == PriorAfterMove(old(prior[..]), at, k, i)
      ensures head == HeadOf(at[k := i]) && tail == at[k := i][|at| - 1]
    {
      assert k > 0 ==> at[k - 1] in at;
      assert k + 1 < |at| ==> at[k + 1] in at;
      next[i] := next[loc];
      prior[i] := prior[loc];
      if head == loc {
        head := i;
      } else {
        next[prior[i]] := i;
      }
      if tail == loc {
        tail := i;
      } else {
        prior[next[i]] := i;
      }
    }

    /** Takes s, the last number of node i, off it. */
    method TrimEnd(i: int, s: int, ghost k: int, ghost x: int)
      requires Valid() && 0 <= k < |nodes| && i == at[k] && s == Wrap(x) && nodes[k].lo < x == nodes[k].hi
      modifies this`nodes, data2
      ensures Rep(-1) && Contents() == old(Contents()) - {x}
    {
      hide Stored, Backed, Members, Total, Wrap, Slot, Range, IncSeq, DecSeq;
      ghost var d2 := data2[..];
      ghost var n := Node(nodes[k].lo, x - 1);
      NodeAt(k);
      StepOfWrap(nodes[k].lo, 1);
      StepOfWrap(x, 1);
      CmpOfWrap(x, nodes[k].lo + 1);
      NarrowNode(nodes, k, n, x);
      StoreSetHi(data1[..], d2, next[..], nodes, at, org, size, k, x - 1);
      if s == IncSeq(data1[i]) {
        data2[i] := -1;
      } else {
        data2[i] := DecSeq(s);
      }
      assert data2[..] == d2[i := EndOf(n)];
      nodes := nodes[k := n];
    }

    /** Takes s out of the middle of node i; the numbers beyond it become a node of their own. */
    method CutOut(i: int, locS: int, s: int, ghost k: int, ghost x: int)
      requires Valid() && 0 <= k < |nodes| && i == at[k] && s == Wrap(x) && nodes[k].lo < x < nodes[k].hi
      requires locS == Slot(x, org, size)
      modifies this`tail, this`nodes, this`at, data1, data2, next, prior
      ensures Rep(-1) && Contents() == old(Contents()) - {x}
    {
      hide Stored, Backed, Placed, Members, Total, Wrap, Slot, NextSlot, Range, SeqCmp, IncSeq, DecSeq, Ordered, DisjointBut, Hollow, InsertAt;
      ghost var d1, d2, nx, pr := data1[..], data2[..], next[..], prior[..];
      ghost var n := nodes[k];
      NodeAt(k);
      StepOfWrap(n.lo, 1);
      StepOfWrap(x, 1);
      CmpOfWrap(x, n.lo + 1);
      CmpOfWrap(n.hi, x + 1);
      SlotNext(x, org, size);
      var loc := NextSlot(locS, size);
      StoreHollow(d1, d2, nx, nodes, at, org, size, k, x);
      BackInsert(pr, at, k + 1, loc);
      HollowMembers(nodes, k, x);
      StoredEmpty(d1, d2, nx, nodes, at, org, size, loc);
      CutNumbers(i, loc, s);
      LinkBehind(i, loc, k);
      nodes, at := Hollow(nodes, k, x), InsertAt(at, k + 1, loc);
    }

    /** The numbers of the node at i, split round s: those beyond s go to the empty slot loc. */
    method CutNumbers(i: int, loc: int, s: int)
      requires data1 != data2 && 0 <= loc < data1.Length == data2.Length && 0 <= i < data1.Length && i != loc
      requires data2[loc] == -1
      modifies data1, data2
      ensures data1[..] == old(data1[..])[loc := IncSeq(s)]
      ensures data2[..] == old(data2[..])[i := if s == IncSeq(old(data1[i])) then -1 else DecSeq(s)][loc := if SeqCmp(old(data2[i]), IncSeq(s)) > 0 then old(data2[i]) else -1]
    {
      hide SeqCmp, IncSeq, DecSeq;
      data1[loc] := IncSeq(s);
      if SeqCmp(data2[i], data1[loc]) > 0 {
        data2[loc] := data2[i];
      }
      if s == IncSeq(data1[i]) {
        data2[i] := -1;
      } else {
        data2[i] := DecSeq(s);
      }
    }

    /** Links the node at loc behind node k. */
    method LinkBehind(i: int, loc: int, ghost k: int)
      requires next != prior && next.Length == prior.Length && Placed(at, next.Length)
      requires 0 <= k < |at| && i == at[k] && tail == at[|at| - 1]
      requires next[at[k]] == NextOf(at, k)
      requires 0 <= loc < next.Length && loc !in at
      modifies this`tail, next, prior
      ensures next[..] == old(next[..])[loc := NextOf(at, k)][at[k] := loc]
      ensures prior[..] == PriorAfterInsert(old(prior[..]), at, k + 1, loc)
      ensures tail == InsertAt(at, k + 1, loc)[|at|]
    {
      hide InsertAt;
      assert at[k] in at;
      assert k + 1 < |at| ==> at[k + 1] in at;
      next[loc] := next[i];
      next[i] := loc;
      prior[loc] := i;
      if tail == i {
        tail := loc;
      } else {
        prior[next[loc]] := loc;
      }
    }

    /** The node that starts at x, or -1. */
    lemma LocateNode(x: int) returns (k: int)
      requires Valid() && Comparable(x)
      ensures -1 <= k < |nodes|
      ensures k >= 0 ==> nodes[k].lo == x && at[k] == Slot(x, org, size) && data1[Slot(x, org, size)] == Wrap(x)
      ensures k < 0 ==> data1[Slot(x, org, size)] != Wrap(x) && forall j :: 0 <= j < |nodes| ==> nodes[j].lo != x
    {
      hide Stored, Backed, Members, Total, Wrap, Slot, Comparable, Contents;
      forall j | 0 <= j < |nodes|
        ensures Near(nodes[j].lo, x)
      {
        NearNode(x, j);
      }
      k := FindNode(data1[..], data2[..], next[..], nodes, at, org, size, x);
    }

    /** Walks down the slots from loc to the nearest node. */
    method SeekBack(loc: int, ghost x: int) returns (i: int, ghost k: int)
      requires Valid() && nodes != [] && nodes[0].lo < x && loc == Slot(x, org, size)
      requires forall j :: 0 <= j < |nodes| ==> nodes[j].lo != x
      ensures 0 <= k < |nodes| && i == at[k]
      ensures x in Contents() <==> x <= nodes[k].hi
      ensures nodes[k].lo < x || nodes[k].hi < x
    {
      hide Stored, Backed, Members, Total, Slot, PrevSlot;
      HeadNotEmpty(data1[..], data2[..], next[..], nodes, at, org, size);
      SlotPrev(x, org, size);
      i := PrevSlot(loc, size);
      ghost var y := x - 1;
      while data1[i] == -1
        invariant nodes[0].lo <= y < x && 0 <= i < size && i == Slot(y, org, size)
        invariant forall z :: y < z < x ==> data1[Slot(z, org, size)] == -1
        decreases y - nodes[0].lo
      {
        SlotPrev(y, org, size);
        i := PrevSlot(i, size);
        y := y - 1;
      }
      k := FoundBelow(data1[..], data2[..], next[..], nodes, at, org, size, x, y);
      NodeAt(k);
      MemberOfFound(nodes, k, x);
    }

    /** Removes s; the result says whether it was there. */
    method Remove(s: int, ghost x: int) returns (found: bool)
      requires Valid() && s == Wrap(x) && Comparable(x)
      modifies this, data1, data2, next, prior
      ensures Valid() && found == (x in old(Contents())) && Contents() == old(Contents()) - {x}
    {
      hide Stored, Backed, Ordered, Members, Total, Wrap, SeqOff, SeqCmp, Slot, SlotFrom, DisjointBut, Contents, Comparable;
      CountIsSize();
      if length == 0 {
        return false;
      }
      Extremes();
      NodeAt(0);
      NearNode(x, 0);
      OffOfWrap(nodes[0].lo, x);
      SlotMove(nodes[0].lo, x - nodes[0].lo, org, size);
      var offset := SeqOff(data1[head], s);
      if offset < 0 {
        return false;
      }
      var loc := SlotFrom(head, offset, size);
      ghost var k := LocateNode(x);
      if s == data1[loc] {
        NodeAt(k);
        if data2[loc] == -1 {
          DeleteSingle(loc, k);
        } else {
          ShiftStart(loc, k);
        }
        length := length - 1;
        return true;
      }
      var i;
      i, k := SeekBack(loc, x);
      NodeAt(k);
      NearNode(x, k);
      CmpOfWrap(x, nodes[k].hi);
      if data2[i] == -1 || SeqCmp(s, data2[i]) > 0 {
        return false;
      }
      if s == data2[i] {
        TrimEnd(i, s, k, x);
      } else {
        CutOut(i, loc, s, k, x);
      }
      length := length - 1;
      return true;
    }

    /** Is any number from s1 to s2 in the list? */
    method Find(s1: int, s2: int, ghost x1: int, ghost x2: int) returns (found: bool)
      requires Valid() && s1 == Wrap(x1) && s2 == Wrap(x2) && x1 <= x2 && Comparable(x1) && Comparable(x2)
      ensures found <==> exists c :: c in Contents() && x1 <= c <= x2
    {
      hide Stored, Backed, Ordered, Members, Total, Wrap, SeqCmp, Slot, DisjointBut, Comparable, Contents;
      CountIsSize();
      if length == 0 {
        return false;
      }
      var p := head;
      ghost var k := 0;
      NodeAt(0);
      while p != -1
        invariant 0 <= k <= |nodes| && p == (if k < |nodes| then at[k] else -1)
        invariant forall j :: 0 <= j < k ==> nodes[j].hi < x1 || x2 < nodes[j].lo
        decreases |nodes| - k
      {
        NodeAt(k);
        NearNode(x1, k);
        NearNode(x2, k);
        CmpOfWrap(nodes[k].lo, x1);
        CmpOfWrap(nodes[k].lo, x2);
        CmpOfWrap(nodes[k].hi, x1);
        if SeqCmp(data1[p], s1) == 0
          || (SeqCmp(data1[p], s1) > 0 && SeqCmp(data1[p], s2) <= 0)
          || (SeqCmp(data1[p], s1) < 0 && data2[p] != -1 && SeqCmp(data2[p], s1) >= 0) {
          MeetsNode(k, x1, x2);
          return true;
        }
        p := next[p];
        k := k + 1;
      }
      NoneMeets(x1, x2);
      return false;
    }

    lemma MeetsNode(k: int, x1: int, x2: int)
      requires Valid() && 0 <= k < |nodes| && x1 <= x2 && nodes[k].lo <= x2 && x1 <= nodes[k].hi
      ensures exists c :: c in Contents() && x1 <= c <= x2
    {
      hide Stored, Backed, Members, Total, Wrap, Slot;
      NodeAt(k);
      var c := MaxOf(nodes[k].lo, x1);
      MembersAt(nodes, c);
    }

    lemma NoneMeets(x1: int, x2: int)
      requires forall j :: 0 <= j < |nodes| ==> nodes[j].hi < x1 || x2 < nodes[j].lo
      ensures forall c :: c in Contents() ==> !(x1 <= c <= x2)
    {
      hide Members;
      forall c | c in Members(nodes)
        ensures !(x1 <= c <= x2)
      {
        MembersAt(nodes, c);
      }
    }

    /** The first lost number, or -1. */
    method GetFirstLostSeq() returns (s: int)
      requires Valid()
      ensures Contents() == {} ==> s == -1
      ensures Contents() != {} ==> exists x :: x in Contents() && s == Wrap(x) && forall c :: c in Contents() ==> x <= c
    {
      hide Stored, Backed, Ordered, Members, Total, Wrap, Slot, DisjointBut, Contents;
      CountIsSize();
      if length == 0 {
        return -1;
      }
      Extremes();
      NodeAt(0);
      return data1[head];
    }

    /** Writes the list into a NAK: all of it, or its leading nodes when the limit cuts it. */
    method GetLossArray(words: array<int>, limit: int) returns (len: int, ghost m: int)
      requires Valid() && limit <= words.Length
      requires words != data1 && words != data2 && words != next && words != prior
      modifies words
      ensures Valid()
      ensures 0 <= m <= |nodes| && 0 <= len <= words.Length && (limit >= 0 ==> len <= limit)
      ensures words[..len] == Encode(nodes[..m]) && words[len..] == old(words[..])[len..]
      ensures m == |nodes| || len >= limit - 1
    {
      hide Stored, Backed, Ordered, Members, Total, Wrap, Slot, DisjointBut, Contents, Encode;
      len, m := 0, 0;
      var i := head;
      assert nodes[..0] == [] && Encode([]) == [] by {
        EncodeNothing();
      }
      while len < limit - 1 && i != -1
        invariant Valid() && nodes == old(nodes)
        invariant 0 <= m <= |nodes| && i == (if m < |nodes| then at[m] else -1)
        invariant 0 <= len <= words.Length && (limit >= 0 ==> len <= limit)
        invariant words[..len] == Encode(nodes[..m])
        invariant words[len..] == old(words[..])[len..]
        decreases |nodes| - m
      {
        NodeAt(m);
        CmpOfWrap(nodes[m].lo, nodes[m].hi);
        EncodeAppend(nodes, m);
        len := WriteWords(words, len, i, nodes[m]);
        i := next[i];
        m := m + 1;
      }
      if m < |nodes| {
        NodeAt(m);
      }
    }

    /** The words of the node at slot i. */
    method WriteWords(words: array<int>, start: int, i: int, ghost n: Node) returns (len: int)
      requires words != data1 && words != data2
      requires 0 <= i < data1.Length && i < data2.Length && data1[i] == Wrap(n.lo) && data2[i] == EndOf(n)
      requires 0 <= start && start + 1 < words.Length
      modifies words
      ensures start < len <= start + 2 && words[..len] == old(words[..])[..start] + EncodeNode(n)
      ensures words[len..] == old(words[..])[len..]
    {
      hide Wrap;
      len := start;
      words[len] := data1[i];
      if data2[i] != -1 {
        words[len] := words[len] - MARK;
        len := len + 1;
        words[len] := data2[i];
      }
      len := len + 1;
    }
  }

  lemma EncodeNothing()
    ensures Encode([]) == []
  {
  }

  lemma DeleteMembers(nodes: seq<Node>, k: int)
    requires Ordered(nodes) && Disjoint(nodes) && 0 <= k < |nodes| && nodes[k].lo == nodes[k].hi
    ensures Members(DeleteAt(nodes, k)) == Members(nodes) - {nodes[k].lo}
    ensures Total(DeleteAt(nodes, k)) == Total(nodes) - 1
    ensures Disjoint(DeleteAt(nodes, k))
  {
    hide Members, Total, Range;
    DeleteNode(nodes, k);
    OutsideNode(nodes, k, nodes[k].lo);
    SingleRange(nodes[k].lo);
    var after := DeleteAt(nodes, k);
    forall i, j | 0 <= i < j < |after|
      ensures after[i].hi < after[j].lo
    {
      assert after[i] == nodes[if i < k then i else i + 1] && after[j] == nodes[if j < k then j else j + 1];
    }
  }

  lemma AppendDisjoint(nodes: seq<Node>, n: Node)
    requires nodes != [] && Ordered(nodes) && Disjoint(nodes) && nodes[|nodes| - 1].hi < n.lo <= n.hi
    ensures Disjoint(InsertAt(nodes, |nodes|, n))
    ensures forall first, last :: Within(nodes, first, last) && first <= n.lo && n.hi <= last ==> Within(InsertAt(nodes, |nodes|, n), first, last)
  {
    assert InsertAt(nodes, |nodes|, n) == nodes + [n];
  }
}
