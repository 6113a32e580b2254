/** The sender's loss list (list.cpp, class CSndLossList).

    `Contents()` is the set of lost packets, by coordinate; the wire number of coordinate x is Wrap(x).  Every
    operation is proved to be the set operation its documentation names (list.h). */
module SndLossLists {
  import opened SeqNo
  import opened LossChain

  class SndLossList {
    const size: int
    const data1: array<int>
    const data2: array<int>
    const next: array<int>
    var head: int
    var length: int
    var lastInsertPos: int

    ghost var nodes: seq<Node>  // the chain, in order
    ghost var at: seq<int>      // the slot of each node
    ghost var org: int          // the coordinate whose slot is 0

    ghost function Repr(): set<object> {
      {this, data1, data2, next}
    }

    /** The representation, except for where the head stands. */
    ghost predicate Core()
      reads this, data1, data2, next
    {
      && data1 != data2 && data1 != next && data2 != next
      && data1.Length == data2.Length == next.Length == size > 0
      && Stored(data1[..], data2[..], next[..], nodes, at, org, size)
      && |at| == |nodes|
      && length == Total(nodes)
      && (lastInsertPos == -1 || lastInsertPos in at)
    }

    ghost predicate Rep()
      reads this, data1, data2, next
    {
      Core() && head == HeadOf(at)
    }

    ghost predicate Valid()
      reads this, data1, data2, next
    {
      Rep() && Disjoint(nodes)
    }

    ghost function Contents(): set<int>
      reads this`nodes
    {
      Members(nodes)
    }

    /** The coordinate x can be compared with, and stored beside, everything in the list. */
    ghost predicate Fits(x: int)
      reads this`nodes
    {
      forall c :: c in Contents() ==> -Capacity(size) < c - x < Capacity(size)
    }

    /** The coordinate x can be compared with everything in the list. */
    ghost predicate Comparable(x: int)
      reads this`nodes
    {
      forall c :: c in Contents() ==> Near(c, x)
    }

    constructor (size: int)
      requires size > 0
      ensures Valid() && Contents() == {} && this.size == size
      ensures fresh(data1) && fresh(data2) && fresh(next)
    {
      this.size := size;
      data1 := new int[size](_ => -1);
      data2 := new int[size](_ => -1);
      next := new int[size](_ => 0);
      head := -1;
      length := 0;
      lastInsertPos := -1;
      nodes := [];
      at := [];
      org := 0;
    }

    lemma FitsNode(x: int, k: int)
      requires Core() && Fits(x) && 0 <= k < |nodes|
      ensures -Capacity(size) < nodes[k].lo - x < Capacity(size)
      ensures -Capacity(size) < nodes[k].hi - x < Capacity(size)
    {
      hide Stored, Members, Total;
      StoredNode(data1[..], data2[..], next[..], nodes, at, org, size, k);
      EndsAreMembers(nodes, k);
      assert nodes[k].lo in Contents() && nodes[k].hi in Contents();
    }

    lemma FitsCompares(x: int)
      requires Fits(x)
      ensures Comparable(x)
    {
    }

    lemma NearNode(x: int, k: int)
      requires Core() && Comparable(x) && 0 <= k < |nodes|
      ensures Near(nodes[k].lo, x) && Near(nodes[k].hi, x)
    {
      hide Stored, Members, Total;
      StoredNode(data1[..], data2[..], next[..], nodes, at, org, size, k);
      EndsAreMembers(nodes, k);
      assert nodes[k].lo in Contents() && nodes[k].hi in Contents();
    }

    /** Stretches node k over its successor i, which it overlaps or touches, and counts shared numbers once. */
    method JoinEnds(loc: int, i: int, ghost k: int)
      requires Rep() && 0 <= k < |nodes| - 1 && loc == at[k] && i == at[k + 1]
      requires nodes[k].lo < nodes[k].hi && nodes[k + 1].lo <= nodes[k].hi + 1
      modifies this`length, data2
      ensures data2[..] == old(data2[..])[loc := EndOf(Node(nodes[k].lo, MaxOf(nodes[k].hi, nodes[k + 1].hi)))]
      ensures length == old(length) - (nodes[k].hi - nodes[k].lo + 1) - (nodes[k + 1].hi - nodes[k + 1].lo + 1)
                        + (MaxOf(nodes[k].hi, nodes[k + 1].hi) - nodes[k].lo + 1)
    {
      hide Stored, Ordered, Members, Total, Wrap, SeqCmp, SeqLen, IncSeq;
      ghost var a, b := nodes[k], nodes[k + 1];
      StoredNode(data1[..], data2[..], next[..], nodes, at, org, size, k);
      StoredNode(data1[..], data2[..], next[..], nodes, at, org, size, k + 1);
      StepOfWrap(a.hi, 1);
      CmpOfWrap(b.lo, a.hi + 1);
      CmpOfWrap(b.hi, a.hi);
      CmpOfWrap(a.hi, b.lo);
      LenOfWrap(b.lo, MaxOf(b.lo, a.hi));
      LenOfWrap(b.lo, b.hi);
      if data2[i] != -1 {
        if SeqCmp(data2[i], data2[loc]) > 0 {
          if SeqCmp(data2[loc], data1[i]) >= 0 {
            length := length - SeqLen(data1[i], data2[loc]);
          }
          data2[loc] := data2[i];
        } else {
          length := length - SeqLen(data1[i], data2[i]);
        }
      } else {
        if data1[i] == IncSeq(data2[loc]) {
          data2[loc] := data1[i];
        } else {
          length := length - 1;
        }
      }
    }

    /** Joins node k with its successor i, which it overlaps or touches. */
    method AbsorbNext(loc: int, i: int, ghost k: int)
      requires Rep() && 0 <= k < |nodes| - 1 && loc == at[k] && i == at[k + 1] && lastInsertPos == loc
      requires nodes[k].lo < nodes[k].hi && nodes[k + 1].lo <= nodes[k].hi + 1
      modifies this, data1, data2, next
      ensures Rep() && nodes == old(Absorbed(nodes, k)) && at == old(DeleteAt(at, k + 1))
      ensures Contents() == old(Contents()) && lastInsertPos == loc && org == old(org)
    {
      hide Stored, Ordered, Members, Total, Wrap;
      ghost var a, b := nodes[k], nodes[k + 1];
      ghost var d1, d2, nx := data1[..], data2[..], next[..];
      StoredNode(d1, d2, nx, nodes, at, org, size, k);
      StoredNode(d1, d2, nx, nodes, at, org, size, k + 1);
      StoreAbsorb(d1, d2, nx, nodes, at, org, size, k);
      MergeNodes(nodes, k);
      JoinEnds(loc, i, k);
      data1[i] := -1;
      data2[i] := -1;
      next[loc] := next[i];
      assert data1[..] == d1[i := -1];
      assert data2[..] == d2[loc := EndOf(Node(a.lo, MaxOf(a.hi, b.hi)))][i := -1];
      assert next[..] == nx[loc := NextOf(at, k + 1)];
      nodes, at := Absorbed(nodes, k), DeleteAt(at, k + 1);
    }

    /** Swallows the nodes after node k that it overlaps or touches. */
    method Coalesce(loc: int, ghost k: int)
      requires Rep() && 0 <= k < |nodes| && loc == at[k] && lastInsertPos == loc && DisjointBut(nodes, k)
      modifies this, data1, data2, next
      ensures Valid() && Contents() == old(Contents())
    {
      hide Stored, Ordered, Members, Total, DisjointBut, Wrap, SeqCmp, SeqLen, IncSeq, DecSeq, IncSeqBy, Absorbed;
      StoredNode(data1[..], data2[..], next[..], nodes, at, org, size, k);
      while next[loc] != -1 && data2[loc] != -1
        invariant 0 <= loc < size
        invariant Rep() && 0 <= k < |nodes| && loc == at[k] && lastInsertPos == loc && DisjointBut(nodes, k)
        invariant Contents() == old(Contents())
        decreases |nodes|
      {
        var i := next[loc];
        StoredNode(data1[..], data2[..], next[..], nodes, at, org, size, k);
        StoredNode(data1[..], data2[..], next[..], nodes, at, org, size, k + 1);
        StepOfWrap(nodes[k].hi, 1);
        CmpOfWrap(nodes[k + 1].lo, nodes[k].hi + 1);
        if SeqCmp(data1[i], IncSeq(data2[loc])) <= 0 {
          AbsorbedDisjoint(nodes, k);
          AbsorbNext(loc, i, k);
        } else {
          break;
        }
      }
      StoredNode(data1[..], data2[..], next[..], nodes, at, org, size, k);
      if k + 1 < |nodes| {
        StoredNode(data1[..], data2[..], next[..], nodes, at, org, size, k + 1);
        StepOfWrap(nodes[k].hi, 1);
        CmpOfWrap(nodes[k + 1].lo, nodes[k].hi + 1);
      }
      NoOverlapLeft(nodes, k);
    }

    /** Stores a new node for [s1, s2] in the empty slot loc, after node k - 1 (which sits at prior), or in front. */
    method NewNode(loc: int, s1: int, s2: int, prior: int, ghost k: int, ghost x1: int, ghost x2: int)
      requires Valid() && nodes != [] && 0 <= k <= |nodes| && s1 == Wrap(x1) && s2 == Wrap(x2)
      requires x1 <= x2 < x1 + Capacity(size) && Fits(x1) && Fits(x2)
      requires loc == Slot(x1, org, size) && prior == (if k == 0 then -1 else at[k - 1])
      requires forall j :: 0 <= j < |nodes| ==> if j < k then nodes[j].hi < x1 else x1 < nodes[j].lo
      modifies this, data1, data2, next
      ensures Rep() && nodes == InsertAt(old(nodes), k, Node(x1, x2)) && at == InsertAt(old(at), k, loc) && org == old(org)
      ensures lastInsertPos == loc && DisjointBut(nodes, k) && Contents() == old(Contents()) + Range(x1, x2)
    {
      hide Stored, Ordered, Members, Total, Wrap, SeqLen, Slot, DisjointBut, LinkAfterInsert, InsertAt, Fits, Range, EndOf;
      ghost var n := Node(x1, x2);
      ghost var d1, d2, nx := data1[..], data2[..], next[..];
      InsertFacts(k, n);
      StoreInsert(d1, d2, nx, nodes, at, org, size, k, n);
      StoredNode(d1, d2, nx, nodes, at, org, size, if k > 0 then k - 1 else 0);
      InsertNode(nodes, k, n);
      InsertDisjoint(nodes, k, n);
      CmpOfWrap(x1, x2);
      LenOfWrap(x1, x2);
      StoredEmpty(d1, d2, nx, nodes, at, org, size, loc);

      WriteNode(data1, data2, loc, s1, s2, n);
      LinkIn(loc, prior, k);
      lastInsertPos := loc;
      length := length + SeqLen(s1, s2);
      nodes, at := InsertAt(nodes, k, n), InsertAt(at, k, loc);
    }

    /** The window and order conditions of the insertion. */
    lemma InsertFacts(k: int, n: Node)
      requires Valid() && nodes != [] && 0 <= k <= |nodes|
      requires n.lo <= n.hi < n.lo + Capacity(size) && Fits(n.lo) && Fits(n.hi)
      requires forall j :: 0 <= j < |nodes| ==> if j < k then nodes[j].hi < n.lo else n.lo < nodes[j].lo
      ensures k > 0 ==> nodes[k - 1].lo < n.lo
      ensures k < |nodes| ==> n.lo < nodes[k].lo
      ensures Within(InsertAt(nodes, k, n), if k == 0 then n.lo else nodes[0].lo, (if k == 0 then n.lo else nodes[0].lo) + Capacity(size) - 1)
    {
      hide Stored, Members, Total, Contents, Fits;
      var after := InsertAt(nodes, k, n);
      FitsNode(n.hi, 0);
      StoredNode(data1[..], data2[..], next[..], nodes, at, org, size, if k > 0 then k - 1 else 0);
      forall j | 0 <= j < |after|
        ensures (if k == 0 then n.lo else nodes[0].lo) <= after[j].lo
        ensures after[j].hi <= (if k == 0 then n.lo else nodes[0].lo) + Capacity(size) - 1
      {
        if j != k {
          var j0 := if j < k then j else j - 1;
          assert after[j] == nodes[j0];
          FitsNode(n.lo, j0);
          StoredNode(data1[..], data2[..], next[..], nodes, at, org, size, j0);
        }
      }
    }

    /** The links of a new node at loc. */
    method LinkIn(loc: int, prior: int, ghost k: int)
      requires |at| > 0 && 0 <= k <= |at| && 0 <= loc < next.Length && head == at[0]
      requires k > 0 ==> 0 <= at[k - 1] < next.Length && next[at[k - 1]] == NextOf(at, k - 1) && at[k - 1] != loc
      requires prior == (if k == 0 then -1 else at[k - 1])
      modifies this`head, next
      ensures next[..] == LinkAfterInsert(old(next[..]), at, k, loc) && head == HeadOf(InsertAt(at, k, loc))
    {
      if prior == -1 {
        next[loc] := head;
        head := loc;
      } else {
        next[loc] := next[prior];
        next[prior] := loc;
      }
    }

    /** Moves the end of node k up to s2, if that is beyond its present end. */
    method Extend(loc: int, s2: int, ghost k: int, ghost x1: int, ghost x2: int) returns (grown: bool)
      requires Valid() && 0 <= k < |nodes| && loc == at[k] && s2 == Wrap(x2) && lastInsertPos == loc
      requires nodes[k].lo <= x1 <= nodes[k].hi + 1 && x1 <= x2 && Fits(x2)
      modifies this`length, this`nodes, data2
      ensures grown <==> old(nodes[k].hi) < x2
      ensures Rep() && |nodes| == |old(nodes)| && DisjointBut(nodes, k)
      ensures !grown ==> Valid() && Contents() == old(Contents())
      ensures Contents() == old(Contents()) + Range(x1, x2)
    {
      hide Stored, Ordered, Members, Total, Wrap, SeqLen, SeqCmp, Fits, Range;
      ghost var a := nodes[k];
      ghost var d2 := data2[..];
      FitsNode(x2, 0);
      Stretched(nodes, k, x1, x2);
      StoredNode(data1[..], data2[..], next[..], nodes, at, org, size, k);
      CmpOfWrap(x2, a.lo);
      CmpOfWrap(x2, a.hi);
      LenOfWrap(a.lo, x2);
      LenOfWrap(a.hi, MaxOf(a.hi, x2));
      ReplaceNode(nodes, k, Node(a.lo, x2));
      grown := false;
      if data2[loc] == -1 {
        if s2 != data1[loc] {
          length := length + SeqLen(data1[loc], s2) - 1;
          data2[loc] := s2;
          grown := true;
        }
      } else if SeqCmp(s2, data2[loc]) > 0 {
        length := length + SeqLen(data2[loc], s2) - 1;
        data2[loc] := s2;
        grown := true;
      }
      if grown {
        StoreSetHi(data1[..], d2, next[..], nodes, at, org, size, k, x2);
        nodes := nodes[k := Node(a.lo, x2)];
        assert data2[..] == d2[loc := EndOf(nodes[k])];
      } else {
        assert data2[..] == d2;
      }
    }

    /** The last node that starts before s, looking from node k0 on. */
    method SeekPrior(start: int, s: int, ghost k0: int, ghost x: int) returns (i: int, ghost k: int)
      requires Valid() && Comparable(x) && s == Wrap(x)
      requires 0 <= k0 < |nodes| && start == at[k0] && nodes[k0].lo < x
      ensures 0 <= k < |nodes| && i == at[k] && nodes[k].lo < x
      ensures k + 1 < |nodes| ==> x <= nodes[k + 1].lo
    {
      hide Stored, Ordered, Members, Total, Wrap, SeqCmp, DisjointBut, Comparable, Contents;
      i, k := start, k0;
      StoredNode(data1[..], data2[..], next[..], nodes, at, org, size, k);
      while next[i] != -1 && SeqCmp(data1[next[i]], s) < 0
        invariant 0 <= k < |nodes| && i == at[k] && nodes[k].lo < x
        invariant 0 <= i < size && next[i] == NextOf(at, k)
        invariant k + 1 < |nodes| ==> 0 <= at[k + 1] < size && data1[at[k + 1]] == Wrap(nodes[k + 1].lo)
        decreases |nodes| - k
      {
        NearNode(x, k + 1);
        CmpOfWrap(nodes[k + 1].lo, x);
        i := next[i];
        k := k + 1;
        StoredNode(data1[..], data2[..], next[..], nodes, at, org, size, k);
      }
      if k + 1 < |nodes| {
        NearNode(x, k + 1);
        CmpOfWrap(nodes[k + 1].lo, x);
      }
    }

    /** The last node that starts before s1, searched from the last insertion or from the head. */
    method FindPrior(s1: int, ghost x1: int) returns (i: int, ghost k: int)
      requires Valid() && Comparable(x1) && s1 == Wrap(x1) && nodes != [] && nodes[0].lo < x1
      ensures 0 <= k < |nodes| && i == at[k] && nodes[k].lo < x1
      ensures k + 1 < |nodes| ==> x1 <= nodes[k + 1].lo
    {
      hide Stored, Ordered, Members, Total, Wrap, SeqCmp, DisjointBut, Comparable, Contents;
      k := 0;
      if lastInsertPos != -1 {
        ghost var j :| 0 <= j < |at| && at[j] == lastInsertPos;
        k := j;
        StoredNode(data1[..], data2[..], next[..], nodes, at, org, size, k);
        NearNode(x1, k);
        CmpOfWrap(nodes[k].lo, x1);
      }
      if lastInsertPos != -1 && SeqCmp(data1[lastInsertPos], s1) < 0 {
        i := lastInsertPos;
      } else {
        i := head;
        k := 0;
      }
      i, k := SeekPrior(i, s1, k, x1);
    }

    /** A node holding s1 to s2, in an empty list. */
    method InsertFirst(s1: int, s2: int, ghost x1: int, ghost x2: int)
      requires Valid() && nodes == [] && s1 == Wrap(x1) && s2 == Wrap(x2) && x1 <= x2 < x1 + Capacity(size)
      modifies this, data1, data2, next
      ensures Valid() && Contents() == Range(x1, x2)
    {
      ghost var n := Node(x1, x2);
      ghost var d1, d2, nx := data1[..], data2[..], next[..];
      hide Wrap, SeqLen, Stored;
      CmpOfWrap(x1, x2);
      LenOfWrap(x1, x2);
      StoreFirst(d1, d2, nx, at, org, size, n);
      head := 0;
      WriteNode(data1, data2, head, s1, s2, n);
      next[head] := -1;
      lastInsertPos := head;
      length := length + SeqLen(s1, s2);
      assert next[..] == nx[0 := -1];
      nodes, at, org := [n], [0], x1;
      SingleChain(n);
    }

    /** Inserts behind the head: at the node that starts with s1, or after the last node that starts before it.
        done: there was nothing new. */
    method InsertBehind(s1: int, s2: int, loc: int, ghost x1: int, ghost x2: int) returns (pos: int, done: bool, ghost k: int)
      requires Valid() && nodes != [] && s1 == Wrap(x1) && s2 == Wrap(x2) && nodes[0].lo < x1
      requires x1 <= x2 < x1 + Capacity(size) && Fits(x1) && Fits(x2) && loc == Slot(x1, org, size)
      modifies this, data1, data2, next
      ensures Rep() && 0 <= k < |nodes| && pos == at[k] && lastInsertPos == pos && DisjointBut(nodes, k)
      ensures Contents() == old(Contents()) + Range(x1, x2)
      ensures done ==> Valid() && Contents() == old(Contents())
    {
      hide Stored, Ordered, Members, Total, Wrap, SeqCmp, Slot, DisjointBut, Fits, InsertAt, Contents;
      pos, done := loc, false;
      FitsCompares(x1);
      k := LocateNode(x1);
      if s1 == data1[loc] {
        StoredNode(data1[..], data2[..], next[..], nodes, at, org, size, k);
        lastInsertPos := loc;
        var grown := Extend(loc, s2, k, x1, x2);
        done := !grown;
      } else {
        var i;
        i, k := FindPrior(s1, x1);
        StoredNode(data1[..], data2[..], next[..], nodes, at, org, size, k);
        FitsNode(x1, k);
        CmpOfWrap(nodes[k].hi, x1);
        if data2[i] == -1 || SeqCmp(data2[i], s1) < 0 {
          OrderBeyond(nodes, k, x1 - 1);
          NewNode(loc, s1, s2, i, k + 1, x1, x2);
          k := k + 1;
        } else {
          lastInsertPos := i;
          var grown := Extend(i, s2, k, x1, x2);
          pos, done := i, !grown;
        }
      }
    }

    /** Inserts the numbers from s1 to s2; the result counts those that were not in the list before. */
    method Insert(s1: int, s2: int, ghost x1: int, ghost x2: int) returns (added: int)
      requires Valid() && s1 == Wrap(x1) && s2 == Wrap(x2)
      requires x1 <= x2 < x1 + Capacity(size) && Fits(x1) && Fits(x2)
      modifies this, data1, data2, next
      ensures Valid() && Contents() == old(Contents()) + Range(x1, x2)
      ensures added == |Contents()| - |old(Contents())|
    {
      hide Stored, Ordered, Members, Total, Wrap, SeqCmp, SeqOff, Slot, Locate, DisjointBut, Fits, InsertAt, Contents, Range;
      CountIsSize();
      if length == 0 {
        InsertFirst(s1, s2, x1, x2);
        CountIsSize();
        return length;
      }
      var origlen := length;
      StoredNode(data1[..], data2[..], next[..], nodes, at, org, size, 0);
      FitsNode(x1, 0);
      OffOfWrap(nodes[0].lo, x1);
      SlotMove(nodes[0].lo, x1 - nodes[0].lo, org, size);
      var offset := SeqOff(data1[head], s1);
      var loc := Locate(head, offset, size);
      ghost var k := 0;
      var done := false;
      if offset < 0 {
        OrderBeyond(nodes, -1, x1 - 1);
        NewNode(loc, s1, s2, -1, 0, x1, x2);
      } else if offset > 0 {
        loc, done, k := InsertBehind(s1, s2, loc, x1, x2);
      } else {
        lastInsertPos := head;
        var grown := Extend(loc, s2, 0, x1, x2);
        done := !grown;
      }
      if done {
        CountIsSize();
        return 0;
      }
      Coalesce(loc, k);
      CountIsSize();
      return length - origlen;
    }

    /** The length field counts the members. */
    lemma CountIsSize()
      requires Valid()
      ensures length == |Contents()|
      ensures length == 0 <==> nodes == []
    {
      hide Wrap, Slot, Linked;
      TotalIsCardinality(nodes);
      TotalPositive(nodes);
    }

    /** The node that starts at x, or -1. */
    lemma LocateNode(x: int) returns (k: int)
      requires Valid() && Comparable(x)
      ensures -1 <= k < |nodes|
      ensures k >= 0 ==> nodes[k].lo == x && at[k] == Slot(x, org, size) && data1[Slot(x, org, size)] == Wrap(x)
      ensures k < 0 ==> data1[Slot(x, org, size)] != Wrap(x) && forall j :: 0 <= j < |nodes| ==> nodes[j].lo != x
    {
      hide Stored, Members, Total, Wrap, Slot, Comparable, Contents;
      forall j | 0 <= j < |nodes|
        ensures Near(nodes[j].lo, x)
      {
        NearNode(x, j);
      }
      k := FindNode(data1[..], data2[..], next[..], nodes, at, org, size, x);
    }

    /** Takes the first number, s, off the first node: the node disappears, or moves on by one slot. */
    method DropFirst(s: int)
      requires Valid() && nodes != [] && s == Wrap(nodes[0].lo) && lastInsertPos != head
      modifies this`head, this`length, this`nodes, this`at, data1, data2, next
      ensures Valid() && Contents() == old(Contents()) - {old(nodes[0].lo)}
    {
      hide Stored, Members, Total, Wrap, DisjointBut;
      StoredNode(data1[..], data2[..], next[..], nodes, at, org, size, 0);
      if data2[head] == -1 {
        DropSingle();
      } else {
        ShrinkFirst(s);
      }
    }

    method DropSingle()
      requires Valid() && nodes != [] && nodes[0].lo == nodes[0].hi && lastInsertPos != head
      modifies this`head, this`length, this`nodes, this`at, data1
      ensures Valid() && Contents() == old(Contents()) - {old(nodes[0].lo)}
    {
      hide Stored, Ordered, Members, Total, Wrap, DisjointBut, Range;
      ghost var d1, d2, nx := data1[..], data2[..], next[..];
      ghost var n := nodes[0];
      StoredNode(d1, d2, nx, nodes, at, org, size, 0);
      StoreDelete(d1, d2, nx, nodes, at, org, size, 0);
      DropFirstNode(nodes);
      SingleRange(n.lo);
      data1[head] := -1;
      assert data1[..] == d1[at[0] := -1] && data2[..] == d2[at[0] := -1];
      head := next[head];
      length := length - 1;
      nodes, at := DeleteAt(nodes, 0), DeleteAt(at, 0);
    }

    method ShrinkFirst(s: int)
      requires Valid() && nodes != [] && nodes[0].lo < nodes[0].hi && s == Wrap(nodes[0].lo) && lastInsertPos != head
      modifies this`head, this`length, this`nodes, this`at, data1, data2, next
      ensures Valid() && Contents() == old(Contents()) - {old(nodes[0].lo)}
    {
      hide Stored, Ordered, Members, Total, Wrap, SeqCmp, IncSeq, Slot, NextSlot, DisjointBut, Range;
      ghost var d1, d2, nx := data1[..], data2[..], next[..];
      ghost var n := nodes[0];
      StoredNode(d1, d2, nx, nodes, at, org, size, 0);
      StepOfWrap(n.lo, 1);
      CmpOfWrap(n.hi, n.lo + 1);
      SlotNext(n.lo, org, size);
      StoreShift(d1, d2, nx, nodes, at, org, size, 0);
      NarrowNode(nodes, 0, Node(n.lo + 1, n.hi), n.lo);
      var loc := NextSlot(head, size);
      StoredEmpty(d1, d2, nx, nodes, at, org, size, loc);
      if lastInsertPos != -1 {
        ghost var j :| 0 <= j < |at| && at[j] == lastInsertPos;
        assert at[0 := loc][j] == lastInsertPos;
      }
      AdvanceHead(loc, s);
      length := length - 1;
      nodes, at := nodes[0 := Node(n.lo + 1, n.hi)], at[0 := loc];
    }

    /** The array updates that move the first node one slot on. */
    method AdvanceHead(loc: int, s: int)
      requires data1 != data2 && data1 != next && data2 != next
      requires data1.Length == data2.Length == next.Length == size
      requires 0 <= head < size && 0 <= loc < size && loc != head
      requires data2[loc] == -1
      modifies this`head, data1, data2, next
      ensures head == loc
      ensures data1[..] == old(data1[..])[old(head) := -1][loc := IncSeq(s)]
      ensures data2[..] == old(data2[..])[old(head) := -1][loc := if SeqCmp(old(data2[head]), IncSeq(s)) > 0 then old(data2[head]) else -1]
      ensures next[..] == old(next[..])[loc := old(next[head])]
    {
      hide SeqCmp, IncSeq;
      data1[loc] := IncSeq(s);
      if SeqCmp(data2[head], data1[loc]) > 0 {
        data2[loc] := data2[head];
      }
      data1[head] := -1;
      data2[head] := -1;
      next[loc] := next[head];
      head := loc;
    }

    /** Reads the first lost number and removes it; -1 if the list is empty. */
    method GetLostSeq() returns (s: int)
      requires Valid()
      modifies this, data1, data2, next
      ensures Valid()
      ensures old(Contents()) == {} ==> s == -1 && Contents() == {}
      ensures old(Contents()) != {} ==>
        exists x :: x in old(Contents()) && s == Wrap(x) && (forall c :: c in old(Contents()) ==> x <= c) && Contents() == old(Contents()) - {x}
    {
      hide Stored, Ordered, Members, Total, Wrap, Slot, Disjoint;
      CountIsSize();
      if length == 0 {
        return -1;
      }
      FirstIsLeast();
      ghost var x := nodes[0].lo;
      StoredNode(data1[..], data2[..], next[..], nodes, at, org, size, 0);
      if lastInsertPos == head {
        lastInsertPos := -1;
      }
      s := data1[head];
      DropFirst(s);
      assert x in old(Contents());
    }

    lemma FirstIsLeast()
      requires Valid() && nodes != []
      ensures nodes[0].lo in Contents() && forall c :: c in Contents() ==> nodes[0].lo <= c
    {
      hide Wrap, Slot, Linked, Members;
      EndsAreMembers(nodes, 0);
      forall c | c in Members(nodes)
        ensures nodes[0].lo <= c
      {
        ExtremesOfChain(nodes, c);
      }
    }

    /** The list is about to be cut before node t: the head already stands there. */
    ghost predicate CutAt(t: int)
      reads this, data1, data2, next
    {
      && Core() && Disjoint(nodes) && 0 <= t <= |nodes|
      && head == (if t < |at| then at[t] else -1)
    }

    /** Cuts node k after s; end is what remains in the end field of its first half. */
    method SplitNode(i: int, locS: int, s: int, end: int, ghost k: int, ghost x: int)
      requires Valid() && 0 <= k < |nodes| && i == at[k] && s == Wrap(x) && nodes[k].lo <= x < nodes[k].hi
      requires locS == Slot(x, org, size) && end == EndOf(Node(nodes[k].lo, x))
      modifies this`head, this`nodes, this`at, data1, data2, next
      ensures CutAt(k + 1) && Contents() == old(Contents()) && at[0] == old(at[0])
      ensures forall j :: 0 <= j < |nodes| ==> if j < k + 1 then nodes[j].hi <= x else x < nodes[j].lo
    {
      hide Stored, Members, Total, Wrap, SeqCmp, IncSeq, Slot, NextSlot, DisjointBut, Split, InsertAt;
      ghost var d1, d2, nx := data1[..], data2[..], next[..];
      ghost var n := nodes[k];
      StoredNode(d1, d2, nx, nodes, at, org, size, k);
      SlotNext(x, org, size);
      StepOfWrap(x, 1);
      CmpOfWrap(n.hi, x + 1);
      StoreSplit(d1, d2, nx, nodes, at, org, size, k, x);
      SplitOrder(nodes, k, x);
      SplitMembers(nodes, k, x);
      var loc := NextSlot(locS, size);
      StoredEmpty(d1, d2, nx, nodes, at, org, size, loc);
      SplitWrites(i, loc, s, end);
      nodes, at := Split(nodes, k, x), InsertAt(at, k + 1, loc);
    }

    /** The array updates that cut the node at slot i and link its second half, at loc, behind it. */
    method SplitWrites(i: int, loc: int, s: int, end: int)
      requires data1 != data2 && data1 != next && data2 != next
      requires data1.Length == data2.Length == next.Length == size
      requires 0 <= i < size && 0 <= loc < size && loc != i && data2[loc] == -1
      modifies this`head, data1, data2, next
      ensures head == loc
      ensures data1[..] == old(data1[..])[loc := IncSeq(s)]
      ensures data2[..] == old(data2[..])[i := end][loc := if SeqCmp(old(data2[i]), IncSeq(s)) > 0 then old(data2[i]) else -1]
      ensures next[..] == old(next[..])[loc := old(next[i])][i := loc]
    {
      hide SeqCmp, IncSeq;
      data1[loc] := IncSeq(s);
      if SeqCmp(data2[i], data1[loc]) > 0 {
        data2[loc] := data2[i];
      }
      data2[i] := end;
      next[loc] := next[i];
      next[i] := loc;
      head := loc;
    }

    /** Cuts the chain after s, which lies behind the first number of the head: afterwards the head stands at the
        first node beyond s. */
    method CutBehind(s: int, loc: int, ghost x: int) returns (ghost t: int)
      requires Valid() && nodes != [] && s == Wrap(x) && nodes[0].lo < x && loc == Slot(x, org, size)
      requires Comparable(x)
      modifies this`head, this`nodes, this`at, data1, data2, next
      ensures CutAt(t) && t > 0 && Contents() == old(Contents()) && at[0] == old(at[0])
      ensures forall j :: 0 <= j < |nodes| ==> if j < t then nodes[j].hi <= x else x < nodes[j].lo
    {
      hide Stored, Ordered, Members, Total, Wrap, SeqCmp, Slot, DisjointBut, Comparable, Contents;
      ghost var k := LocateNode(x);
      if s == data1[loc] {
        StoredNode(data1[..], data2[..], next[..], nodes, at, org, size, k);
        if data2[loc] == -1 {
          OrderBeyond(nodes, k, x);
          head := next[loc];
        } else {
          SplitNode(loc, loc, s, -1, k, x);
        }
        t := k + 1;
      } else {
        var i;
        i, k := SeekPrior(head, s, 0, x);
        StoredNode(data1[..], data2[..], next[..], nodes, at, org, size, k);
        NearNode(x, k);
        CmpOfWrap(nodes[k].hi, x);
        if data2[i] == -1 {
          OrderBeyond(nodes, k, x);
          head := next[i];
        } else if SeqCmp(data2[i], s) > 0 {
          SplitNode(i, loc, s, s, k, x);
        } else {
          OrderBeyond(nodes, k, x);
          head := next[i];
        }
        t := k + 1;
      }
    }

    /** Clears the first node, at slot h; the head stands at node t. */
    method DropNode(h: int, ghost t: int) returns (follower: int)
      requires CutAt(t) && t > 0 && h == at[0]
      modifies this`length, this`lastInsertPos, this`nodes, this`at, data1, data2
      ensures CutAt(t - 1) && nodes == old(nodes)[1..] && follower == HeadOf(at)
    {
      hide Stored, Ordered, Members, Total, Wrap, DisjointBut, SeqLen;
      ghost var d1, d2, nx := data1[..], data2[..], next[..];
      ghost var n := nodes[0];
      StoredNode(d1, d2, nx, nodes, at, org, size, 0);
      StoreDelete(d1, d2, nx, nodes, at, org, size, 0);
      DropFirstNode(nodes);
      LenOfWrap(n.lo, n.hi);
      if data2[h] != -1 {
        length := length - SeqLen(data1[h], data2[h]);
        data2[h] := -1;
      } else {
        length := length - 1;
      }
      data1[h] := -1;
      if lastInsertPos == h {
        lastInsertPos := -1;
      }
      follower := next[h];
      assert data1[..] == d1[h := -1] && data2[..] == d2[h := -1];
      nodes, at := DeleteAt(nodes, 0), DeleteAt(at, 0);
    }

    /** Only the first of the remaining nodes can be the new head. */
    lemma HeadApart(t: int)
      requires CutAt(t)
      ensures HeadOf(at) == head <==> t == 0
    {
    }

    /** Clears the nodes from h up to the head, which stands at node t. */
    method DropBefore(h0: int, ghost t0: int, ghost x: int)
      requires CutAt(t0) && h0 == HeadOf(at)
      requires forall j :: 0 <= j < |nodes| ==> if j < t0 then nodes[j].hi <= x else x < nodes[j].lo
      modifies this, data1, data2
      ensures Valid() && Contents() == set c | c in old(Contents()) && c > x
    {
      hide Stored, Ordered, Members, Total, Wrap, DisjointBut;
      var h := h0;
      ghost var t := t0;
      ghost var before := nodes;
      HeadApart(t);
      while h != head
        invariant CutAt(t) && h == HeadOf(at) && 0 <= t <= t0 <= |before| && nodes == before[t0 - t..]
        invariant h == head <==> t == 0
        decreases t
      {
        h := DropNode(h, t);
        t := t - 1;
        HeadApart(t);
      }
      forall c: int | true
        ensures c in Members(nodes) <==> c in Members(before) && c > x
      {
        MembersBeyond(before, t0, x, c);
      }
    }

    /** Removes every number up to and including s. */
    method Remove(s: int, ghost x: int)
      requires Valid() && s == Wrap(x) && Comparable(x)
      modifies this, data1, data2, next
      ensures Valid() && Contents() == set c | c in old(Contents()) && c > x
    {
      hide Stored, Ordered, Members, Total, Wrap, SeqOff, Slot, Locate, DisjointBut, Contents, Comparable;
      CountIsSize();
      if length == 0 {
        EmptyContents();
        return;
      }
      FirstIsLeast();
      NearNode(x, 0);
      StoredNode(data1[..], data2[..], next[..], nodes, at, org, size, 0);
      OffOfWrap(nodes[0].lo, x);
      SlotMove(nodes[0].lo, x - nodes[0].lo, org, size);
      var offset := SeqOff(data1[head], s);
      var loc := Locate(head, offset, size);
      if offset == 0 {
        if lastInsertPos == head {
          lastInsertPos := -1;
        }
        DropFirst(s);
      } else if offset > 0 {
        var h := head;
        ghost var t := CutBehind(s, loc, x);
        DropBefore(h, t, x);
      }
    }

    lemma EmptyContents()
      requires nodes == []
      ensures Contents() == {}
    {
    }
  }

  lemma Stretched(nodes: seq<Node>, k: int, x1: int, x2: int)
    requires 0 <= k < |nodes| && nodes[k].lo <= x1 <= nodes[k].hi + 1 && x1 <= x2
    ensures nodes[k].hi < x2 ==> Members(nodes[k := Node(nodes[k].lo, x2)]) == Members(nodes) + Range(x1, x2)
    ensures x2 <= nodes[k].hi ==> Members(nodes) == Members(nodes) + Range(x1, x2)
  {
    hide Members;
    if nodes[k].hi < x2 {
      StretchNode(nodes, k, x1, x2);
    } else {
      RangeInNode(nodes, k, x1, x2);
    }
  }
}
