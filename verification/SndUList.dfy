/** The sockets with something to send (queue.cpp, class CSndUList): a binary heap of nodes ordered by time stamp, each
    node knowing its place in the heap. */
module SndULists {

  class Node {
    var timeStamp: int
    var heapLoc: int

    constructor ()
      ensures timeStamp == 1 && heapLoc == -1
    {
      timeStamp, heapLoc := 1, -1;
    }
  }

  function Parent(i: int): (p: int)
    requires i > 0
    ensures 0 <= p < i && (i == 2 * p + 1 || i == 2 * p + 2)
  {
    (i - 1) / 2
  }

  function Swapped<T>(h: seq<T>, p: int, q: int): (r: seq<T>)
    requires 0 <= p < |h| && 0 <= q < |h|
    ensures |r| == |h| && r[p] == h[q] && r[q] == h[p]
    ensures forall i :: 0 <= i < |h| && i != p && i != q ==> r[i] == h[i]
  {
    h[p := h[q]][q := h[p]]
  }

  ghost function SetOf(h: seq<Node>): set<Node> {
    set n | n in h
  }

  lemma InSet(h: seq<Node>, i: int)
    requires 0 <= i < |h|
    ensures h[i] in SetOf(h)
  {
  }

  lemma SwapSet(h: seq<Node>, p: int, q: int)
    requires 0 <= p < |h| && 0 <= q < |h|
    ensures SetOf(Swapped(h, p, q)) == SetOf(h)
  {
    var r := Swapped(h, p, q);
    forall n | n in h
      ensures n in r
    {
      var i :| 0 <= i < |h| && h[i] == n;
      assert r[if i == p then q else if i == q then p else i] == n;
    }
  }

  ghost function TimesOf(h: seq<Node>): (t: seq<int>)
    reads h
    ensures |t| == |h| && forall i :: 0 <= i < |t| ==> t[i] == h[i].timeStamp
  {
    seq(|h|, i requires 0 <= i < |h| reads h => h[i].timeStamp)
  }

  /** No node is on the heap twice. */
  ghost predicate Distinct(h: seq<Node>) {
    forall i, j :: 0 <= i < j < |h| ==> h[i] != h[j]
  }

  lemma SwapDistinct(h: seq<Node>, p: int, q: int)
    requires 0 <= p < |h| && 0 <= q < |h| && Distinct(h)
    ensures Distinct(Swapped(h, p, q))
  {
  }

  /** The heap order of the time stamps. */
  ghost predicate Ordered(t: seq<int>) {
    forall i :: 0 < i < |t| ==> t[Parent(i)] <= t[i]
  }

  /** The same, except between the entry at `hole` and its parent. */
  ghost predicate OrderedAbove(t: seq<int>, hole: int) {
    && (forall i :: 0 < i < |t| && i != hole ==> t[Parent(i)] <= t[i])
    && (forall i :: 0 < i < |t| && Parent(i) == hole > 0 ==> t[Parent(hole)] <= t[i])
  }

  /** The same, except between the entry at `hole` and its children. */
  ghost predicate OrderedBelow(t: seq<int>, hole: int) {
    && (forall i :: 0 < i < |t| && Parent(i) != hole ==> t[Parent(i)] <= t[i])
    && (forall i :: 0 < i < |t| && Parent(i) == hole > 0 ==> t[Parent(hole)] <= t[i])
  }

  lemma UpStep(t: seq<int>, q: int)
    requires OrderedAbove(t, q) && 0 < q < |t|
    ensures t[Parent(q)] > t[q] ==> OrderedAbove(Swapped(t, Parent(q), q), Parent(q))
    ensures t[Parent(q)] <= t[q] ==> Ordered(t)
  {
  }

  /** The left or right child of q, whichever is earlier. */
  function EarlierChild(t: seq<int>, q: int): (p: int)
    requires 0 <= q && 2 * q + 1 < |t|
    ensures q < p < |t| && Parent(p) == q
  {
    if 2 * q + 2 < |t| && t[2 * q + 1] > t[2 * q + 2] then 2 * q + 2 else 2 * q + 1
  }

  lemma DownStep(t: seq<int>, q: int)
    requires 0 <= q < |t|
    ensures 2 * q + 1 >= |t| && OrderedBelow(t, q) ==> Ordered(t)
    ensures 2 * q + 1 < |t| ==>
              var p := EarlierChild(t, q);
              && (t[q] > t[p] && OrderedBelow(t, q) ==> OrderedBelow(Swapped(t, q, p), p))
              && (t[q] <= t[p] && OrderedBelow(t, q) ==> Ordered(t))
              && (NoEarlierChild(t, q) ==> t[q] <= t[p])
  {
    hide OrderedBelow, Ordered, NoEarlierChild;
    if OrderedBelow(t, q) {
      if 2 * q + 1 >= |t| {
        NoChildLeft(t, q);
      } else if t[q] > t[EarlierChild(t, q)] {
        DownSwap(t, q);
      } else {
        DownStays(t, q);
      }
    }
    if 2 * q + 1 < |t| && NoEarlierChild(t, q) {
      ChildNotEarlier(t, q);
    }
  }

  lemma ChildNotEarlier(t: seq<int>, q: int)
    requires 0 <= q && 2 * q + 1 < |t| && NoEarlierChild(t, q)
    ensures t[q] <= t[EarlierChild(t, q)]
  {
  }

  lemma NoChildLeft(t: seq<int>, q: int)
    requires 0 <= q < |t| <= 2 * q + 1 && OrderedBelow(t, q)
    ensures Ordered(t)
  {
    forall i | 0 < i < |t|
      ensures t[Parent(i)] <= t[i]
    {
      assert Parent(i) != q;
    }
  }

  lemma DownStays(t: seq<int>, q: int)
    requires 0 <= q && 2 * q + 1 < |t| && OrderedBelow(t, q) && t[q] <= t[EarlierChild(t, q)]
    ensures Ordered(t)
  {
    forall i | 0 < i < |t|
      ensures t[Parent(i)] <= t[i]
    {
      if Parent(i) == q {
        assert i == 2 * q + 1 || i == 2 * q + 2;
      }
    }
  }

  lemma DownSwap(t: seq<int>, q: int)
    requires 0 <= q && 2 * q + 1 < |t| && OrderedBelow(t, q) && t[q] > t[EarlierChild(t, q)]
    ensures OrderedBelow(Swapped(t, q, EarlierChild(t, q)), EarlierChild(t, q))
  {
    var p := EarlierChild(t, q);
    var r := Swapped(t, q, p);
    hide Swapped, EarlierChild;
    forall i | 0 < i < |r| && Parent(i) != p
      ensures r[Parent(i)] <= r[i]
    {
      if Parent(i) == q {
        EarlierOfTwo(t, q, i);
      } else if i == q {
        assert t[Parent(q)] <= t[p];
      } else {
        assert t[Parent(i)] <= t[i];
      }
    }
    forall i | 0 < i < |r| && Parent(i) == p
      ensures r[q] <= r[i]
    {
      assert t[Parent(i)] <= t[i];
    }
  }

  lemma EarlierOfTwo(t: seq<int>, q: int, i: int)
    requires 0 <= q && 2 * q + 1 < |t| && 0 < i < |t| && Parent(i) == q
    ensures t[EarlierChild(t, q)] <= t[i]
  {
    assert i == 2 * q + 1 || i == 2 * q + 2;
  }

  /** The last entry takes the place of the entry at loc. */
  function TakenOut<T>(t: seq<T>, loc: int): (r: seq<T>)
    requires 0 <= loc < |t|
    ensures |r| == |t| - 1
    ensures forall i :: 0 <= i < |r| ==> r[i] == if i == loc then t[|t| - 1] else t[i]
  {
    if loc == |t| - 1 then t[..loc] else t[..|t| - 1][loc := t[|t| - 1]]
  }

  lemma TakenOutSet(h: seq<Node>, loc: int)
    requires Distinct(h) && 0 <= loc < |h|
    ensures Distinct(TakenOut(h, loc)) && SetOf(TakenOut(h, loc)) == SetOf(h) - {h[loc]}
  {
    var r := TakenOut(h, loc);
    forall n | n in h && n != h[loc]
      ensures n in r
    {
      var i :| 0 <= i < |h| && h[i] == n;
      assert r[if i == |h| - 1 then loc else i] == n;
    }
  }

  /** The last entry may go to place loc: it is not earlier than the parent of that place. */
  predicate MayGoTo(t: seq<int>, loc: int)
    requires 0 <= loc < |t|
  {
    loc == 0 || loc == |t| - 1 || t[Parent(loc)] <= t[|t| - 1]
  }

  lemma TakenOutOrder(t: seq<int>, loc: int)
    requires Ordered(t) && 0 <= loc < |t|
    ensures MayGoTo(t, loc) ==> OrderedBelow(TakenOut(t, loc), loc)
    ensures !MayGoTo(t, loc) ==> NoEarlierChild(TakenOut(t, loc), loc) && !Ordered(TakenOut(t, loc))
  {
    var r := TakenOut(t, loc);
    if !MayGoTo(t, loc) {
      assert r[Parent(loc)] == t[Parent(loc)] <= t[loc];
      assert !(r[Parent(loc)] <= r[loc]);
    }
  }

  lemma BelowNothing(t: seq<int>, q: int)
    requires q == |t|
    ensures OrderedBelow(t, q) ==> Ordered(t)
  {
  }

  predicate NoEarlierChild(t: seq<int>, q: int) {
    forall i :: 0 < i < |t| && Parent(i) == q && 0 <= q < |t| ==> t[q] <= t[i]
  }

  /** In an ordered heap the first entry is the least. */
  lemma {:induction false} FirstIsLeast(t: seq<int>, i: int)
    requires Ordered(t) && 0 <= i < |t|
    ensures t[0] <= t[i]
    decreases i
  {
    if i > 0 {
      FirstIsLeast(t, Parent(i));
    }
  }

  class SndUList {
    var heap: array<Node?>
    var lastEntry: int

    ghost var nodes: seq<Node>    // the heap, as a sequence
    ghost var known: set<Node>    // all nodes there are, on the heap or not

    /** The array, with the nodes knowing their places, except the one at `hole`. */
    ghost predicate Rep(hole: int)
      reads this`heap, this`lastEntry, this`nodes, heap, nodes
    {
      && -1 <= lastEntry < heap.Length && |nodes| == lastEntry + 1
      && (forall i :: 0 <= i < |nodes| ==> heap[i] == nodes[i])
      && Distinct(nodes)
      && (forall i :: 0 <= i < |nodes| && i != hole ==> nodes[i].heapLoc == i)
    }

    ghost predicate Valid()
      reads this, heap, nodes, known
    {
      && heap.Length > 0 && Rep(-1)
      && Members() <= known
      && (forall n :: n in known && n !in Members() ==> n.heapLoc == -1)
    }

    ghost function Members(): set<Node>
      reads this`nodes
    {
      SetOf(nodes)
    }

    ghost function Times(): (t: seq<int>)
      reads this`nodes, nodes
    {
      TimesOf(nodes)
    }

    constructor (capacity: nat, known: set<Node>)
      requires capacity > 0 && forall n :: n in known ==> n.heapLoc == -1
      ensures Valid() && Members() == {} && this.known == known && fresh(heap) && heap.Length == capacity
    {
      heap := new Node?[capacity](_ => null);
      lastEntry := -1;
      nodes := [];
      this.known := known;
    }

    /** Exchanges the nodes at two places. */
    method Exchange(p: int, q: int)
      requires Rep(q) && 0 <= p < |nodes| && 0 <= q < |nodes| && p != q
      modifies heap, this`nodes, Members()`heapLoc
      ensures Rep(p) && nodes == Swapped(old(nodes), p, q) && Members() == old(Members()) && Times() == Swapped(old(Times()), p, q)
    {
      ghost var times := Times();
      ExchangeUp(p, q);
      assert Times() == Swapped(times, p, q);
    }

    method ExchangeUp(p: int, q: int)
      requires Rep(q) && 0 <= p < |nodes| && 0 <= q < |nodes| && p != q
      modifies heap, this`nodes, Members()`heapLoc
      ensures Rep(p) && nodes == Swapped(old(nodes), p, q) && Members() == old(Members())
    {
      hide SetOf, Swapped;
      InSet(nodes, p);
      SwapSet(nodes, p, q);
      SwapDistinct(nodes, p, q);
      var t := heap[p];
      heap[p] := heap[q];
      heap[q] := t;
      nodes := Swapped(nodes, p, q);
      t.heapLoc := q;
    }

    /** Moves the last node up to where it belongs; its own place is filled in last. */
    method SiftUp(n: Node) returns (q: int)
      requires Rep(lastEntry) && lastEntry >= 0 && nodes[lastEntry] == n
      modifies heap, this`nodes, Members()`heapLoc
      ensures 0 <= q < |nodes| && nodes[q] == n && Rep(q) && Members() == old(Members())
      ensures old(OrderedAbove(Times(), lastEntry)) ==> Ordered(Times())
      ensures if q > 0 then nodes[0] == old(nodes[0]) else lastEntry == 0 || n.timeStamp < old(nodes[0].timeStamp)
    {
      q := lastEntry;
      var p := q;
      while p != 0
        invariant p == q && 0 <= q < |nodes| && nodes[q] == n && lastEntry == old(lastEntry) && heap == old(heap)
        invariant Rep(q) && Members() == old(Members())
        invariant if q > 0 then nodes[0] == old(nodes[0]) else lastEntry == 0 || n.timeStamp < old(nodes[0].timeStamp)
        invariant old(OrderedAbove(Times(), lastEntry)) ==> OrderedAbove(Times(), q)
        decreases p
      {
        p := (q - 1) / 2;
        assert p == Parent(q);
        if old(OrderedAbove(Times(), lastEntry)) {
          UpStep(Times(), q);
        }
        if heap[p].timeStamp > heap[q].timeStamp {
          assert nodes[p] in nodes;
          Exchange(p, q);
          q := p;
        } else {
          return;
        }
      }
    }
  
    /** Puts a node behind the last one. */
    method Append(ts: int, n: Node)
      requires Rep(-1) && n !in nodes && lastEntry + 1 < heap.Length
      modifies this`lastEntry, this`nodes, heap, n`timeStamp
      ensures Rep(lastEntry) && nodes == old(nodes) + [n] && Times() == old(Times()) + [ts] && n.timeStamp == ts
      ensures Members() == old(Members()) + {n}
      ensures old(Ordered(Times())) ==> OrderedAbove(Times(), lastEntry)
    {
      ghost var before := Times();
      lastEntry := lastEntry + 1;
      heap[lastEntry] := n;
      n.timeStamp := ts;
      nodes := nodes + [n];
      assert nodes[lastEntry] == n;
      assert Times() == before + [ts];
    }

    lemma OnHeap(n: Node)
      requires Valid() && n in known
      ensures n.heapLoc >= 0 <==> n in Members()
      ensures n in nodes <==> n in Members()
      ensures n in Members() ==> 0 <= n.heapLoc < |nodes| && nodes[n.heapLoc] == n
    {
    }

    /** The node at place q now knows its place. */
    method Settle(n: Node, q: int)
      requires Rep(q) && 0 <= q < |nodes| && nodes[q] == n
      modifies n`heapLoc
      ensures Rep(-1) && Times() == old(Times())
    {
      n.heapLoc := q;
      assert Times() == old(Times());
    }

    ghost predicate InOrder()
      reads this`nodes, nodes
    {
      Ordered(Times())
    }

    /** The first node is the earliest. */
    lemma Earliest()
      requires Valid() && InOrder() && nodes != []
      ensures nodes[0] in Members() && nodes[0].heapLoc == 0 && forall n :: n in Members() ==> nodes[0].timeStamp <= n.timeStamp
    {
      forall n | n in Members()
        ensures nodes[0].timeStamp <= n.timeStamp
      {
        OnHeap(n);
        FirstIsLeast(Times(), n.heapLoc);
      }
    }

    lemma First()
      requires Valid()
      ensures nodes == [] <==> lastEntry == -1
      ensures |nodes| == lastEntry + 1
      ensures nodes == [] <==> Members() == {}
      ensures nodes != [] ==> heap.Length > 0 && heap[0] == nodes[0] && nodes[0] in Members() && nodes[0].heapLoc == 0
      ensures -1 <= lastEntry < heap.Length
    {
      if nodes != [] {
        assert nodes[0] in nodes;
      }
    }

    /** A node joins the heap, at place q. */
    method Join(ts: int, n: Node) returns (q: int)
      requires Valid() && n in known && n !in Members() && lastEntry + 1 < heap.Length
      modifies this`lastEntry, this`nodes, heap, known
      ensures Valid() && Members() == old(Members()) + {n} && n.timeStamp == ts && n.heapLoc == q >= 0
      ensures forall m :: m in known && m != n ==> m.timeStamp == old(m.timeStamp)
      ensures old(InOrder()) ==> InOrder()
      ensures nodes != [] && if q > 0 then old(nodes) != [] && nodes[0] == old(nodes[0]) else old(nodes != [] ==> ts < nodes[0].timeStamp)
    {
      hide Rep, Ordered, OrderedAbove, TimesOf, Members, SetOf;
      OnHeap(n);
      First();
      Append(ts, n);
      q := SiftUp(n);
      Settle(n, q);
    }

    /** insert_: a node that is not on the heap yet joins it.  The timer is interrupted, `atRoot`, if it is now the first:
        in an ordered heap, if it is earlier than all others. */
    method Insert_(ts: int, n: Node) returns (atRoot: bool)
      requires Valid() && n in known && (n !in Members() ==> lastEntry + 1 < heap.Length)
      modifies this`lastEntry, this`nodes, heap, known
      ensures Valid() && Members() == old(Members()) + {n}
      ensures n in old(Members()) ==> nodes == old(nodes) && unchanged(known)
      ensures n !in old(Members()) ==> n.timeStamp == ts
      ensures forall m :: m in known && m != n ==> m.timeStamp == old(m.timeStamp)
      ensures old(InOrder()) ==> InOrder()
      ensures atRoot <==> n !in old(Members()) && n.heapLoc == 0
      ensures n !in old(Members()) && old(InOrder()) ==> (atRoot <==> forall m :: m in old(Members()) ==> ts < m.timeStamp)
    {
      hide Rep, InOrder, Members;
      OnHeap(n);
      if n.heapLoc >= 0 {
        return false;
      }
      ghost var ordered := InOrder();
      First();
      if ordered && nodes != [] {
        Earliest();
      }
      var q := Join(ts, n);
      if ordered {
        Earliest();
      }
      atRoot := q == 0;
    }

    /** Exchanges the node at place q with its child at place p. */
    method ExchangeDown(p: int, q: int)
      requires Rep(-1) && 0 <= p < |nodes| && 0 <= q < |nodes| && p != q
      modifies heap, this`nodes, Members()`heapLoc
      ensures Rep(-1) && nodes == Swapped(old(nodes), p, q) && Members() == old(Members()) && Times() == Swapped(old(Times()), p, q)
    {
      ghost var t := Times();
      ExchangePlaces(p, q);
      assert Times() == Swapped(t, p, q);
    }

    method ExchangePlaces(p: int, q: int)
      requires Rep(-1) && 0 <= p < |nodes| && 0 <= q < |nodes| && p != q
      modifies heap, this`nodes, Members()`heapLoc
      ensures Rep(-1) && nodes == Swapped(old(nodes), p, q) && Members() == old(Members())
    {
      hide SetOf, Swapped;
      InSet(nodes, p);
      InSet(nodes, q);
      SwapSet(nodes, p, q);
      SwapDistinct(nodes, p, q);
      var t := heap[p];
      heap[p] := heap[q];
      heap[p].heapLoc := p;
      heap[q] := t;
      heap[q].heapLoc := q;
      nodes := Swapped(nodes, p, q);
    }

    /** Moves the node at place q0 down to where it belongs. */
    method SiftDown(q0: int)
      requires Rep(-1) && 0 <= q0 <= |nodes|
      modifies heap, this`nodes, Members()`heapLoc
      ensures Rep(-1) && Members() == old(Members()) && |nodes| == old(|nodes|)
      ensures old(OrderedBelow(Times(), q0)) ==> Ordered(Times())
      ensures old(NoEarlierChild(Times(), q0)) ==> Times() == old(Times())
    {
      hide OrderedBelow, Ordered, SetOf, TimesOf, NoEarlierChild, Distinct;
      ghost var ordered, stays := OrderedBelow(Times(), q0), NoEarlierChild(Times(), q0);
      ghost var t0 := Times();
      var q := q0;
      var p := q * 2 + 1;
      while p <= lastEntry
        invariant p == q * 2 + 1 && q0 <= q <= |nodes| && (q == |nodes| ==> q == q0) && lastEntry == old(lastEntry) && heap == old(heap)
        invariant Rep(-1) && Members() == old(Members())
        invariant ordered ==> OrderedBelow(Times(), q)
        invariant stays ==> Times() == t0 && q == q0
        decreases lastEntry - q
      {
        DownStep(Times(), q);
        if p + 1 <= lastEntry && heap[p].timeStamp > heap[p + 1].timeStamp {
          p := p + 1;
        }
        assert p == EarlierChild(Times(), q);
        if heap[q].timeStamp > heap[p].timeStamp {
          ExchangeDown(q, p);
          q := p;
          p := q * 2 + 1;
        } else {
          return;
        }
      }
      if q < |nodes| {
        DownStep(Times(), q);
      } else {
        BelowNothing(Times(), q);
      }
    }
  
    /** Puts the last node into the place of the node n, which leaves the heap but does not know it yet. */
    method TakeLast(n: Node)
      requires Valid() && n in Members()
      modifies heap, this`lastEntry, this`nodes, Members()`heapLoc
      ensures Rep(-1) && Members() == old(Members()) - {n} && n.heapLoc == old(n.heapLoc) && lastEntry == old(lastEntry) - 1
      ensures 0 <= n.heapLoc < old(|nodes|) && n.heapLoc <= |nodes| && Times() == TakenOut(old(Times()), n.heapLoc)
    {
      OnHeap(n);
      ghost var t, loc := Times(), n.heapLoc;
      MoveLast(n);
      assert Times() == TakenOut(t, loc);
    }

    method MoveLast(n: Node)
      requires Rep(-1) && 0 <= n.heapLoc < |nodes| && nodes[n.heapLoc] == n
      modifies heap, this`lastEntry, this`nodes, Members()`heapLoc
      ensures Rep(-1) && nodes == TakenOut(old(nodes), old(n.heapLoc)) && Members() == old(Members()) - {n}
      ensures n.heapLoc == old(n.heapLoc) && lastEntry == old(lastEntry) - 1
    {
      hide SetOf;
      TakenOutSet(nodes, n.heapLoc);
      InSet(nodes, lastEntry);
      heap[n.heapLoc] := heap[lastEntry];
      lastEntry := lastEntry - 1;
      heap[n.heapLoc].heapLoc := n.heapLoc;
      nodes := TakenOut(nodes, n.heapLoc);
    }

    /** remove_: a node leaves the heap; the last one takes its place and is moved down.  It is never moved up, so the
        order is kept exactly if it is not earlier than its new parent.  The timer is interrupted if one node is left. */
    method Remove_(n: Node) returns (interrupt: bool)
      requires Valid() && n in known
      modifies heap, this`lastEntry, this`nodes, known`heapLoc
      ensures Valid() && Members() == old(Members()) - {n}
      ensures n !in old(Members()) ==> nodes == old(nodes) && unchanged(known)
      ensures n in old(Members()) ==> lastEntry == old(lastEntry) - 1
      ensures n in old(Members()) && old(Ordered(Times())) ==>
                0 <= old(n.heapLoc) < old(|nodes|) && (Ordered(Times()) <==> MayGoTo(old(Times()), old(n.heapLoc)))
      ensures interrupt <==> |nodes| == 1
      ensures |nodes| == old(|nodes|) - if n in old(Members()) then 1 else 0
    {
      hide Rep, Ordered, OrderedBelow, NoEarlierChild, TimesOf, SetOf, TakenOut, MayGoTo, Members;
      OnHeap(n);
      First();
      if n.heapLoc >= 0 {
        ghost var t := Times();
        TakeLast(n);
        var q := n.heapLoc;
        if Ordered(t) {
          TakenOutOrder(t, q);
        }
        SiftDown(q);
        Leave(n);
        First();
      }
      interrupt := lastEntry == 0;
    }

    method Leave(n: Node)
      requires Rep(-1) && n !in Members()
      modifies n`heapLoc
      ensures Rep(-1) && Times() == old(Times()) && n.heapLoc == -1
    {
      assert n !in nodes;
      n.heapLoc := -1;
      assert Times() == old(Times());
    }
  
    /** insert: like insert_, in an array that grows when it is full. */
    method Insert(ts: int, n: Node) returns (atRoot: bool)
      requires Valid() && n in known
      modifies this`heap, this`lastEntry, this`nodes, heap, known
      ensures Valid() && Members() == old(Members()) + {n} && (heap == old(heap) || fresh(heap))
      ensures n !in old(Members()) ==> n.timeStamp == ts
      ensures forall m :: m in known && m != n ==> m.timeStamp == old(m.timeStamp)
      ensures old(InOrder()) ==> InOrder()
      ensures atRoot <==> n !in old(Members()) && n.heapLoc == 0
      ensures n !in old(Members()) && old(InOrder()) ==> (atRoot <==> forall m :: m in old(Members()) ==> ts < m.timeStamp)
    {
      if lastEntry == heap.Length - 1 {
        Enlarge();
      }
      hide Rep, Ordered, SetOf, TimesOf;
      atRoot := Insert_(ts, n);
    }

    method Enlarge()
      requires Valid()
      modifies this`heap
      ensures Valid() && fresh(heap) && heap.Length == 2 * old(heap.Length)
    {
      var old_ := heap;
      var temp := new Node?[heap.Length * 2](_ => null);
      forall i | 0 <= i < old_.Length {
        temp[i] := old_[i];
      }
      heap := temp;
    }

    /** update: the socket of node n has something to send.  With `reschedule`, it is to be served at once even if it was
        waiting for a later time. */
    method Update(n: Node, reschedule: bool) returns (interrupt: bool)
      requires Valid() && n in known && (n !in Members() ==> lastEntry + 1 < heap.Length) && forall m :: m in known ==> m.timeStamp >= 1
      modifies this`lastEntry, this`nodes, heap, known
      ensures Valid() && Members() == old(Members()) + {n}
      ensures n !in old(Members()) || reschedule ==> n.timeStamp == 1
      ensures n in old(Members()) && !reschedule ==> nodes == old(nodes) && unchanged(known)
      ensures interrupt <==> (n in old(Members()) ==> reschedule)
                             && (n.heapLoc == 0 || (n in old(Members()) && old(|nodes|) == 2))
      ensures forall m :: m in known ==> m.timeStamp >= 1
      ensures old(InOrder()) && (n in old(Members()) && reschedule ==> MayGoTo(old(Times()), old(n.heapLoc))) ==> InOrder()
    {
      hide Rep, Ordered, SetOf, TimesOf, MayGoTo;
      OnHeap(n);
      if n.heapLoc >= 0 {
        if !reschedule {
          return false;
        }
        if n.heapLoc == 0 {
          Expedite(n);
          return true;
        }
        First();
        interrupt := Remove_(n);
      } else {
        interrupt := false;
      }
      var atRoot := Insert_(1, n);
      interrupt := interrupt || atRoot;
    }

    /** The first node stays the first when it gets the earliest time there is. */
    method Expedite(n: Node)
      requires Valid() && n in Members() && n.heapLoc == 0 && forall m :: m in known ==> m.timeStamp >= 1
      modifies n`timeStamp
      ensures Valid() && n.timeStamp == 1
      ensures old(InOrder()) ==> InOrder()
    {
      OnHeap(n);
      ghost var t := Times();
      n.timeStamp := 1;
      assert Times() == t[0 := 1];
      if Ordered(t) {
        assert nodes[0] in known;
        forall i | 0 < i < |t|
          ensures Times()[Parent(i)] <= Times()[i]
        {
          assert t[Parent(i)] <= t[i];
          assert nodes[i] in Members();
        }
      }
    }

    /** getNextProcTime: when the next node is to be served; 0 if there is none. */
    method GetNextProcTime() returns (ts: int)
      requires Valid()
      ensures Members() == {} ==> ts == 0
      ensures Members() != {} && InOrder() ==> (exists n :: n in Members() && n.timeStamp == ts) && forall n :: n in Members() ==> ts <= n.timeStamp
    {
      First();
      if lastEntry == -1 {
        return 0;
      }
      ts := heap[0].timeStamp;
      if InOrder() {
        Earliest();
      }
    }

    /** pop: serves the first node if its time has come.  What packing its next packet yields - the number of bytes, and
        the time to serve it again, 0 for none - is given. */
    method Pop(now: int, connected: bool, payload: int, ts: int) returns (u: Node?, interrupt: bool)
      requires Valid()
      modifies this`lastEntry, this`nodes, heap, known
      ensures Valid() && (old(InOrder()) ==> InOrder())
      ensures old(nodes == [] || now < nodes[0].timeStamp) ==> u == null && nodes == old(nodes) && unchanged(known) && !interrupt
      ensures old(nodes != [] && nodes[0].timeStamp <= now) ==>
                (interrupt <==> old(|nodes|) == 2 || (u != null && ts > 0 && u.heapLoc == 0))
      ensures old(nodes != [] && nodes[0].timeStamp <= now) ==>
                && u == (if connected && payload > 0 then old(nodes[0]) else null)
                && Members() == if u != null && ts > 0 then old(Members()) else old(Members()) - {old(nodes[0])}
      ensures u != null && ts > 0 ==> u.timeStamp == ts
      ensures forall m :: m in known && (m != u || ts <= 0) ==> m.timeStamp == old(m.timeStamp)
    {
      hide Rep, Ordered, SetOf, TimesOf;
      First();
      if lastEntry == -1 || now < heap[0].timeStamp {
        return null, false;
      }
      u := heap[0];
      interrupt := Remove_(u);
      if !connected || payload <= 0 {
        return null, interrupt;
      }
      if ts > 0 {
        var atRoot := Insert_(ts, u);
        interrupt := interrupt || atRoot;
      }
    }
  }

  /** Taking out a node that is not the first can break the order: here the last entry, 3, lands below a later one. */
  lemma RemovalCanBreakOrder()
    ensures Ordered([1, 5, 2, 6, 7, 3]) && !MayGoTo([1, 5, 2, 6, 7, 3], 3) && TakenOut([1, 5, 2, 6, 7, 3], 3) == [1, 5, 2, 3, 7]
  {
    var t := [1, 5, 2, 6, 7, 3];
    assert Parent(1) == 0 && Parent(2) == 0 && Parent(3) == 1 && Parent(4) == 1 && Parent(5) == 2;
  }
}
