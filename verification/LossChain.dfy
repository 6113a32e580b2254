/** Sorted chains of intervals, and their embedding as a linked list in parallel arrays.

    Both loss lists (list.cpp) keep a set of lost packets as a chain of intervals.  The node of an interval that
    starts at coordinate x sits at the array slot `Slot(x)`, found by modular offset from the head; the arrays hold
    the first number, the last number (or -1 when the interval is a single number) and the slot of the next node. */
module LossChain {
  import opened SeqNo

  datatype Node = Node(lo: int, hi: int)

  // ----- the abstract side: chains as sets of coordinates

  function Range(lo: int, hi: int): (r: set<int>)
    ensures forall x :: x in r <==> lo <= x <= hi
    decreases hi - lo + 1
  {
    if hi < lo then {} else Range(lo, hi - 1) + {hi}
  }

  function Members(nodes: seq<Node>): set<int> {
    if nodes == [] then {} else Range(nodes[0].lo, nodes[0].hi) + Members(nodes[1..])
  }

  /** The sum of the interval lengths. */
  function Total(nodes: seq<Node>): int {
    if nodes == [] then 0 else nodes[0].hi - nodes[0].lo + 1 + Total(nodes[1..])
  }

  ghost predicate Ordered(nodes: seq<Node>) {
    && (forall k :: 0 <= k < |nodes| ==> nodes[k].lo <= nodes[k].hi)
    && (forall j, k :: 0 <= j < k < |nodes| ==> nodes[j].lo < nodes[k].lo)
  }

  /** No node other than number k runs into a later one. */
  ghost predicate DisjointBut(nodes: seq<Node>, but: int) {
    forall j, k :: 0 <= j < k < |nodes| && j != but ==> nodes[j].hi < nodes[k].lo
  }

  ghost predicate Disjoint(nodes: seq<Node>) {
    DisjointBut(nodes, -1)
  }

  /** All the coordinates of the chain lie in [first, last]. */
  ghost predicate Within(nodes: seq<Node>, first: int, last: int) {
    forall k :: 0 <= k < |nodes| ==> first <= nodes[k].lo && nodes[k].hi <= last
  }

  lemma {:induction false} RangeSize(lo: int, hi: int)
    requires lo <= hi + 1
    ensures |Range(lo, hi)| == hi - lo + 1
    decreases hi - lo
  {
    if lo <= hi {
      RangeSize(lo, hi - 1);
      assert Range(lo, hi) == Range(lo, hi - 1) + {hi};
    } else {
      assert Range(lo, hi) == {};
    }
  }

  lemma {:induction false} MembersAt(nodes: seq<Node>, x: int)
    ensures x in Members(nodes) <==> exists k :: 0 <= k < |nodes| && nodes[k].lo <= x <= nodes[k].hi
  {
    if nodes != [] {
      MembersAt(nodes[1..], x);
      if x in Members(nodes[1..]) {
        var k :| 0 <= k < |nodes[1..]| && nodes[1..][k].lo <= x <= nodes[1..][k].hi;
        assert nodes[k + 1].lo <= x <= nodes[k + 1].hi;
      }
      if exists k :: 0 <= k < |nodes| && nodes[k].lo <= x <= nodes[k].hi {
        var k :| 0 <= k < |nodes| && nodes[k].lo <= x <= nodes[k].hi;
        if k > 0 {
          assert nodes[1..][k - 1].lo <= x <= nodes[1..][k - 1].hi;
        }
      }
    }
  }

  lemma {:induction false} ConcatChains(a: seq<Node>, b: seq<Node>)
    ensures Members(a + b) == Members(a) + Members(b)
    ensures Total(a + b) == Total(a) + Total(b)
  {
    if a == [] {
      assert a + b == b;
    } else {
      ConcatChains(a[1..], b);
      assert (a + b)[1..] == a[1..] + b;
    }
  }

  lemma SingleChain(n: Node)
    ensures Members([n]) == Range(n.lo, n.hi)
    ensures Total([n]) == n.hi - n.lo + 1
  {
    assert [n][1..] == [];
  }

  /** A chain split around node k. */
  lemma SplitChain(nodes: seq<Node>, k: int)
    requires 0 <= k < |nodes|
    ensures Members(nodes) == Members(nodes[..k]) + Range(nodes[k].lo, nodes[k].hi) + Members(nodes[k + 1..])
    ensures Total(nodes) == Total(nodes[..k]) + (nodes[k].hi - nodes[k].lo + 1) + Total(nodes[k + 1..])
  {
    hide Members, Total, Range;
    assert nodes == nodes[..k] + ([nodes[k]] + nodes[k + 1..]);
    ConcatChains(nodes[..k], [nodes[k]] + nodes[k + 1..]);
    ConcatChains([nodes[k]], nodes[k + 1..]);
    SingleChain(nodes[k]);
    UnionAssoc(Members(nodes[..k]), Range(nodes[k].lo, nodes[k].hi), Members(nodes[k + 1..]));
  }

  lemma UnionAssoc(a: set<int>, b: set<int>, c: set<int>)
    ensures a + (b + c) == a + b + c
  {
  }

  /** In a chain of disjoint intervals the lengths add up to the number of members. */
  lemma {:induction false} TotalIsCardinality(nodes: seq<Node>)
    requires Ordered(nodes) && Disjoint(nodes)
    ensures |Members(nodes)| == Total(nodes)
  {
    if nodes != [] {
      var rest := nodes[1..];
      assert Ordered(rest) && Disjoint(rest);
      TotalIsCardinality(rest);
      RangeSize(nodes[0].lo, nodes[0].hi);
      forall x | x in Members(rest)
        ensures x !in Range(nodes[0].lo, nodes[0].hi)
      {
        MembersAt(rest, x);
        var k :| 0 <= k < |rest| && rest[k].lo <= x <= rest[k].hi;
        assert nodes[0].hi < nodes[k + 1].lo;
      }
      assert Range(nodes[0].lo, nodes[0].hi) !! Members(rest);
    }
  }

  /** The least member is the start of the first node, the greatest one the end of the last. */
  lemma ExtremesOfChain(nodes: seq<Node>, x: int)
    requires Ordered(nodes) && Disjoint(nodes) && x in Members(nodes)
    ensures nodes[0].lo in Members(nodes) && nodes[|nodes| - 1].hi in Members(nodes)
    ensures nodes[0].lo <= x <= nodes[|nodes| - 1].hi
  {
    MembersAt(nodes, x);
    var k :| 0 <= k < |nodes| && nodes[k].lo <= x <= nodes[k].hi;
    assert nodes[0].lo <= nodes[k].lo;
    assert k < |nodes| - 1 ==> nodes[k].hi < nodes[|nodes| - 1].lo;
    MembersAt(nodes, nodes[0].lo);
    MembersAt(nodes, nodes[|nodes| - 1].hi);
  }

  function InsertAt<T(!new)>(s: seq<T>, k: int, t: T): (r: seq<T>)
    requires 0 <= k <= |s|
    ensures |r| == |s| + 1 && r[k] == t
    ensures forall j :: 0 <= j < k ==> r[j] == s[j]
    ensures forall j :: k < j < |r| ==> r[j] == s[j - 1]
    ensures forall x :: x in r <==> x == t || x in s
  {
    assert s == s[..k] + s[k..];
    s[..k] + [t] + s[k..]
  }

  function DeleteAt<T(!new)>(s: seq<T>, k: int): (r: seq<T>)
    requires 0 <= k < |s|
    ensures |r| == |s| - 1
    ensures forall j :: 0 <= j < k ==> r[j] == s[j]
    ensures forall j :: k <= j < |r| ==> r[j] == s[j + 1]
    ensures forall x :: x in s <==> x == s[k] || x in r
  {
    assert s == s[..k] + [s[k]] + s[k + 1..];
    s[..k] + s[k + 1..]
  }

  lemma InsertNode(nodes: seq<Node>, k: int, n: Node)
    requires 0 <= k <= |nodes|
    ensures Members(InsertAt(nodes, k, n)) == Members(nodes) + Range(n.lo, n.hi)
    ensures Total(InsertAt(nodes, k, n)) == Total(nodes) + (n.hi - n.lo + 1)
  {
    var after := InsertAt(nodes, k, n);
    SplitChain(after, k);
    assert after[..k] == nodes[..k] && after[k + 1..] == nodes[k..];
    assert nodes == nodes[..k] + nodes[k..];
    ConcatChains(nodes[..k], nodes[k..]);
  }

  lemma DeleteNode(nodes: seq<Node>, k: int)
    requires 0 <= k < |nodes|
    ensures Members(DeleteAt(nodes, k)) == Members(nodes[..k]) + Members(nodes[k + 1..])
    ensures Total(DeleteAt(nodes, k)) == Total(nodes) - (nodes[k].hi - nodes[k].lo + 1)
    ensures Members(nodes) == Members(DeleteAt(nodes, k)) + Range(nodes[k].lo, nodes[k].hi)
  {
    SplitChain(nodes, k);
    ConcatChains(nodes[..k], nodes[k + 1..]);
  }

  lemma ReplaceNode(nodes: seq<Node>, k: int, n: Node)
    requires 0 <= k < |nodes|
    ensures Members(nodes[k := n]) == Members(nodes[..k]) + Range(n.lo, n.hi) + Members(nodes[k + 1..])
    ensures Members(nodes) == Members(nodes[..k]) + Range(nodes[k].lo, nodes[k].hi) + Members(nodes[k + 1..])
    ensures Total(nodes[k := n]) == Total(nodes) + (n.hi - n.lo) - (nodes[k].hi - nodes[k].lo)
  {
    SplitChain(nodes, k);
    SplitChain(nodes[k := n], k);
    assert nodes[k := n][..k] == nodes[..k] && nodes[k := n][k + 1..] == nodes[k + 1..];
  }

  /** Merging node k with the overlapping or adjacent node k + 1 keeps the members. */
  lemma MergeNodes(nodes: seq<Node>, k: int)
    requires 0 <= k < |nodes| - 1 && Ordered(nodes)
    requires nodes[k + 1].lo <= nodes[k].hi + 1
    ensures var hi := if nodes[k].hi < nodes[k + 1].hi then nodes[k + 1].hi else nodes[k].hi;
            var after := DeleteAt(nodes[k := Node(nodes[k].lo, hi)], k + 1);
            && Members(after) == Members(nodes)
            && Total(after) == Total(nodes) - (nodes[k].hi - nodes[k].lo + 1) - (nodes[k + 1].hi - nodes[k + 1].lo + 1) + (hi - nodes[k].lo + 1)
  {
    hide Total;
    var hi := if nodes[k].hi < nodes[k + 1].hi then nodes[k + 1].hi else nodes[k].hi;
    var mid := nodes[k := Node(nodes[k].lo, hi)];
    ReplaceNode(nodes, k, Node(nodes[k].lo, hi));
    DeleteNode(mid, k + 1);
    assert Members(nodes[k + 1..]) == Range(nodes[k + 1].lo, nodes[k + 1].hi) + Members(nodes[k + 2..]) by {
      assert nodes[k + 1..][0] == nodes[k + 1] && nodes[k + 1..][1..] == nodes[k + 2..];
    }
    assert Members(mid[..k + 1]) == Members(nodes[..k]) + Range(nodes[k].lo, hi) by {
      assert mid[..k + 1] == nodes[..k] + [mid[k]];
      ConcatChains(nodes[..k], [mid[k]]);
      SingleChain(mid[k]);
    }
    hide Members;
    assert mid[k + 2..] == nodes[k + 2..];
    assert Range(nodes[k].lo, nodes[k].hi) + Range(nodes[k + 1].lo, nodes[k + 1].hi) == Range(nodes[k].lo, hi);
  }

  // ----- the concrete side: a chain embedded in three arrays

  function EndOf(n: Node): int {
    if n.lo == n.hi then -1 else Wrap(n.hi)
  }

  function NextOf(at: seq<int>, k: int): int
    requires 0 <= k < |at|
  {
    if k + 1 < |at| then at[k + 1] else -1
  }

  function HeadOf(at: seq<int>): int {
    if at == [] then -1 else at[0]
  }

  /** The slots of the nodes are distinct array positions. */
  ghost predicate Placed(at: seq<int>, size: int) {
    && (forall k :: 0 <= k < |at| ==> 0 <= at[k] < size)
    && (forall j, k :: 0 <= j < k < |at| ==> at[j] != at[k])
  }

  ghost predicate Holds(d1: seq<int>, d2: seq<int>, nodes: seq<Node>, at: seq<int>)
    requires |d1| == |d2| && |at| == |nodes| && Placed(at, |d1|)
  {
    forall k :: 0 <= k < |at| ==> d1[at[k]] == Wrap(nodes[k].lo) && d2[at[k]] == EndOf(nodes[k])
  }

  ghost predicate Chained(nx: seq<int>, at: seq<int>)
    requires Placed(at, |nx|)
  {
    forall k :: 0 <= k < |at| ==> nx[at[k]] == NextOf(at, k)
  }

  ghost predicate EmptyElsewhere(d1: seq<int>, d2: seq<int>, at: seq<int>)
    requires |d1| == |d2|
  {
    forall p :: 0 <= p < |d1| && p !in at ==> d1[p] == -1 && d2[p] == -1
  }

  /** Node k of the chain is stored at slot at[k]; every other slot is empty. */
  ghost predicate Linked(d1: seq<int>, d2: seq<int>, nx: seq<int>, nodes: seq<Node>, at: seq<int>) {
    && |d1| == |d2| == |nx|
    && |at| == |nodes|
    && Placed(at, |d1|)
    && Holds(d1, d2, nodes, at)
    && Chained(nx, at)
    && EmptyElsewhere(d1, d2, at)
  }

  function LinkAfterInsert(nx: seq<int>, at: seq<int>, k: int, loc: int): (r: seq<int>)
    requires 0 <= k <= |at| && 0 <= loc < |nx|
    requires k > 0 ==> 0 <= at[k - 1] < |nx|
    ensures |r| == |nx|
  {
    var nx1 := nx[loc := if k < |at| then at[k] else -1];
    if k > 0 then nx1[at[k - 1] := loc] else nx1
  }

  lemma PlacedInsert(at: seq<int>, size: int, k: int, loc: int)
    requires Placed(at, size) && 0 <= k <= |at| && 0 <= loc < size && loc !in at
    ensures Placed(InsertAt(at, k, loc), size)
  {
    var at' := InsertAt(at, k, loc);
    forall i, j | 0 <= i < j < |at'|
      ensures at'[i] != at'[j]
    {
      var i0 := if i < k then i else i - 1;
      var j0 := if j < k then j else j - 1;
      assert i != k ==> at'[i] == at[i0];
      assert j != k ==> at'[j] == at[j0];
    }
  }

  lemma HoldsInsert(d1: seq<int>, d2: seq<int>, nodes: seq<Node>, at: seq<int>, k: int, loc: int, n: Node)
    requires |d1| == |d2| && |at| == |nodes| && Placed(at, |d1|) && Holds(d1, d2, nodes, at)
    requires 0 <= k <= |nodes| && 0 <= loc < |d1| && loc !in at
    requires Placed(InsertAt(at, k, loc), |d1|)
    ensures Holds(d1[loc := Wrap(n.lo)], d2[loc := EndOf(n)], InsertAt(nodes, k, n), InsertAt(at, k, loc))
  {
    var at', nodes' := InsertAt(at, k, loc), InsertAt(nodes, k, n);
    var first, last := Wrap(n.lo), EndOf(n);
    forall j | 0 <= j < |at'|
      ensures d1[loc := first][at'[j]] == Wrap(nodes'[j].lo) && d2[loc := last][at'[j]] == EndOf(nodes'[j])
    {
      if j != k {
        var j0 := if j < k then j else j - 1;
        assert at'[j] == at[j0] && nodes'[j] == nodes[j0];
      }
    }
  }

  lemma ChainedInsert(nx: seq<int>, at: seq<int>, k: int, loc: int)
    requires Placed(at, |nx|) && Chained(nx, at)
    requires 0 <= k <= |at| && 0 <= loc < |nx| && loc !in at
    requires Placed(InsertAt(at, k, loc), |nx|)
    ensures Chained(LinkAfterInsert(nx, at, k, loc), InsertAt(at, k, loc))
  {
    hide InsertAt;
    var at' := InsertAt(at, k, loc);
    var nx' := LinkAfterInsert(nx, at, k, loc);
    forall j | 0 <= j < |at'|
      ensures nx'[at'[j]] == NextOf(at', j)
    {
      if j < k - 1 {
        assert at'[j] == at[j] && at'[j + 1] == at[j + 1];
        assert nx[at[j]] == NextOf(at, j);
      } else if j > k {
        assert at'[j] == at[j - 1] && nx[at[j - 1]] == NextOf(at, j - 1);
      }
    }
  }

  lemma LinkInsert(d1: seq<int>, d2: seq<int>, nx: seq<int>, nodes: seq<Node>, at: seq<int>, k: int, loc: int, n: Node)
    requires Linked(d1, d2, nx, nodes, at)
    requires 0 <= k <= |nodes| && 0 <= loc < |d1| && loc !in at
    ensures Linked(d1[loc := Wrap(n.lo)], d2[loc := EndOf(n)], LinkAfterInsert(nx, at, k, loc), InsertAt(nodes, k, n), InsertAt(at, k, loc))
  {
    PlacedInsert(at, |d1|, k, loc);
    HoldsInsert(d1, d2, nodes, at, k, loc, n);
    ChainedInsert(nx, at, k, loc);
  }

  lemma LinkSetHi(d1: seq<int>, d2: seq<int>, nx: seq<int>, nodes: seq<Node>, at: seq<int>, k: int, hi: int)
    requires Linked(d1, d2, nx, nodes, at)
    requires 0 <= k < |nodes|
    ensures Linked(d1, d2[at[k] := EndOf(Node(nodes[k].lo, hi))], nx, nodes[k := Node(nodes[k].lo, hi)], at)
  {
    var last := EndOf(Node(nodes[k].lo, hi));
    var nodes' := nodes[k := Node(nodes[k].lo, hi)];
    forall j | 0 <= j < |at|
      ensures d1[at[j]] == Wrap(nodes'[j].lo) && d2[at[k] := last][at[j]] == EndOf(nodes'[j])
    {
      assert d2[at[j]] == EndOf(nodes[j]);
    }
  }

  function LinkAfterDelete(nx: seq<int>, at: seq<int>, k: int): (r: seq<int>)
    requires 0 <= k < |at|
    requires k > 0 ==> 0 <= at[k - 1] < |nx|
    ensures |r| == |nx|
  {
    if k > 0 then nx[at[k - 1] := NextOf(at, k)] else nx
  }

  lemma PlacedDelete(at: seq<int>, size: int, k: int)
    requires Placed(at, size) && 0 <= k < |at|
    ensures Placed(DeleteAt(at, k), size)
    ensures at[k] !in DeleteAt(at, k)
  {
    var at' := DeleteAt(at, k);
    forall i | 0 <= i < |at'|
      ensures 0 <= at'[i] < size && at'[i] != at[k]
    {
      assert at'[i] == at[if i < k then i else i + 1];
    }
    forall i, j | 0 <= i < j < |at'|
      ensures at'[i] != at'[j]
    {
      assert at'[i] == at[if i < k then i else i + 1];
      assert at'[j] == at[if j < k then j else j + 1];
    }
  }

  lemma HoldsDelete(d1: seq<int>, d2: seq<int>, nodes: seq<Node>, at: seq<int>, k: int)
    requires |d1| == |d2| && |at| == |nodes| && Placed(at, |d1|) && Holds(d1, d2, nodes, at)
    requires 0 <= k < |nodes|
    requires Placed(DeleteAt(at, k), |d1|)
    ensures Holds(d1[at[k] := -1], d2[at[k] := -1], DeleteAt(nodes, k), DeleteAt(at, k))
  {
    var at', nodes' := DeleteAt(at, k), DeleteAt(nodes, k);
    forall j | 0 <= j < |at'|
      ensures d1[at[k] := -1][at'[j]] == Wrap(nodes'[j].lo) && d2[at[k] := -1][at'[j]] == EndOf(nodes'[j])
    {
      var j0 := if j < k then j else j + 1;
      assert at'[j] == at[j0] && nodes'[j] == nodes[j0];
    }
  }

  lemma ChainedDelete(nx: seq<int>, at: seq<int>, k: int)
    requires Placed(at, |nx|) && Chained(nx, at) && 0 <= k < |at|
    requires Placed(DeleteAt(at, k), |nx|)
    ensures Chained(LinkAfterDelete(nx, at, k), DeleteAt(at, k))
  {
    var at' := DeleteAt(at, k);
    var nx' := LinkAfterDelete(nx, at, k);
    forall j | 0 <= j < |at'|
      ensures nx'[at'[j]] == NextOf(at', j)
    {
      var j0 := if j < k then j else j + 1;
      assert at'[j] == at[j0] && nx[at[j0]] == NextOf(at, j0);
      assert j0 != k - 1 ==> nx'[at[j0]] == nx[at[j0]];
    }
  }

  lemma LinkDelete(d1: seq<int>, d2: seq<int>, nx: seq<int>, nodes: seq<Node>, at: seq<int>, k: int)
    requires Linked(d1, d2, nx, nodes, at)
    requires 0 <= k < |nodes|
    ensures Linked(d1[at[k] := -1], d2[at[k] := -1], LinkAfterDelete(nx, at, k), DeleteAt(nodes, k), DeleteAt(at, k))
  {
    PlacedDelete(at, |d1|, k);
    HoldsDelete(d1, d2, nodes, at, k);
    ChainedDelete(nx, at, k);
  }

  // ----- slots by modular addressing

  /** The slot of coordinate x, when coordinate org has slot 0. */
  function Slot(x: int, org: int, size: int): (p: int)
    requires size > 0
    ensures 0 <= p < size
  {
    (x - org) % size
  }

  /** The slot found from the head slot and the offset of a number from the head's first number. */
  function Locate(headSlot: int, offset: int, size: int): (p: int)
    requires size > 0
    ensures 0 <= p < size
  {
    (headSlot + offset + size) % size
  }

  /** The same without the added size, for offsets that cannot be negative. */
  function SlotFrom(headSlot: int, offset: int, size: int): (p: int)
    requires size > 0
    ensures 0 <= p < size
  {
    (headSlot + offset) % size
  }

  /** The slot after p, round the array. */
  function NextSlot(p: int, size: int): (q: int)
    requires size > 0
    ensures 0 <= q < size
  {
    (p + 1) % size
  }

  /** The slot before p, round the array. */
  function PrevSlot(p: int, size: int): (q: int)
    requires size > 0
    ensures 0 <= q < size
  {
    (p - 1 + size) % size
  }

  ghost predicate Addressed(nodes: seq<Node>, at: seq<int>, org: int, size: int) {
    && size > 0
    && |at| == |nodes|
    && forall k :: 0 <= k < |nodes| ==> at[k] == Slot(nodes[k].lo, org, size)
  }

  lemma MulGrows(q: int, m: int)
    requires m > 0
    ensures q >= 1 ==> q * m >= m
    ensures q <= -1 ==> q * m <= -m
  {
  }

  lemma ModUnique(a: int, m: int, q: int, r: int)
    requires m > 0 && a == q * m + r && 0 <= r < m
    ensures a % m == r
  {
    var q', r' := a / m, a % m;
    assert a == q' * m + r';
    assert (q - q') * m == q * m - q' * m;
    MulGrows(q - q', m);
  }

  /** The head slot plus an offset, taken modulo the size, is the slot of the moved coordinate. */
  lemma SlotMove(x: int, d: int, org: int, size: int)
    requires size > 0
    ensures SlotFrom(Slot(x, org, size), d, size) == Slot(x + d, org, size)
    ensures Locate(Slot(x, org, size), d, size) == Slot(x + d, org, size)
  {
    var a := x - org;
    var q1, r1 := a / size, a % size;
    var q2, r2 := (r1 + d) / size, (r1 + d) % size;
    assert a + d == (q1 + q2) * size + r2 by {
      assert a == q1 * size + r1;
      assert r1 + d == q2 * size + r2;
      assert (q1 + q2) * size == q1 * size + q2 * size;
    }
    ModUnique(a + d, size, q1 + q2, r2);
    assert r1 + d + size == (q2 + 1) * size + r2 by {
      assert (q2 + 1) * size == q2 * size + size;
    }
    ModUnique(r1 + d + size, size, q2 + 1, r2);
  }

  lemma SlotNext(x: int, org: int, size: int)
    requires size > 0
    ensures NextSlot(Slot(x, org, size), size) == Slot(x + 1, org, size)
  {
    SlotMove(x, 1, org, size);
  }

  lemma SlotPrev(x: int, org: int, size: int)
    requires size > 0
    ensures PrevSlot(Slot(x, org, size), size) == Slot(x - 1, org, size)
  {
    SlotMove(x, -1, org, size);
  }

  /** Two coordinates less than the array size apart share a slot only if they are equal. */
  lemma SlotInjective(x: int, y: int, org: int, size: int)
    requires size > 0 && -size < x - y < size
    requires Slot(x, org, size) == Slot(y, org, size)
    ensures x == y
  {
    var qx, qy := (x - org) / size, (y - org) / size;
    assert x - org == qx * size + Slot(x, org, size);
    assert y - org == qy * size + Slot(y, org, size);
    assert x - y == (qx - qy) * size by {
      assert (qx - qy) * size == qx * size - qy * size;
    }
    MulGrows(qx - qy, size);
  }

  /** The slot of a coordinate of the window that starts no node is empty. */
  lemma SlotFree(nodes: seq<Node>, at: seq<int>, org: int, size: int, x: int)
    requires Addressed(nodes, at, org, size)
    requires forall k :: 0 <= k < |nodes| ==> nodes[k].lo != x && -size < nodes[k].lo - x < size
    ensures Slot(x, org, size) !in at
  {
    if Slot(x, org, size) in at {
      var k :| 0 <= k < |at| && at[k] == Slot(x, org, size);
      SlotInjective(nodes[k].lo, x, org, size);
    }
  }

  lemma AddressInsert(nodes: seq<Node>, at: seq<int>, org: int, size: int, k: int, n: Node)
    requires Addressed(nodes, at, org, size) && 0 <= k <= |nodes|
    ensures Addressed(InsertAt(nodes, k, n), InsertAt(at, k, Slot(n.lo, org, size)), org, size)
  {
  }

  /** At most one node of a chain contains x. */
  lemma NodeOf(nodes: seq<Node>, k: int, x: int)
    requires Ordered(nodes) && Disjoint(nodes) && 0 <= k < |nodes| && nodes[k].lo <= x
    requires k + 1 < |nodes| ==> x < nodes[k + 1].lo
    ensures x in Members(nodes) <==> x <= nodes[k].hi
  {
    MembersAt(nodes, x);
    if x in Members(nodes) {
      var j :| 0 <= j < |nodes| && nodes[j].lo <= x <= nodes[j].hi;
      if j < k {
        assert nodes[j].hi < nodes[k].lo;
      }
    }
  }

  // ----- the whole representation of a loss list, and what each elementary edit does to it

  ghost predicate Stored(d1: seq<int>, d2: seq<int>, nx: seq<int>, nodes: seq<Node>, at: seq<int>, org: int, size: int) {
    && |d1| == size
    && Linked(d1, d2, nx, nodes, at)
    && Addressed(nodes, at, org, size)
    && Ordered(nodes)
    && (nodes != [] ==> Within(nodes, nodes[0].lo, nodes[0].lo + Capacity(size) - 1))
  }

  /** All coordinates of a list must lie in a window of this many numbers. */
  function Capacity(size: int): int {
    if size < THRESHOLD then size else THRESHOLD
  }

  lemma {:induction false} TotalPositive(nodes: seq<Node>)
    requires Ordered(nodes)
    ensures Total(nodes) >= |nodes|
  {
    if nodes != [] {
      TotalPositive(nodes[1..]);
    }
  }

  /** A new node with coordinates not used as a start yet. */
  lemma StoreInsert(d1: seq<int>, d2: seq<int>, nx: seq<int>, nodes: seq<Node>, at: seq<int>, org: int, size: int, k: int, n: Node)
    requires Stored(d1, d2, nx, nodes, at, org, size)
    requires 0 <= k <= |nodes| && n.lo <= n.hi
    requires k > 0 ==> nodes[k - 1].lo < n.lo
    requires k < |nodes| ==> n.lo < nodes[k].lo
    requires Within(InsertAt(nodes, k, n), if k == 0 then n.lo else nodes[0].lo, (if k == 0 then n.lo else nodes[0].lo) + Capacity(size) - 1)
    ensures Slot(n.lo, org, size) !in at
    ensures Stored(d1[Slot(n.lo, org, size) := Wrap(n.lo)], d2[Slot(n.lo, org, size) := EndOf(n)],
                   LinkAfterInsert(nx, at, k, Slot(n.lo, org, size)), InsertAt(nodes, k, n), InsertAt(at, k, Slot(n.lo, org, size)), org, size)
  {
    hide Slot, Wrap, Linked, LinkAfterInsert, InsertAt;
    PlaceOf(nodes, size, k, n);
    SlotFree(nodes, at, org, size, n.lo);
    LinkInsert(d1, d2, nx, nodes, at, k, Slot(n.lo, org, size), n);
    AddressInsert(nodes, at, org, size, k, n);
    OrderedInsert(nodes, k, n);
  }

  /** Where a node belongs that fits into the window. */
  lemma PlaceOf(nodes: seq<Node>, size: int, k: int, n: Node)
    requires Ordered(nodes) && 0 <= k <= |nodes| && n.lo <= n.hi
    requires k > 0 ==> nodes[k - 1].lo < n.lo
    requires k < |nodes| ==> n.lo < nodes[k].lo
    requires Within(InsertAt(nodes, k, n), if k == 0 then n.lo else nodes[0].lo, (if k == 0 then n.lo else nodes[0].lo) + Capacity(size) - 1)
    ensures forall j :: 0 <= j < |nodes| ==> nodes[j].lo != n.lo && -size < nodes[j].lo - n.lo < size
    ensures forall j :: 0 <= j < |nodes| ==> if j < k then nodes[j].lo < n.lo else n.lo < nodes[j].lo
    ensures InsertAt(nodes, k, n)[0].lo == if k == 0 then n.lo else nodes[0].lo
  {
    var nodes' := InsertAt(nodes, k, n);
    forall j | 0 <= j < |nodes|
      ensures nodes[j].lo != n.lo && -size < nodes[j].lo - n.lo < size
      ensures if j < k then nodes[j].lo < n.lo else n.lo < nodes[j].lo
    {
      assert nodes'[k] == n;
      assert nodes'[if j < k then j else j + 1] == nodes[j];
    }
  }

  lemma OrderedInsert(nodes: seq<Node>, k: int, n: Node)
    requires Ordered(nodes) && 0 <= k <= |nodes| && n.lo <= n.hi
    requires forall j :: 0 <= j < |nodes| ==> if j < k then nodes[j].lo < n.lo else n.lo < nodes[j].lo
    ensures Ordered(InsertAt(nodes, k, n))
  {
    var nodes' := InsertAt(nodes, k, n);
    forall j | 0 <= j < |nodes'|
      ensures nodes'[j] == if j < k then nodes[j] else if j == k then n else nodes[j - 1]
    {
    }
  }

  lemma OrderedDelete(nodes: seq<Node>, k: int)
    requires Ordered(nodes) && 0 <= k < |nodes|
    ensures Ordered(DeleteAt(nodes, k))
  {
    var nodes' := DeleteAt(nodes, k);
    forall j | 0 <= j < |nodes'|
      ensures nodes'[j] == nodes[if j < k then j else j + 1]
    {
    }
  }

  /** Moving the end of node k. */
  lemma StoreSetHi(d1: seq<int>, d2: seq<int>, nx: seq<int>, nodes: seq<Node>, at: seq<int>, org: int, size: int, k: int, hi: int)
    requires Stored(d1, d2, nx, nodes, at, org, size)
    requires 0 <= k < |nodes| && nodes[k].lo <= hi < nodes[0].lo + Capacity(size)
    ensures Stored(d1, d2[at[k] := EndOf(Node(nodes[k].lo, hi))], nx, nodes[k := Node(nodes[k].lo, hi)], at, org, size)
  {
    hide Linked, Slot;
    LinkSetHi(d1, d2, nx, nodes, at, k, hi);
  }

  /** Removing node k. */
  lemma StoreDelete(d1: seq<int>, d2: seq<int>, nx: seq<int>, nodes: seq<Node>, at: seq<int>, org: int, size: int, k: int)
    requires Stored(d1, d2, nx, nodes, at, org, size)
    requires 0 <= k < |nodes|
    ensures Stored(d1[at[k] := -1], d2[at[k] := -1], LinkAfterDelete(nx, at, k), DeleteAt(nodes, k), DeleteAt(at, k), org, size)
  {
    hide Linked, LinkAfterDelete, Slot, Wrap;
    LinkDelete(d1, d2, nx, nodes, at, k);
    OrderedDelete(nodes, k);
    var nodes', at' := DeleteAt(nodes, k), DeleteAt(at, k);
    forall j | 0 <= j < |nodes'|
      ensures at'[j] == Slot(nodes'[j].lo, org, size)
      ensures nodes'[0].lo <= nodes'[j].lo && nodes'[j].hi <= nodes'[0].lo + Capacity(size) - 1
    {
      var j0 := if j < k then j else j + 1;
      assert at'[j] == at[j0] && nodes'[j] == nodes[j0];
      assert nodes[0].lo <= nodes'[0].lo;
    }
  }

  function MaxOf(a: int, b: int): int {
    if a < b then b else a
  }

  /** Node k swallows its successor. */
  function Absorbed(nodes: seq<Node>, k: int): seq<Node>
    requires 0 <= k < |nodes| - 1
  {
    DeleteAt(nodes[k := Node(nodes[k].lo, MaxOf(nodes[k].hi, nodes[k + 1].hi))], k + 1)
  }

  lemma AbsorbedDisjoint(nodes: seq<Node>, k: int)
    requires 0 <= k < |nodes| - 1 && DisjointBut(nodes, k)
    ensures DisjointBut(Absorbed(nodes, k), k)
  {
    var mid := nodes[k := Node(nodes[k].lo, MaxOf(nodes[k].hi, nodes[k + 1].hi))];
    var after := DeleteAt(mid, k + 1);
    forall i, j | 0 <= i < j < |after| && i != k
      ensures after[i].hi < after[j].lo
    {
      var i0, j0 := if i < k + 1 then i else i + 1, if j < k + 1 then j else j + 1;
      assert after[i] == nodes[i0] && after[j].lo == nodes[j0].lo;
    }
  }

  lemma StoreAbsorb(d1: seq<int>, d2: seq<int>, nx: seq<int>, nodes: seq<Node>, at: seq<int>, org: int, size: int, k: int)
    requires Stored(d1, d2, nx, nodes, at, org, size)
    requires 0 <= k < |nodes| - 1
    ensures var end := EndOf(Node(nodes[k].lo, MaxOf(nodes[k].hi, nodes[k + 1].hi)));
            Stored(d1[at[k + 1] := -1], d2[at[k] := end][at[k + 1] := -1], nx[at[k] := NextOf(at, k + 1)], Absorbed(nodes, k), DeleteAt(at, k + 1), org, size)
  {
    var hi := MaxOf(nodes[k].hi, nodes[k + 1].hi);
    assert nodes[k].lo <= nodes[k].hi <= hi;
    StoreSetHi(d1, d2, nx, nodes, at, org, size, k, hi);
    var mid := nodes[k := Node(nodes[k].lo, hi)];
    StoreDelete(d1, d2[at[k] := EndOf(Node(nodes[k].lo, hi))], nx, mid, at, org, size, k + 1);
  }

  /** What one node of a stored chain looks like in the arrays. */
  lemma StoredNode(d1: seq<int>, d2: seq<int>, nx: seq<int>, nodes: seq<Node>, at: seq<int>, org: int, size: int, k: int)
    requires Stored(d1, d2, nx, nodes, at, org, size) && 0 <= k < |nodes|
    ensures |d1| == |d2| == |nx| == size && |at| == |nodes| && Ordered(nodes)
    ensures 0 <= at[k] < size && at[k] == Slot(nodes[k].lo, org, size)
    ensures d1[at[k]] == Wrap(nodes[k].lo) && d2[at[k]] == EndOf(nodes[k]) && nx[at[k]] == NextOf(at, k)
    ensures nodes[0].lo <= nodes[k].lo <= nodes[k].hi < nodes[0].lo + Capacity(size)
    ensures k + 1 < |nodes| ==> nodes[k].lo < nodes[k + 1].lo && at[k] != at[k + 1] && 0 <= at[k + 1] < size && d1[at[k + 1]] == Wrap(nodes[k + 1].lo)
  {
  }

  lemma EndsAreMembers(nodes: seq<Node>, k: int)
    requires 0 <= k < |nodes| && nodes[k].lo <= nodes[k].hi
    ensures nodes[k].lo in Members(nodes) && nodes[k].hi in Members(nodes)
  {
    MembersAt(nodes, nodes[k].lo);
    MembersAt(nodes, nodes[k].hi);
  }

  /** Once node k no longer reaches its successor, the whole chain is disjoint. */
  lemma NoOverlapLeft(nodes: seq<Node>, k: int)
    requires Ordered(nodes) && 0 <= k < |nodes| && DisjointBut(nodes, k)
    requires k + 1 < |nodes| ==> nodes[k].hi < nodes[k + 1].lo
    ensures Disjoint(nodes)
  {
    forall i, j | 0 <= i < j < |nodes|
      ensures nodes[i].hi < nodes[j].lo
    {
      if i == k {
        assert nodes[k + 1].lo <= nodes[j].lo;
      }
    }
  }

  /** The slot of x holds the number of x exactly when some node starts at x; k is that node, or -1. */
  lemma FindNode(d1: seq<int>, d2: seq<int>, nx: seq<int>, nodes: seq<Node>, at: seq<int>, org: int, size: int, x: int)
    returns (k: int)
    requires Stored(d1, d2, nx, nodes, at, org, size)
    requires forall j :: 0 <= j < |nodes| ==> Near(nodes[j].lo, x)
    ensures -1 <= k < |nodes| == |at| && |d1| == size
    ensures k >= 0 ==> nodes[k].lo == x && at[k] == Slot(x, org, size) && d1[Slot(x, org, size)] == Wrap(x)
    ensures k < 0 ==> d1[Slot(x, org, size)] != Wrap(x) && forall j :: 0 <= j < |nodes| ==> nodes[j].lo != x
  {
    hide Slot, Wrap;
    k := -1;
    var p := Slot(x, org, size);
    if d1[p] == Wrap(x) {
      assert p in at;
      k :| 0 <= k < |at| && at[k] == p;
      assert d1[at[k]] == Wrap(nodes[k].lo);
      CmpOfWrap(nodes[k].lo, x);
    } else {
      forall j | 0 <= j < |nodes|
        ensures nodes[j].lo != x
      {
        assert d1[at[j]] == Wrap(nodes[j].lo) && at[j] == Slot(nodes[j].lo, org, size);
      }
    }
  }

  lemma InsertDisjoint(nodes: seq<Node>, k: int, n: Node)
    requires Disjoint(nodes) && 0 <= k <= |nodes|
    requires forall j :: 0 <= j < |nodes| ==> if j < k then nodes[j].hi < n.lo else n.lo < nodes[j].lo
    ensures DisjointBut(InsertAt(nodes, k, n), k)
  {
    var after := InsertAt(nodes, k, n);
    forall i, j | 0 <= i < j < |after| && i != k
      ensures after[i].hi < after[j].lo
    {
      assert after[i] == nodes[if i < k then i else i - 1];
      assert j != k ==> after[j] == nodes[if j < k then j else j - 1];
    }
  }

  /** Stretching node k to reach x2 adds the range from any of its numbers (or the next one) up to x2. */
  lemma StretchNode(nodes: seq<Node>, k: int, x1: int, x2: int)
    requires 0 <= k < |nodes| && nodes[k].lo <= x1 <= nodes[k].hi + 1 && nodes[k].hi < x2
    ensures Members(nodes[k := Node(nodes[k].lo, x2)]) == Members(nodes) + Range(x1, x2)
  {
    ReplaceNode(nodes, k, Node(nodes[k].lo, x2));
    assert Range(nodes[k].lo, x2) == Range(nodes[k].lo, nodes[k].hi) + Range(x1, x2);
  }

  lemma RangeInNode(nodes: seq<Node>, k: int, x1: int, x2: int)
    requires 0 <= k < |nodes| && nodes[k].lo <= x1 && x2 <= nodes[k].hi
    ensures Members(nodes) + Range(x1, x2) == Members(nodes)
  {
    SplitChain(nodes, k);
  }

  lemma StoredEmpty(d1: seq<int>, d2: seq<int>, nx: seq<int>, nodes: seq<Node>, at: seq<int>, org: int, size: int, p: int)
    requires Stored(d1, d2, nx, nodes, at, org, size) && 0 <= p < size && p !in at
    ensures |d1| == |d2| == size && d1[p] == -1 && d2[p] == -1
  {
  }

  /** A number of the window that starts no node has an empty slot. */
  lemma StoredFree(d1: seq<int>, d2: seq<int>, nx: seq<int>, nodes: seq<Node>, at: seq<int>, org: int, size: int, x: int)
    requires Stored(d1, d2, nx, nodes, at, org, size) && nodes != []
    requires nodes[0].lo <= x < nodes[0].lo + Capacity(size)
    requires forall j :: 0 <= j < |nodes| ==> nodes[j].lo != x
    ensures Slot(x, org, size) !in at
  {
    hide Linked, Slot;
    forall j | 0 <= j < |nodes|
      ensures nodes[j].lo != x && -size < nodes[j].lo - x < size
    {
      assert nodes[0].lo <= nodes[j].lo <= nodes[j].hi < nodes[0].lo + Capacity(size);
    }
    SlotFree(nodes, at, org, size, x);
  }

  lemma StoredWindow(d1: seq<int>, d2: seq<int>, nx: seq<int>, nodes: seq<Node>, at: seq<int>, org: int, size: int)
    requires Stored(d1, d2, nx, nodes, at, org, size) && nodes != []
    ensures Within(nodes, nodes[0].lo, nodes[0].lo + Capacity(size) - 1)
  {
  }

  /** Dropping the first number of a longer node: the node moves one slot on. */
  lemma StoreShift(d1: seq<int>, d2: seq<int>, nx: seq<int>, nodes: seq<Node>, at: seq<int>, org: int, size: int, k: int)
    requires Stored(d1, d2, nx, nodes, at, org, size) && Disjoint(nodes)
    requires 0 <= k < |nodes| && nodes[k].lo < nodes[k].hi
    ensures var n, loc := Node(nodes[k].lo + 1, nodes[k].hi), Slot(nodes[k].lo + 1, org, size);
            && loc !in at
            && |at| == |nodes| && |d1| == |d2| == |nx| == size && 0 <= at[k] < size && (k > 0 ==> 0 <= at[k - 1] < size && at[k - 1] != loc)
            && Stored(d1[at[k] := -1][loc := Wrap(n.lo)], d2[at[k] := -1][loc := EndOf(n)],
                      if k > 0 then nx[loc := NextOf(at, k)][at[k - 1] := loc] else nx[loc := NextOf(at, k)], nodes[k := n], at[k := loc], org, size)
    ensures Disjoint(nodes[k := Node(nodes[k].lo + 1, nodes[k].hi)])
  {
    hide Slot, Wrap, Linked, Stored, InsertAt, DeleteAt, LinkAfterInsert, LinkAfterDelete;
    StoredNode(d1, d2, nx, nodes, at, org, size, k);
    StoredNode(d1, d2, nx, nodes, at, org, size, if k > 0 then k - 1 else 0);
    StoredWindow(d1, d2, nx, nodes, at, org, size);
    var n, loc := Node(nodes[k].lo + 1, nodes[k].hi), Slot(nodes[k].lo + 1, org, size);
    StoredFree(d1, d2, nx, nodes, at, org, size, n.lo);
    StoreDelete(d1, d2, nx, nodes, at, org, size, k);
    var nodes1, at1 := DeleteAt(nodes, k), DeleteAt(at, k);
    DeleteInsert(nodes, k, n);
    DeleteInsert(at, k, loc);
    assert at[k] in at;
    assert Within(nodes[k := n], if k == 0 then n.lo else nodes[0].lo, (if k == 0 then n.lo else nodes[0].lo) + Capacity(size) - 1) by {
      ShiftWindow(nodes, k, Capacity(size));
    }
    StoreInsert(d1[at[k] := -1], d2[at[k] := -1], LinkAfterDelete(nx, at, k), nodes1, at1, org, size, k, n);
    Relink(nx, at, k, loc);
  }

  lemma DeleteInsert<T(!new)>(s: seq<T>, k: int, t: T)
    requires 0 <= k < |s|
    ensures InsertAt(DeleteAt(s, k), k, t) == s[k := t]
  {
  }

  lemma Relink(nx: seq<int>, at: seq<int>, k: int, loc: int)
    requires 0 <= k < |at| && 0 <= loc < |nx| && (k > 0 ==> 0 <= at[k - 1] < |nx|)
    ensures LinkAfterInsert(LinkAfterDelete(nx, at, k), DeleteAt(at, k), k, loc)
            == if k > 0 then nx[loc := NextOf(at, k)][at[k - 1] := loc] else nx[loc := NextOf(at, k)]
  {
    hide DeleteAt;
    var at1 := DeleteAt(at, k);
    assert NextOf(at, k) == if k < |at1| then at1[k] else -1;
    assert k > 0 ==> at1[k - 1] == at[k - 1];
  }

  lemma ShiftWindow(nodes: seq<Node>, k: int, cap: int)
    requires Ordered(nodes) && Disjoint(nodes) && 0 <= k < |nodes| && nodes[k].lo < nodes[k].hi
    requires Within(nodes, nodes[0].lo, nodes[0].lo + cap - 1)
    ensures var first := if k == 0 then nodes[0].lo + 1 else nodes[0].lo;
            Within(nodes[k := Node(nodes[k].lo + 1, nodes[k].hi)], first, first + cap - 1)
  {
  }

  /** Node k cut in two after x. */
  function Split(nodes: seq<Node>, k: int, x: int): (r: seq<Node>)
    requires 0 <= k < |nodes|
    ensures |r| == |nodes| + 1
  {
    InsertAt(nodes[k := Node(nodes[k].lo, x)], k + 1, Node(x + 1, nodes[k].hi))
  }

  lemma SplitOrder(nodes: seq<Node>, k: int, x: int)
    requires Ordered(nodes) && Disjoint(nodes)
    requires 0 <= k < |nodes| && nodes[k].lo <= x < nodes[k].hi
    ensures Disjoint(Split(nodes, k, x)) && Ordered(Split(nodes, k, x))
    ensures Split(nodes, k, x)[k] == Node(nodes[k].lo, x) && Split(nodes, k, x)[k + 1] == Node(x + 1, nodes[k].hi)
    ensures forall j :: 0 <= j < |Split(nodes, k, x)| ==> if j < k + 1 then Split(nodes, k, x)[j].hi <= x else x < Split(nodes, k, x)[j].lo
  {
    var after := Split(nodes, k, x);
    forall j | 0 <= j < |after|
      ensures after[j] == if j < k then nodes[j] else if j == k then Node(nodes[k].lo, x) else if j == k + 1 then Node(x + 1, nodes[k].hi) else nodes[j - 1]
    {
    }
  }

  lemma SplitMembers(nodes: seq<Node>, k: int, x: int)
    requires 0 <= k < |nodes| && nodes[k].lo <= x < nodes[k].hi
    ensures Members(Split(nodes, k, x)) == Members(nodes) && Total(Split(nodes, k, x)) == Total(nodes)
  {
    hide Members, Total, Range, InsertAt;
    var n := Node(nodes[k].lo, x);
    ReplaceNode(nodes, k, n);
    InsertNode(nodes[k := n], k + 1, Node(x + 1, nodes[k].hi));
    RangeSplit(n.lo, x, nodes[k].hi);
    UnionParts(Members(nodes[..k]), Range(n.lo, x), Range(x + 1, nodes[k].hi), Members(nodes[k + 1..]));
  }

  lemma RangeSplit(lo: int, x: int, hi: int)
    requires lo - 1 <= x <= hi
    ensures Range(lo, x) + Range(x + 1, hi) == Range(lo, hi)
  {
    hide Range;
  }

  lemma UnionParts(a: set<int>, r1: set<int>, r2: set<int>, b: set<int>)
    ensures (a + r1 + b) + r2 == a + (r1 + r2) + b
  {
  }

  lemma StoreSplit(d1: seq<int>, d2: seq<int>, nx: seq<int>, nodes: seq<Node>, at: seq<int>, org: int, size: int, k: int, x: int)
    requires Stored(d1, d2, nx, nodes, at, org, size) && Disjoint(nodes)
    requires 0 <= k < |nodes| && nodes[k].lo <= x < nodes[k].hi
    ensures var loc := Slot(x + 1, org, size);
            && loc !in at
            && |at| == |nodes| && |d1| == |d2| == |nx| == size && 0 <= at[k] < size
            && Stored(d1[loc := Wrap(x + 1)], d2[at[k] := EndOf(Node(nodes[k].lo, x))][loc := EndOf(Node(x + 1, nodes[k].hi))],
                      nx[loc := NextOf(at, k)][at[k] := loc], Split(nodes, k, x), InsertAt(at, k + 1, loc), org, size)
  {
    hide Slot, Wrap, Linked;
    var loc := Slot(x + 1, org, size);
    var n, m := Node(nodes[k].lo, x), Node(x + 1, nodes[k].hi);
    StoredNode(d1, d2, nx, nodes, at, org, size, k);
    StoreSetHi(d1, d2, nx, nodes, at, org, size, k, x);
    var nodes1 := nodes[k := n];
    SplitOrder(nodes, k, x);
    assert Within(Split(nodes, k, x), nodes[0].lo, nodes[0].lo + Capacity(size) - 1) by {
      hide Stored;
      SplitWindow(nodes, k, x, nodes[0].lo, nodes[0].lo + Capacity(size) - 1);
    }
    StoreInsert(d1, d2[at[k] := EndOf(n)], nx, nodes1, at, org, size, k + 1, m);
    assert LinkAfterInsert(nx, at, k + 1, loc) == nx[loc := NextOf(at, k)][at[k] := loc];
  }

  lemma SplitWindow(nodes: seq<Node>, k: int, x: int, first: int, last: int)
    requires 0 <= k < |nodes| && nodes[k].lo <= x < nodes[k].hi && Within(nodes, first, last)
    ensures Within(Split(nodes, k, x), first, last)
  {
    var after := Split(nodes, k, x);
    forall j | 0 <= j < |after|
      ensures after[j] == if j < k then nodes[j] else if j == k then Node(nodes[k].lo, x) else if j == k + 1 then Node(x + 1, nodes[k].hi) else nodes[j - 1]
    {
    }
  }

  /** The nodes from number t on hold exactly the members beyond x. */
  lemma MembersBeyond(nodes: seq<Node>, t: int, x: int, c: int)
    requires 0 <= t <= |nodes|
    requires forall j :: 0 <= j < |nodes| ==> if j < t then nodes[j].hi <= x else x < nodes[j].lo
    ensures c in Members(nodes[t..]) <==> c in Members(nodes) && c > x
  {
    MembersAt(nodes, c);
    MembersAt(nodes[t..], c);
    if c in Members(nodes[t..]) {
      var j :| 0 <= j < |nodes[t..]| && nodes[t..][j].lo <= c <= nodes[t..][j].hi;
      assert nodes[t + j].lo <= c <= nodes[t + j].hi;
    }
    if c in Members(nodes) && c > x {
      var j :| 0 <= j < |nodes| && nodes[j].lo <= c <= nodes[j].hi;
      assert nodes[t..][j - t].lo <= c <= nodes[t..][j - t].hi;
    }
  }

  lemma FirstApart(nodes: seq<Node>)
    requires nodes != [] && Disjoint(nodes)
    ensures Range(nodes[0].lo, nodes[0].hi) !! Members(nodes[1..])
  {
    hide Range, Members;
    var rest := nodes[1..];
    forall c | c in Members(rest)
      ensures c !in Range(nodes[0].lo, nodes[0].hi)
    {
      MembersAt(rest, c);
      var k :| 0 <= k < |rest| && rest[k].lo <= c <= rest[k].hi;
      assert nodes[0].hi < nodes[k + 1].lo;
    }
  }

  lemma MinusFirst(r: set<int>, m: set<int>)
    requires r !! m
    ensures (r + m) - r == m
  {
  }

  /** Dropping the first node of a disjoint chain. */
  lemma DropFirstNode(nodes: seq<Node>)
    requires nodes != [] && Ordered(nodes) && Disjoint(nodes)
    ensures DeleteAt(nodes, 0) == nodes[1..] && Disjoint(nodes[1..])
    ensures Total(nodes[1..]) == Total(nodes) - (nodes[0].hi - nodes[0].lo + 1)
    ensures Members(nodes[1..]) == Members(nodes) - Range(nodes[0].lo, nodes[0].hi)
  {
    hide Range;
    FirstApart(nodes);
    MinusFirst(Range(nodes[0].lo, nodes[0].hi), Members(nodes[1..]));
  }

  /** Narrowing node k by one number at either end removes that number. */
  lemma NarrowNode(nodes: seq<Node>, k: int, n: Node, x: int)
    requires Ordered(nodes) && Disjoint(nodes) && 0 <= k < |nodes| && n.lo <= n.hi
    requires (n.lo == nodes[k].lo + 1 && n.hi == nodes[k].hi && x == nodes[k].lo) || (n.lo == nodes[k].lo && n.hi == nodes[k].hi - 1 && x == nodes[k].hi)
    ensures Members(nodes[k := n]) == Members(nodes) - {x} && Total(nodes[k := n]) == Total(nodes) - 1
    ensures x in Members(nodes)
  {
    hide Members, Total, Range;
    ReplaceNode(nodes, k, n);
    EndsAreMembers(nodes, k);
    OutsideNode(nodes, k, x);
    RestOfUnion(Members(nodes[..k]), Range(n.lo, n.hi), Members(nodes[k + 1..]), Range(nodes[k].lo, nodes[k].hi), x);
  }

  lemma RestOfUnion(a: set<int>, r1: set<int>, b: set<int>, r: set<int>, x: int)
    requires r1 == r - {x} && x !in a && x !in b
    ensures a + r1 + b == (a + r + b) - {x}
  {
  }

  /** A number of node k is in no other node. */
  lemma OutsideNode(nodes: seq<Node>, k: int, x: int)
    requires Ordered(nodes) && Disjoint(nodes) && 0 <= k < |nodes| && nodes[k].lo <= x <= nodes[k].hi
    ensures x !in Members(nodes[..k]) && x !in Members(nodes[k + 1..])
  {
    MembersAt(nodes[..k], x);
    MembersAt(nodes[k + 1..], x);
  }

  lemma SingleRange(x: int)
    ensures Range(x, x) == {x}
  {
    hide Range;
  }

  /** Where the nodes of a disjoint chain stand around x, when node k is the last one that starts before it. */
  lemma OrderBeyond(nodes: seq<Node>, k: int, x: int)
    requires Ordered(nodes) && Disjoint(nodes) && -1 <= k < |nodes|
    requires k >= 0 ==> nodes[k].hi <= x
    requires k + 1 < |nodes| ==> x < nodes[k + 1].lo
    ensures forall j :: 0 <= j < |nodes| ==> if j < k + 1 then nodes[j].hi <= x else x < nodes[j].lo
  {
    forall j | 0 <= j < |nodes|
      ensures if j < k + 1 then nodes[j].hi <= x else x < nodes[j].lo
    {
      if j < k {
        assert nodes[j].hi < nodes[k].lo <= nodes[k].hi;
      } else if j > k + 1 {
        assert nodes[k + 1].lo < nodes[j].lo;
      }
    }
  }

  // ----- links to the prior node (the receiver's list only)

  function PriorOf(at: seq<int>, k: int): int
    requires 0 <= k < |at|
  {
    if k > 0 then at[k - 1] else -1
  }

  ghost predicate Backed(pr: seq<int>, at: seq<int>) {
    Placed(at, |pr|) && forall k :: 0 <= k < |at| ==> pr[at[k]] == PriorOf(at, k)
  }

  function PriorAfterInsert(pr: seq<int>, at: seq<int>, k: int, loc: int): (r: seq<int>)
    requires Placed(at, |pr|) && 0 <= k <= |at| && 0 <= loc < |pr|
    ensures |r| == |pr|
  {
    var pr1 := pr[loc := if k > 0 then at[k - 1] else -1];
    if k < |at| then pr1[at[k] := loc] else pr1
  }

  lemma BackInsert(pr: seq<int>, at: seq<int>, k: int, loc: int)
    requires Backed(pr, at) && 0 <= k <= |at| && 0 <= loc < |pr| && loc !in at
    ensures Backed(PriorAfterInsert(pr, at, k, loc), InsertAt(at, k, loc))
  {
    PlacedInsert(at, |pr|, k, loc);
    hide InsertAt;
    var at' := InsertAt(at, k, loc);
    var pr' := PriorAfterInsert(pr, at, k, loc);
    forall j | 0 <= j < |at'|
      ensures pr'[at'[j]] == PriorOf(at', j)
    {
      if j < k {
        assert at'[j] == at[j] && pr[at[j]] == PriorOf(at, j);
      } else if j > k + 1 {
        assert at'[j] == at[j - 1] && at'[j - 1] == at[j - 2] && pr[at[j - 1]] == PriorOf(at, j - 1);
      }
    }
  }

  function PriorAfterDelete(pr: seq<int>, at: seq<int>, k: int): (r: seq<int>)
    requires Placed(at, |pr|) && 0 <= k < |at|
    ensures |r| == |pr|
  {
    if k + 1 < |at| then pr[at[k + 1] := PriorOf(at, k)] else pr
  }

  lemma BackDelete(pr: seq<int>, at: seq<int>, k: int)
    requires Backed(pr, at) && 0 <= k < |at|
    ensures Backed(PriorAfterDelete(pr, at, k), DeleteAt(at, k))
  {
    PlacedDelete(at, |pr|, k);
    hide DeleteAt;
    var at' := DeleteAt(at, k);
    var pr' := PriorAfterDelete(pr, at, k);
    forall j | 0 <= j < |at'|
      ensures pr'[at'[j]] == PriorOf(at', j)
    {
      if j < k {
        assert at'[j] == at[j] && pr[at[j]] == PriorOf(at, j);
      } else if j > k {
        assert at'[j] == at[j + 1] && at'[j - 1] == at[j] && pr[at[j + 1]] == PriorOf(at, j + 1);
      }
    }
  }

  function PriorAfterMove(pr: seq<int>, at: seq<int>, k: int, loc: int): (r: seq<int>)
    requires Placed(at, |pr|) && 0 <= k < |at| && 0 <= loc < |pr|
    ensures |r| == |pr|
  {
    var pr1 := pr[loc := PriorOf(at, k)];
    if k + 1 < |at| then pr1[at[k + 1] := loc] else pr1
  }

  lemma BackMove(pr: seq<int>, at: seq<int>, k: int, loc: int)
    requires Backed(pr, at) && 0 <= k < |at| && 0 <= loc < |pr| && loc !in at
    ensures Backed(PriorAfterMove(pr, at, k, loc), at[k := loc])
  {
    var at' := at[k := loc];
    var pr' := PriorAfterMove(pr, at, k, loc);
    forall j | 0 <= j < |at'|
      ensures pr'[at'[j]] == PriorOf(at', j)
    {
      assert pr[at[j]] == PriorOf(at, j);
    }
  }

  // ----- taking one number out of the middle of a node

  lemma StoreHollow(d1: seq<int>, d2: seq<int>, nx: seq<int>, nodes: seq<Node>, at: seq<int>, org: int, size: int, k: int, x: int)
    requires Stored(d1, d2, nx, nodes, at, org, size) && Disjoint(nodes)
    requires 0 <= k < |nodes| && nodes[k].lo < x < nodes[k].hi
    ensures var loc := Slot(x + 1, org, size);
            && loc !in at
            && |at| == |nodes| && |d1| == |d2| == |nx| == size && 0 <= at[k] < size
            && Stored(d1[loc := Wrap(x + 1)], d2[at[k] := EndOf(Node(nodes[k].lo, x - 1))][loc := EndOf(Node(x + 1, nodes[k].hi))],
                      nx[loc := NextOf(at, k)][at[k] := loc], Hollow(nodes, k, x), InsertAt(at, k + 1, loc), org, size)
    ensures Disjoint(Hollow(nodes, k, x))
  {
    hide Slot, Wrap, Linked, Stored, InsertAt;
    StoredNode(d1, d2, nx, nodes, at, org, size, k);
    var loc := Slot(x + 1, org, size);
    StoreSplit(d1, d2, nx, nodes, at, org, size, k, x);
    StoredNode(d1, d2, nx, nodes, at, org, size, k);
    SplitOrder(nodes, k, x);
    var at' := InsertAt(at, k + 1, loc);
    assert at'[k] == at[k] && at[k] in at;
    var d2' := d2[at[k] := EndOf(Node(nodes[k].lo, x))][loc := EndOf(Node(x + 1, nodes[k].hi))];
    StoreSetHi(d1[loc := Wrap(x + 1)], d2', nx[loc := NextOf(at, k)][at[k] := loc], Split(nodes, k, x), at', org, size, k, x - 1);
    assert d2'[at[k] := EndOf(Node(nodes[k].lo, x - 1))] == d2[at[k] := EndOf(Node(nodes[k].lo, x - 1))][loc := EndOf(Node(x + 1, nodes[k].hi))];
  }

  function Hollow(nodes: seq<Node>, k: int, x: int): (r: seq<Node>)
    requires 0 <= k < |nodes|
    ensures |r| == |nodes| + 1
  {
    Split(nodes, k, x)[k := Node(nodes[k].lo, x - 1)]
  }

  lemma HollowMembers(nodes: seq<Node>, k: int, x: int)
    requires Ordered(nodes) && Disjoint(nodes)
    requires 0 <= k < |nodes| && nodes[k].lo < x < nodes[k].hi
    ensures Members(Hollow(nodes, k, x)) == Members(nodes) - {x} && Total(Hollow(nodes, k, x)) == Total(nodes) - 1
    ensures x in Members(nodes)
  {
    hide Members, Total, Range, Split;
    SplitOrder(nodes, k, x);
    SplitMembers(nodes, k, x);
    NarrowNode(Split(nodes, k, x), k, Node(nodes[k].lo, x - 1), x);
  }

  lemma BackAppend(pr: seq<int>, at: seq<int>, loc: int)
    requires Backed(pr, at) && at != [] && 0 <= loc < |pr| && loc !in at
    ensures Backed(pr[loc := at[|at| - 1]], InsertAt(at, |at|, loc))
  {
    BackInsert(pr, at, |at|, loc);
  }

  // ----- storing the first node, and writing a node's numbers

  lemma StoreFirst(d1: seq<int>, d2: seq<int>, nx: seq<int>, at: seq<int>, org: int, size: int, n: Node)
    requires Stored(d1, d2, nx, [], at, org, size) && size > 0
    requires n.lo <= n.hi < n.lo + Capacity(size)
    ensures |d1| == |d2| == |nx| == size && d2[0] == -1
    ensures Stored(d1[0 := Wrap(n.lo)], d2[0 := EndOf(n)], nx[0 := -1], [n], [0], n.lo, size)
  {
    SlotZero(n.lo, size);
    hide Wrap, Slot;
  }

  lemma SlotZero(x: int, size: int)
    requires size > 0
    ensures Slot(x, x, size) == 0
  {
  }

  /** The numbers of a new node, written into an empty slot. */
  method WriteNode(data1: array<int>, data2: array<int>, loc: int, s1: int, s2: int, ghost n: Node)
    requires data1 != data2 && 0 <= loc < data1.Length == data2.Length && data2[loc] == -1
    requires s1 == Wrap(n.lo) && s2 == Wrap(n.hi) && (s1 == s2 <==> n.lo == n.hi)
    modifies data1, data2
    ensures data1[..] == old(data1[..])[loc := Wrap(n.lo)]
    ensures data2[..] == old(data2[..])[loc := EndOf(n)]
  {
    hide Wrap;
    data1[loc] := s1;
    if s2 != s1 {
      data2[loc] := s2;
    }
  }

  /** Walking down the slots from x finds, at y, the last node that starts before x, or x lies beyond every node. */
  lemma FoundBelow(d1: seq<int>, d2: seq<int>, nx: seq<int>, nodes: seq<Node>, at: seq<int>, org: int, size: int, x: int, y: int) returns (k: int)
    requires Stored(d1, d2, nx, nodes, at, org, size) && Disjoint(nodes) && nodes != []
    requires forall j :: 0 <= j < |nodes| ==> nodes[j].lo != x
    requires nodes[0].lo <= y < x && d1[Slot(y, org, size)] != -1
    requires forall z :: y < z < x ==> d1[Slot(z, org, size)] == -1
    ensures 0 <= k < |nodes| && at[k] == Slot(y, org, size)
    ensures (nodes[k].lo < x && (k + 1 < |nodes| ==> x < nodes[k + 1].lo)) || forall j :: 0 <= j < |nodes| ==> nodes[j].hi < x
  {
    hide Slot, Wrap;
    var p := Slot(y, org, size);
    assert p in at;
    k :| 0 <= k < |at| && at[k] == p;
    if y < nodes[0].lo + Capacity(size) {
      SlotInjective(nodes[k].lo, y, org, size);
      if k + 1 < |nodes| {
        StartNotBetween(d1, d2, nx, nodes, at, org, size, k + 1, x, y);
      }
    }
  }

  lemma StartNotBetween(d1: seq<int>, d2: seq<int>, nx: seq<int>, nodes: seq<Node>, at: seq<int>, org: int, size: int, k: int, x: int, y: int)
    requires Stored(d1, d2, nx, nodes, at, org, size) && 0 <= k < |nodes|
    requires forall z :: y < z < x ==> d1[Slot(z, org, size)] == -1
    ensures nodes[k].lo <= y || x <= nodes[k].lo
  {
    hide Slot, Wrap;
    assert d1[at[k]] == Wrap(nodes[k].lo) && at[k] == Slot(nodes[k].lo, org, size);
  }

  lemma HeadNotEmpty(d1: seq<int>, d2: seq<int>, nx: seq<int>, nodes: seq<Node>, at: seq<int>, org: int, size: int)
    requires Stored(d1, d2, nx, nodes, at, org, size) && nodes != []
    ensures size > 0 && |d1| == size && d1[Slot(nodes[0].lo, org, size)] >= 0
  {
    hide Slot, Wrap;
    assert d1[at[0]] == Wrap(nodes[0].lo);
  }

  /** x lies in the chain exactly if it lies in the node found for it. */
  lemma MemberOfFound(nodes: seq<Node>, k: int, x: int)
    requires Ordered(nodes) && Disjoint(nodes) && 0 <= k < |nodes|
    requires (nodes[k].lo < x && (k + 1 < |nodes| ==> x < nodes[k + 1].lo)) || forall j :: 0 <= j < |nodes| ==> nodes[j].hi < x
    ensures x in Members(nodes) <==> x <= nodes[k].hi
  {
    MembersAt(nodes, x);
    if nodes[k].lo < x && (k + 1 < |nodes| ==> x < nodes[k + 1].lo) {
      NodeOf(nodes, k, x);
    }
  }
}
