/** The sender's buffer (buffer.cpp, class CSndBuffer): a cycle of blocks, of which `count`, starting at the first
    block, hold queued packets.  The current block is the next one to be sent for the first time. */
module SndBuffers {
  import opened Packets

  class Block {
    var data: seq<byte>
    var msgNo: Word
    var next: Block?

    constructor ()
    {
      data, msgNo, next := [], 0, null;
    }
  }

  /** The blocks form one cycle in the order of the sequence. */
  ghost predicate Cycle(ring: seq<Block>)
    reads ring
  {
    && ring != []
    && (forall i, j :: 0 <= i < j < |ring| ==> ring[i] != ring[j])
    && (forall k :: 0 <= k < |ring| - 1 ==> ring[k].next == ring[k + 1])
    && ring[|ring| - 1].next == ring[0]
  }

  /** The first blocks hold the packets, in order. */
  ghost predicate Holds(ring: seq<Block>, packets: seq<Packet>)
    reads ring
  {
    |packets| <= |ring| && forall k :: 0 <= k < |packets| ==> packets[k] == Packet(ring[k].msgNo, ring[k].data)
  }

  /** The blocks form one chain in the order of the sequence, the last link not being set. */
  ghost predicate Chain(ring: seq<Block>)
    reads ring
  {
    && ring != []
    && (forall i, j :: 0 <= i < j < |ring| ==> ring[i] != ring[j])
    && (forall k :: 0 <= k < |ring| - 1 ==> ring[k].next == ring[k + 1])
  }

  function Rotate<T>(s: seq<T>, k: nat): seq<T>
    requires k <= |s|
  {
    s[k..] + s[..k]
  }

  /** A cycle may be read from any of its blocks. */
  lemma RotateCycle(ring: seq<Block>, k: nat)
    requires Cycle(ring) && k < |ring|
    ensures Cycle(Rotate(ring, k)) && |Rotate(ring, k)| == |ring|
    ensures forall i :: 0 <= i < |ring| - k ==> Rotate(ring, k)[i] == ring[i + k]
  {
    var r := Rotate(ring, k);
    var n := |ring|;
    forall i | 0 <= i < n
      ensures r[i] == ring[if i + k < n then i + k else i + k - n]
    {
    }
    assert r[n - 1].next == r[0] by {
      assert k == 0 ==> r[n - 1] == ring[n - 1];
      assert k > 0 ==> r[n - 1] == ring[k - 1];
    }
    forall i | 0 <= i < n - 1
      ensures r[i].next == r[i + 1]
    {
      if i + k + 1 < n {
        assert r[i] == ring[i + k];
      } else if i + k + 1 == n {
        assert r[i] == ring[n - 1];
      } else {
        assert r[i] == ring[i + k - n];
      }
    }
  }

  /** Allocates n blocks, linked one behind the other. */
  method NewChain(n: nat) returns (first: Block, last: Block, ghost blocks: seq<Block>)
    requires n > 0
    ensures Chain(blocks) && |blocks| == n && first == blocks[0] && last == blocks[n - 1]
    ensures forall b :: b in blocks ==> fresh(b)
  {
    first := new Block();
    last := first;
    blocks := [first];
    for i := 1 to n
      invariant Chain(blocks) && |blocks| == i && first == blocks[0] && last == blocks[i - 1]
      invariant forall b :: b in blocks ==> fresh(b)
    {
      var b := new Block();
      assert last in blocks;
      last.next := b;
      last := b;
      blocks := blocks + [b];
    }
  }

  /** The block a number of steps behind the given one. */
  method Forward(from: Block, steps: int, ghost ring: seq<Block>) returns (b: Block)
    requires Cycle(ring) && from == ring[0] && 0 <= steps < |ring|
    ensures b == ring[steps]
  {
    b := from;
    for i := 0 to steps
      invariant b == ring[i]
    {
      assert ring[i].next == ring[i + 1];
      b := b.next;
    }
  }

  lemma RotateSame(ring: seq<Block>, k: nat)
    requires k <= |ring|
    ensures forall b :: b in Rotate(ring, k) <==> b in ring
  {
    assert ring == ring[..k] + ring[k..];
  }

  lemma RotateHolds(ring: seq<Block>, packets: seq<Packet>, k: nat)
    requires Holds(ring, packets) && k <= |packets|
    ensures Holds(Rotate(ring, k), packets[k..])
  {
  }

  lemma ReadFrom(ring: seq<Block>, packets: seq<Packet>, k: nat)
    requires Cycle(ring) && Holds(ring, packets) && k <= |packets| && k < |ring|
    ensures var r := Rotate(ring, k);
            Cycle(r) && Holds(r, packets[k..]) && |r| == |ring| && forall i :: 0 <= i < |ring| - k ==> r[i] == ring[i + k]
  {
    hide Cycle, Holds, Rotate;
    RotateCycle(ring, k);
    RotateHolds(ring, packets, k);
  }

  /** The number of packets a message of len bytes takes. */
  function PacketCount(len: nat, mss: nat): (n: nat)
    requires mss > 0
  {
    len / mss + if len % mss != 0 then 1 else 0
  }

  lemma {:induction false} CountsFragments(data: seq<byte>, mss: nat, msgNo: MsgNo, order: bool, first: bool)
    requires mss > 0
    ensures |Fragments(data, mss, msgNo, order, first)| == PacketCount(|data|, mss)
    decreases |data|
  {
    hide MessageWord;
    if |data| > mss {
      CountsFragments(data[mss..], mss, msgNo, order, false);
      DivLess(|data|, mss);
    } else if data != [] {
      DivSmall(|data|, mss);
    }
  }

  /** The slice of the bytes that packet i carries. */
  function Slice(data: seq<byte>, start: int, mss: nat): seq<byte>
    requires 0 <= start <= |data|
  {
    if |data| - start > mss then data[start..start + mss] else data[start..]
  }

  /** Packet i of a message, which starts at byte i * mss: its flags by position, and its slice of the bytes. */
  lemma {:induction false} FragmentAt(data: seq<byte>, mss: nat, msgNo: MsgNo, order: bool, first: bool, i: nat, start: int)
    requires mss > 0 && i < |Fragments(data, mss, msgNo, order, first)| && start == i * mss
    ensures var ps := Fragments(data, mss, msgNo, order, first);
            && 0 <= start < |data|
            && ps[i] == Packet(MessageWord(msgNo, order, first && i == 0, i == |ps| - 1), Slice(data, start, mss))
    decreases i
  {
    hide MessageWord;
    if i == 0 {
      FragmentFirst(data, mss, msgNo, order, first);
    } else {
      MulPred(i, mss);
      FragmentNext(data, mss, msgNo, order, first);
      FragmentAt(data[mss..], mss, msgNo, order, false, i - 1, start - mss);
      hide Fragments;
      SliceOfRest(data, start, mss);
    }
  }

  lemma MulPred(i: nat, m: nat)
    requires i > 0
    ensures (i - 1) * m == i * m - m
  {
  }

  lemma FragmentFirst(data: seq<byte>, mss: nat, msgNo: MsgNo, order: bool, first: bool)
    requires mss > 0 && |Fragments(data, mss, msgNo, order, first)| > 0
    ensures var ps := Fragments(data, mss, msgNo, order, first);
            |data| > 0 && ps[0] == Packet(MessageWord(msgNo, order, first, |ps| == 1), Slice(data, 0, mss))
  {
    hide MessageWord;
    if |data| > mss {
      FragmentsSome(data[mss..], mss, msgNo, order, false);
    } else {
      assert data[0..] == data;
    }
  }

  lemma FragmentsSome(data: seq<byte>, mss: nat, msgNo: MsgNo, order: bool, first: bool)
    requires mss > 0 && data != []
    ensures |Fragments(data, mss, msgNo, order, first)| > 0
  {
  }

  lemma FragmentNext(data: seq<byte>, mss: nat, msgNo: MsgNo, order: bool, first: bool)
    requires mss > 0 && |Fragments(data, mss, msgNo, order, first)| > 1
    ensures |data| > mss
    ensures var ps, rest := Fragments(data, mss, msgNo, order, first), Fragments(data[mss..], mss, msgNo, order, false);
            |ps| == |rest| + 1 && forall k :: 0 < k < |ps| ==> ps[k] == rest[k - 1]
  {
    hide MessageWord;
  }

  lemma SliceOfRest(data: seq<byte>, start: int, mss: nat)
    requires mss <= start <= |data|
    ensures Slice(data[mss..], start - mss, mss) == Slice(data, start, mss)
  {
  }

  lemma DivLess(a: nat, m: nat)
    requires m > 0 && a >= m
    ensures a / m == (a - m) / m + 1 && a % m == (a - m) % m
  {
    var q, r := (a - m) / m, (a - m) % m;
    assert a == (q + 1) * m + r;
    DivUnique(a, m, q + 1, r);
  }

  lemma DivSmall(a: nat, m: nat)
    requires m > 0 && 0 < a <= m
    ensures PacketCount(a, m) == 1
  {
    if a == m {
      DivUnique(a, m, 1, 0);
    } else {
      DivUnique(a, m, 0, a);
    }
  }

  lemma DivUnique(a: nat, m: nat, q: int, r: int)
    requires m > 0 && a == q * m + r && 0 <= r < m
    ensures a / m == q && a % m == r
  {
    var q', r' := a / m, a % m;
    assert (q - q') * m == r' - r by {
      assert a == q' * m + r';
      assert (q - q') * m == q * m - q' * m;
    }
    MulApart(q - q', m);
  }

  lemma MulApart(d: int, m: int)
    requires m > 0
    ensures d >= 1 ==> d * m >= m
    ensures d <= -1 ==> d * m <= -m
  {
  }

  class SndBuffer {
    const mss: nat
    const unitSize: nat
    var size: int
    var count: int
    var nextMsgNo: MsgNo
    var firstBlock: Block
    var currBlock: Block
    var lastBlock: Block

    ghost var ring: seq<Block>    // the cycle, read from the first block
    ghost var queue: seq<Packet>  // the queued packets, oldest first
    ghost var sent: nat           // how many of them have been sent for the first time

    ghost predicate Valid()
      reads this, ring
    {
      && mss > 0 && unitSize > 0
      && Cycle(ring) && |ring| == size
      && 0 <= sent <= count < size
      && firstBlock == ring[0] && currBlock == ring[sent] && lastBlock == ring[count]
      && |queue| == count && Holds(ring, queue)
    }

    ghost function Repr(): set<object>
      reads this
    {
      {this} + set b: Block | b in ring :: b as object
    }

    constructor (size: nat, mss: nat)
      requires size > 0 && mss > 0
      ensures Valid() && queue == [] && sent == 0 && this.mss == mss && nextMsgNo == 1
      ensures fresh(Repr()) && forall k :: 0 <= k < |ring| ==> fresh(ring[k])
    {
      var first, last, blocks := NewChain(size);
      assert last in blocks;
      assert forall k :: 0 <= k < |blocks| ==> blocks[k] in blocks;
      last.next := first;
      this.mss := mss;
      unitSize := size;
      this.size := size;
      count := 0;
      nextMsgNo := 1;
      firstBlock := first;
      currBlock := first;
      lastBlock := first;
      ring := blocks;
      queue := [];
      sent := 0;
    }

    /** Splices another unit of empty blocks into the cycle, right behind the last block. */
    method Increase()
      requires Valid()
      modifies this`size, this`ring, lastBlock
      ensures Valid() && size == old(size) + unitSize
      ensures forall b :: b in ring ==> b in old(ring) || fresh(b)
      ensures ring[..count + 1] == old(ring)[..count + 1]
    {
      hide Spliced, Cycle, Holds, Chain;
      var nblk, pb, blocks := NewChain(unitSize);
      assert pb in blocks;
      InsertBlocks(lastBlock, nblk, pb, ring, queue, blocks, count);
      size := size + unitSize;
      ring := Spliced(ring, blocks, count);
    }

    /** The next packet to be sent for the first time, if any. */
    method ReadNext() returns (p: Option)
      requires Valid()
      modifies this`currBlock, this`sent
      ensures Valid()
      ensures old(sent) <= |queue|
      ensures old(sent) == |queue| ==> p == None && sent == old(sent)
      ensures old(sent) < |queue| ==> p == Some(queue[old(sent)]) && sent == old(sent) + 1
    {
      if currBlock == lastBlock {
        return None;
      }
      p := Some(Packet(currBlock.msgNo, currBlock.data));
      assert ring[sent].next == ring[sent + 1];
      currBlock := currBlock.next;
      sent := sent + 1;
    }

    /** The queued packet at an offset from the first block, for a retransmission. */
    method ReadAt(offset: int) returns (p: Packet)
      requires Valid() && 0 <= offset < |queue|
      ensures p == queue[offset]
    {
      var b := Forward(firstBlock, offset, ring);
      p := Packet(b.msgNo, b.data);
    }

    /** Releases the first blocks. */
    method AckData(offset: int)
      requires Valid() && 0 <= offset <= sent
      modifies this`firstBlock, this`count, this`ring, this`queue, this`sent
      ensures Valid() && queue == old(queue)[offset..] && sent == old(sent) - offset
      ensures forall b :: b in ring <==> b in old(ring)
      ensures forall k :: 0 <= k < |ring| ==> ring[k] in old(ring)
    {
      hide Rotate, Cycle, Holds;
      ghost var before := ring;
      firstBlock := Forward(firstBlock, offset, ring);
      count := count - offset;
      ReadFrom(before, queue, offset);
      RotateSame(before, offset);
      assert Rotate(ring, offset)[sent - offset] == ring[sent] && Rotate(ring, offset)[count] == ring[count + offset];
      ring, queue, sent := Rotate(ring, offset), queue[offset..], sent - offset;
    }

    /** Queues a message, cut into packets. */
    method AddBuffer(data: seq<byte>, order: bool)
      requires Valid()
      modifies this, ring
      ensures Valid() && queue == old(queue) + Fragments(data, mss, old(nextMsgNo), order, true)
      ensures sent == old(sent) && nextMsgNo == (if old(nextMsgNo) == 0x1FFF_FFFE then 1 else old(nextMsgNo) + 1)
      ensures forall b :: b in ring ==> b in old(ring) || fresh(b)
    {
      hide Cycle, Holds, Fragments, MessageWord, PacketCount;
      var n := PacketCount(|data|, mss);
      while n + count >= size
        invariant Valid() && queue == old(queue) && sent == old(sent) && nextMsgNo == old(nextMsgNo)
        invariant forall b :: b in ring ==> b in old(ring) || fresh(b)
        decreases n + count - size
      {
        assert lastBlock in ring;
        Increase();
      }
      assert forall i :: 0 <= i < |ring| ==> ring[i] in ring;
      WriteMessage(data, n, order);
    }

    /** Fills the blocks from the last one on with the packets of a message. */
    method WriteMessage(data: seq<byte>, n: nat, order: bool)
      requires Valid() && n == PacketCount(|data|, mss) && n + count < size
      modifies this`lastBlock, this`count, this`queue, this`nextMsgNo, ring
      ensures Valid() && queue == old(queue) + Fragments(data, mss, old(nextMsgNo), order, true)
      ensures sent == old(sent) && nextMsgNo == (if old(nextMsgNo) == 0x1FFF_FFFE then 1 else old(nextMsgNo) + 1)
    {
      hide Fragments, PacketCount, MessageWord, Cycle, Holds;
      ghost var ps := Fragments(data, mss, nextMsgNo, order, true);
      CountsFragments(data, mss, nextMsgNo, order, true);
      lastBlock := WriteBlocks(lastBlock, data, mss, nextMsgNo, order, n, ring, queue);
      count := count + n;
      nextMsgNo := NextMsgNo(nextMsgNo);
      queue := queue + ps;
    }

    method GetCurrBufSize() returns (n: int)
      requires Valid()
      ensures n == |queue|
    {
      n := count;
    }
  }

  datatype Option = None | Some(value: Packet)

  function Spliced<T>(before: seq<T>, blocks: seq<T>, k: int): (ring: seq<T>)
    requires 0 <= k < |before|
    ensures |ring| == |before| + |blocks|
    ensures forall i :: 0 <= i < |ring| ==> ring[i] == if i <= k then before[i] else if i <= k + |blocks| then blocks[i - k - 1] else before[i - |blocks|]
  {
    before[..k + 1] + blocks + before[k + 1..]
  }

  lemma SplicedSame(ring: seq<Block>, packets: seq<Packet>, blocks: seq<Block>, k: int)
    requires 0 <= k < |ring| && |packets| <= k && Holds(ring, packets)
    ensures var r := Spliced(ring, blocks, k);
            && Holds(r, packets) && |r| == |ring| + |blocks|
            && (forall i :: 0 <= i <= k ==> r[i] == ring[i])
            && (forall b :: b in r ==> b in ring || b in blocks)
  {
  }

  lemma HoldsOneMore(ring: seq<Block>, packets: seq<Packet>, p: Packet)
    requires |packets| < |ring| && p == Packet(ring[|packets|].msgNo, ring[|packets|].data)
    requires forall k :: 0 <= k < |packets| ==> packets[k] == Packet(ring[k].msgNo, ring[k].data)
    ensures Holds(ring, packets + [p])
  {
  }

  /** Writes packet i of the n packets of a message into a block. */
  method FillBlock(s: Block, data: seq<byte>, mss: nat, msgNo: MsgNo, order: bool, i: nat, n: nat)
    requires mss > 0 && i < n == |Fragments(data, mss, msgNo, order, true)|
    modifies s`data, s`msgNo
    ensures Packet(s.msgNo, s.data) == Fragments(data, mss, msgNo, order, true)[i]
  {
    hide Fragments, MessageWord;
    var start := i * mss;
    FragmentAt(data, mss, msgNo, order, true, i, start);
    var pktlen := |data| - start;
    if pktlen > mss {
      pktlen := mss;
    }
    s.data := data[start..start + pktlen];
    s.msgNo := MessageWord(msgNo, order, i == 0, i == n - 1);
  }

  /** Writes the n packets of a message into the blocks that follow the given packets of the cycle. */
  method WriteBlocks(start: Block, data: seq<byte>, mss: nat, msgNo: MsgNo, order: bool, n: nat, ghost ring: seq<Block>, ghost packets: seq<Packet>)
    returns (s: Block)
    requires mss > 0 && n == |Fragments(data, mss, msgNo, order, true)|
    requires Cycle(ring) && Holds(ring, packets) && |packets| + n < |ring| && start == ring[|packets|]
    modifies ring
    ensures Cycle(ring) && Holds(ring, packets + Fragments(data, mss, msgNo, order, true)) && s == ring[|packets| + n]
  {
    hide Fragments, MessageWord;
    ghost var ps := Fragments(data, mss, msgNo, order, true);
    s := start;
    assert packets + ps[..0] == packets;
    for i := 0 to n
      invariant s == ring[|packets| + i]
      invariant Cycle(ring) && Holds(ring, packets + ps[..i])
    {
      ghost var held := packets + ps[..i];
      assert s in ring;
      FillBlock(s, data, mss, msgNo, order, i, n);
      assert packets + ps[..i + 1] == held + [ps[i]];
      HoldsOneMore(ring, held, ps[i]);
      assert ring[|packets| + i].next == ring[|packets| + i + 1];
      s := s.next;
    }
    assert ps[..n] == ps;
  }

  lemma SplicedDistinct(ring: seq<Block>, blocks: seq<Block>, k: int)
    requires Cycle(ring) && Chain(blocks) && 0 <= k < |ring| && forall b :: b in blocks ==> b !in ring
    ensures var r := Spliced(ring, blocks, k);
            && (forall i, j :: 0 <= i < j < |r| ==> r[i] != r[j])
            && (forall i :: 0 <= i < |r| ==> r[i] == if i <= k then ring[i] else if i <= k + |blocks| then blocks[i - k - 1] else ring[i - |blocks|])
  {
    forall i, j | 0 <= i < |ring| && 0 <= j < |blocks|
      ensures ring[i] != blocks[j]
    {
      assert blocks[j] in blocks;
    }
  }

  /** Splices the chain from nblk to pb into the cycle, behind its block number k. */
  method SpliceBehind(last: Block, nblk: Block, pb: Block, ghost ring: seq<Block>, ghost blocks: seq<Block>, ghost k: int)
    requires Cycle(ring) && Chain(blocks) && 0 <= k < |ring| && last == ring[k]
    requires nblk == blocks[0] && pb == blocks[|blocks| - 1]
    requires forall b :: b in blocks ==> b !in ring
    modifies last`next, pb`next
    ensures Cycle(Spliced(ring, blocks, k))
  {
    SplicedDistinct(ring, blocks, k);
    hide Spliced;
    assert last !in blocks && pb !in ring;
    pb.next := last.next;
    last.next := nblk;
    ghost var r := Spliced(ring, blocks, k);
    ghost var m := |blocks|;
    forall i | 0 <= i < |r| - 1
      ensures r[i].next == r[i + 1]
    {
      if i < k {
        assert r[i] == ring[i] && r[i + 1] == ring[i + 1];
      } else if k < i < k + m {
        var j := i - k - 1;
        assert r[i] == blocks[j] && r[i + 1] == blocks[j + 1];
      } else if i > k + m {
        var j := i - m;
        assert r[i] == ring[j] && r[i + 1] == ring[j + 1];
      }
    }
  }

  /** The same; the queued packets stay where they are. */
  method InsertBlocks(last: Block, nblk: Block, pb: Block, ghost ring: seq<Block>, ghost packets: seq<Packet>, ghost blocks: seq<Block>, ghost k: int)
    requires Cycle(ring) && Holds(ring, packets) && Chain(blocks) && |packets| <= k < |ring| && last == ring[k]
    requires blocks != [] && nblk == blocks[0] && pb == blocks[|blocks| - 1]
    requires forall b :: b in blocks ==> b !in ring
    modifies last`next, pb`next
    ensures Cycle(Spliced(ring, blocks, k)) && Holds(Spliced(ring, blocks, k), packets)
    ensures Spliced(ring, blocks, k)[..k + 1] == ring[..k + 1]
    ensures forall b :: b in Spliced(ring, blocks, k) ==> b in ring || b in blocks
  {
    hide Cycle, Chain, Spliced;
    SpliceBehind(last, nblk, pb, ring, blocks, k);
    SplicedSame(ring, packets, blocks, k);
  }
}
