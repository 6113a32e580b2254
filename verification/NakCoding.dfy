/** The loss-list field of a NAK packet (packet.cpp, "Loss List Field Coding").

    A range of lost numbers takes two words, the first of them with its top bit set; a single number takes one.
    Words are 32-bit signed integers, so a set top bit means a negative word. */
module NakCoding {
  import opened SeqNo
  import opened LossChain

  const MARK: int := 0x8000_0000

  /** The word s | 0x80000000, as a signed integer. */
  function Marked(s: int): (w: int)
    requires IsSeqNo(s)
    ensures w < 0
  {
    s - MARK
  }

  /** w & 0x7FFFFFFF, for a marked word. */
  function Unmarked(w: int): int {
    w + MARK
  }

  function EncodeNode(n: Node): (words: seq<int>)
    ensures 1 <= |words| <= 2
  {
    if n.lo == n.hi then [Wrap(n.lo)] else [Marked(Wrap(n.lo)), Wrap(n.hi)]
  }

  /** The words as the 32 bits that are sent: the first number, with the top bit set exactly if a second one follows. */
  lemma WordsAsBits(n: Node)
    ensures var words := EncodeNode(n);
            && |words| == (if n.lo == n.hi then 1 else 2) && (forall k :: 0 <= k < |words| ==> -0x8000_0000 <= words[k] < 0x8000_0000)
            && words[0] % 0x1_0000_0000 == Wrap(n.lo) + (if n.lo == n.hi then 0 else 0x8000_0000)
            && words[|words| - 1] % 0x8000_0000 == Wrap(n.hi)
  {
  }

  function Encode(nodes: seq<Node>): (words: seq<int>)
    ensures |nodes| <= |words| <= 2 * |nodes|
  {
    if nodes == [] then [] else EncodeNode(nodes[0]) + Encode(nodes[1..])
  }

  /** The ranges a receiver of the words reads: `losslist[i] & 0x80000000` tells whether a second word follows. */
  function Decode(words: seq<int>): seq<(int, int)>
    decreases |words|
  {
    if words == [] then []
    else if words[0] < 0 && |words| >= 2 then [(Unmarked(words[0]), words[1])] + Decode(words[2..])
    else [(words[0], words[0])] + Decode(words[1..])
  }

  function Numbers(nodes: seq<Node>): (r: seq<(int, int)>)
    ensures |r| == |nodes|
  {
    seq(|nodes|, k requires 0 <= k < |nodes| => (Wrap(nodes[k].lo), Wrap(nodes[k].hi)))
  }

  /** Decoding gives back exactly the ranges that were encoded, one for one and in order. */
  lemma {:induction false} DecodeEncode(nodes: seq<Node>)
    ensures Decode(Encode(nodes)) == Numbers(nodes)
  {
    hide Wrap;
    if nodes == [] {
    } else {
      DecodeEncode(nodes[1..]);
      var n, rest := nodes[0], Encode(nodes[1..]);
      var words := Encode(nodes);
      assert words == EncodeNode(n) + rest;
      if n.lo == n.hi {
        assert words[1..] == rest;
      } else {
        assert words[2..] == rest;
      }
      assert Numbers(nodes) == [(Wrap(n.lo), Wrap(n.hi))] + Numbers(nodes[1..]);
    }
  }

  lemma {:induction false} EncodeAppend(nodes: seq<Node>, k: int)
    requires 0 <= k < |nodes|
    ensures Encode(nodes[..k + 1]) == Encode(nodes[..k]) + EncodeNode(nodes[k])
    decreases k
  {
    hide Wrap;
    if k == 0 {
      assert nodes[..1] == [nodes[0]];
      assert [nodes[0]][1..] == [];
    } else {
      EncodeAppend(nodes[1..], k - 1);
      assert nodes[..k + 1][1..] == nodes[1..][..k];
      assert nodes[..k][1..] == nodes[1..][..k - 1];
    }
  }

  /** Reading one range off the front. */
  lemma EncodeStep(nodes: seq<Node>, words: seq<int>)
    requires words == Encode(nodes) && words != []
    ensures nodes != []
    ensures words[0] < 0 ==>
              && |words| >= 2 && nodes[0].lo != nodes[0].hi && Unmarked(words[0]) == Wrap(nodes[0].lo) && words[1] == Wrap(nodes[0].hi)
              && words[2..] == Encode(nodes[1..])
    ensures words[0] >= 0 ==> nodes[0].lo == nodes[0].hi && words[0] == Wrap(nodes[0].lo) && words[1..] == Encode(nodes[1..])
  {
    hide Wrap;
  }

  lemma EncodeNone(nodes: seq<Node>)
    requires Encode(nodes) == []
    ensures nodes == []
  {
  }
}
