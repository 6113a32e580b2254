/** Data packets: the message word of their header (packet.cpp), and how a message is cut into packets and put
    together again (buffer.cpp, CSndBuffer::addBuffer). */
module Packets {

  newtype byte = x: int | 0 <= x < 256

  /** A header word, as an unsigned number. */
  type Word = n: nat | n < 0x1_0000_0000

  const MAX_MSG_NO: nat := 0x1FFF_FFFF

  /** A message number.  They run from 1, and start again before the largest one that 29 bits hold. */
  type MsgNo = n: nat | 0 < n < MAX_MSG_NO witness 1

  /** The second header word and the payload of a data packet. */
  datatype Packet = Packet(msgNo: Word, data: seq<byte>)

  const FIRST_BIT: nat := 0x8000_0000
  const LAST_BIT: nat := 0x4000_0000
  const ORDER_BIT: nat := 0x2000_0000

  /** The header word addBuffer builds for one packet of a message.  A message number leaves the three flag bits alone, so
      setting them is adding them. */
  function MessageWord(msgNo: MsgNo, order: bool, first: bool, last: bool): Word {
    var w := msgNo + (if order then ORDER_BIT else 0);
    var w1 := if first then w + FIRST_BIT else w;
    if last then w1 + LAST_BIT else w1
  }

  function NextMsgNo(msgNo: MsgNo): MsgNo {
    if msgNo + 1 == MAX_MSG_NO then 1 else msgNo + 1
  }

  /** The top two bits.  3: solo, 2: first, 1: last, 0: middle packet of a message. */
  function MsgBoundary(word: Word): nat {
    word / 0x4000_0000
  }

  /** The bit below them. */
  function MsgOrderFlag(word: Word): bool {
    word / 0x2000_0000 % 2 == 1
  }

  /** The other 29 bits. */
  function MsgSeq(word: Word): nat {
    word % 0x2000_0000
  }

  /** Reading the header word gives back every field that was packed into it. */
  lemma WordRoundTrip(msgNo: MsgNo, order: bool, first: bool, last: bool)
    ensures var w := MessageWord(msgNo, order, first, last);
            && MsgSeq(w) == msgNo
            && MsgOrderFlag(w) == order
            && MsgBoundary(w) == (if first then 2 else 0) + (if last then 1 else 0)
  {
  }

  /** Where the fields are in the word: two bits, one bit and 29 bits, from the top. */
  lemma WordFields(word: Word)
    ensures word == MsgBoundary(word) * 0x4000_0000 + (if MsgOrderFlag(word) then 0x2000_0000 else 0) + MsgSeq(word)
    ensures MsgBoundary(word) < 4 && MsgSeq(word) < 0x2000_0000
  {
  }

  predicate IsFirst(p: Packet) {
    MsgBoundary(p.msgNo) == 2 || MsgBoundary(p.msgNo) == 3
  }

  predicate IsLast(p: Packet) {
    MsgBoundary(p.msgNo) == 1 || MsgBoundary(p.msgNo) == 3
  }

  /** getMsgBoundary() > 1 is how the buffer asks whether a packet starts a message. */
  lemma BoundaryRange(word: Word)
    ensures MsgBoundary(word) > 1 <==> MsgBoundary(word) == 2 || MsgBoundary(word) == 3
  {
  }

  predicate InOrder(p: Packet) {
    MsgOrderFlag(p.msgNo)
  }

  /** The packets of (the rest of) a message; first: nothing of it has been cut off yet. */
  function Fragments(data: seq<byte>, mss: nat, msgNo: MsgNo, order: bool, first: bool): (r: seq<Packet>)
    requires mss > 0
    decreases |data|
  {
    if data == [] then []
    else if |data| <= mss then [Packet(MessageWord(msgNo, order, first, true), data)]
    else [Packet(MessageWord(msgNo, order, first, false), data[..mss])] + Fragments(data[mss..], mss, msgNo, order, false)
  }

  /** The bytes of a run of packets. */
  function Payload(ps: seq<Packet>): seq<byte> {
    if ps == [] then [] else ps[0].data + Payload(ps[1..])
  }

  /** A run of packets that is exactly one message: the first packet, and only it, opens the message; the last packet,
      and only it, closes it. */
  ghost predicate OneMessage(ps: seq<Packet>) {
    && ps != []
    && (forall k :: 0 <= k < |ps| ==> (IsFirst(ps[k]) <==> k == 0))
    && (forall k :: 0 <= k < |ps| ==> (IsLast(ps[k]) <==> k == |ps| - 1))
  }

  lemma WordFlags(msgNo: MsgNo, order: bool, first: bool, last: bool, data: seq<byte>)
    ensures var p := Packet(MessageWord(msgNo, order, first, last), data);
            (IsFirst(p) <==> first) && (IsLast(p) <==> last) && (InOrder(p) <==> order) && MsgSeq(p.msgNo) == msgNo
  {
    WordRoundTrip(msgNo, order, first, last);
  }

  /** Cutting a message into packets loses no byte. */
  lemma {:induction false} FragmentsPayload(data: seq<byte>, mss: nat, msgNo: MsgNo, order: bool, first: bool)
    requires mss > 0
    ensures Payload(Fragments(data, mss, msgNo, order, first)) == data
    decreases |data|
  {
    hide MessageWord;
    var ps := Fragments(data, mss, msgNo, order, first);
    if data == [] {
    } else if |data| <= mss {
      assert ps[1..] == [];
    } else {
      FragmentsPayload(data[mss..], mss, msgNo, order, false);
      assert ps[1..] == Fragments(data[mss..], mss, msgNo, order, false);
      assert data == data[..mss] + data[mss..];
    }
  }

  /** The flags delimit the message, the order flag and the message's number are on every packet, every packet carries
      something and every packet but the last is full. */
  lemma {:induction false} FragmentsShape(data: seq<byte>, mss: nat, msgNo: MsgNo, order: bool, first: bool)
    requires mss > 0
    ensures var ps := Fragments(data, mss, msgNo, order, first);
            && (data != [] ==> ps != [])
            && forall k :: 0 <= k < |ps| ==>
                 && 0 < |ps[k].data| <= mss && (k < |ps| - 1 ==> |ps[k].data| == mss)
                 && (IsFirst(ps[k]) <==> first && k == 0)
                 && (IsLast(ps[k]) <==> k == |ps| - 1)
                 && (InOrder(ps[k]) <==> order) && MsgSeq(ps[k].msgNo) == msgNo
    decreases |data|
  {
    hide IsFirst, IsLast, InOrder, MsgSeq, MessageWord;
    var ps := Fragments(data, mss, msgNo, order, first);
    if data == [] {
    } else if |data| <= mss {
      WordFlags(msgNo, order, first, true, data);
    } else {
      WordFlags(msgNo, order, first, false, data[..mss]);
      var rest := Fragments(data[mss..], mss, msgNo, order, false);
      FragmentsShape(data[mss..], mss, msgNo, order, false);
      assert ps == [Packet(MessageWord(msgNo, order, first, false), data[..mss])] + rest;
    }
  }

  /** A message of at least one byte becomes exactly one message on the receiving side. */
  lemma FragmentsOneMessage(data: seq<byte>, mss: nat, msgNo: MsgNo, order: bool)
    requires mss > 0 && data != []
    ensures OneMessage(Fragments(data, mss, msgNo, order, true))
    ensures Payload(Fragments(data, mss, msgNo, order, true)) == data
  {
    FragmentsShape(data, mss, msgNo, order, true);
    FragmentsPayload(data, mss, msgNo, order, true);
    hide IsFirst, IsLast;
  }

  lemma PayloadStep(ps: seq<Packet>)
    requires ps != []
    ensures Payload(ps) == ps[0].data + Payload(ps[1..])
  {
  }

  lemma Regroup(x: seq<byte>, y: seq<byte>, z: seq<byte>)
    ensures x + (y + z) == x + y + z
  {
  }

  lemma {:induction false} PayloadConcat(a: seq<Packet>, b: seq<Packet>)
    ensures Payload(a + b) == Payload(a) + Payload(b)
  {
    if a == [] {
      assert a + b == b;
    } else {
      hide Payload;
      assert (a + b)[1..] == a[1..] + b;
      PayloadConcat(a[1..], b);
      PayloadStep(a);
      PayloadStep(a + b);
      assert (a + b)[0] == a[0];
      Regroup(a[0].data, Payload(a[1..]), Payload(b));
    }
  }
}
