/** The packet stream of a sequence of messages, all sent in order. */
module Streams {
  import opened Packets
  import opened Delivery

  /** The number of message i. */
  function MsgNoOf(i: nat): MsgNo {
    if i == 0 then 1 else NextMsgNo(MsgNoOf(i - 1))
  }

  function StreamOf(msgs: seq<seq<byte>>, mss: nat): seq<Packet>
    requires mss > 0
  {
    if msgs == [] then []
    else
      var m := |msgs| - 1;
      StreamOf(msgs[..m], mss) + Fragments(msgs[m], mss, MsgNoOf(m), true, true)
  }

  ghost predicate NoneEmpty(msgs: seq<seq<byte>>) {
    forall i :: 0 <= i < |msgs| ==> msgs[i] != []
  }

  /** Every packet carries something. */
  ghost predicate Carrying(stream: seq<Packet>) {
    forall i :: 0 <= i < |stream| ==> stream[i].data != []
  }

  /** Message i has number i+1, from 1 to the largest but two of 29 bits and round again. */
  lemma {:induction false} NumberOf(i: nat)
    ensures MsgNoOf(i) == i % (0x1FFF_FFFF - 1) + 1
  {
    if i > 0 {
      NumberOf(i - 1);
    }
  }

  /** The stream is made of whole messages, every packet is marked as to be delivered in order, and it never stops in the
      middle of a message. */
  lemma {:induction false} StreamShape(msgs: seq<seq<byte>>, mss: nat)
    requires mss > 0 && NoneEmpty(msgs)
    ensures var s := StreamOf(msgs, mss);
            && WellFormed(s) && (forall i :: 0 <= i < |s| ==> InOrder(s[i])) && (s != [] ==> IsLast(s[|s| - 1]))
            && |s| >= |msgs| && Carrying(s)
  {
    hide IsFirst, IsLast, InOrder, Fragments, MsgNoOf;
    if msgs != [] {
      var m := |msgs| - 1;
      var before, f := StreamOf(msgs[..m], mss), Fragments(msgs[m], mss, MsgNoOf(m), true, true);
      StreamShape(msgs[..m], mss);
      FragmentsShape(msgs[m], mss, MsgNoOf(m), true, true);
      assert StreamOf(msgs, mss) == before + f;
    }
  }

  /** A longer sequence of messages has a longer stream. */
  lemma {:induction false} StreamPrefix(msgs: seq<seq<byte>>, mss: nat, d: nat)
    requires mss > 0 && d < |msgs|
    ensures StreamOf(msgs[..d + 1], mss) == StreamOf(msgs[..d], mss) + Fragments(msgs[d], mss, MsgNoOf(d), true, true)
    ensures StreamOf(msgs[..d + 1], mss) <= StreamOf(msgs, mss)
    decreases |msgs|
  {
    hide Fragments, MsgNoOf;
    assert msgs[..d + 1][..d] == msgs[..d];
    if d + 1 == |msgs| {
      assert msgs[..d + 1] == msgs;
    } else {
      var m := |msgs| - 1;
      StreamPrefix(msgs[..m], mss, d);
      assert msgs[..m][..d + 1] == msgs[..d + 1];
    }
  }

  /** Every packet of message d carries the message's number. */
  lemma PacketNumber(msgs: seq<seq<byte>>, mss: nat, d: nat, k: nat)
    requires mss > 0 && d < |msgs| && |StreamOf(msgs[..d], mss)| <= k < |StreamOf(msgs[..d + 1], mss)|
    ensures k < |StreamOf(msgs, mss)| && MsgSeq(StreamOf(msgs, mss)[k].msgNo) == d % (0x1FFF_FFFF - 1) + 1
  {
    hide StreamOf, Fragments, MsgNoOf, MsgSeq;
    StreamPrefix(msgs, mss, d);
    NumberOf(d);
    FragmentsShape(msgs[d], mss, MsgNoOf(d), true, true);
    assert StreamOf(msgs, mss)[k] == StreamOf(msgs[..d + 1], mss)[k];
  }

  /** So packets of two messages that are fewer than 2^29-2 messages apart carry different numbers. */
  lemma NumbersDiffer(msgs: seq<seq<byte>>, mss: nat, d: nat, k: nat, d1: nat, k1: nat)
    requires mss > 0 && d < d1 < |msgs| && d1 - d < 0x1FFF_FFFF - 1
    requires |StreamOf(msgs[..d], mss)| <= k < |StreamOf(msgs[..d + 1], mss)|
    requires |StreamOf(msgs[..d1], mss)| <= k1 < |StreamOf(msgs[..d1 + 1], mss)|
    ensures k < |StreamOf(msgs, mss)| && k1 < |StreamOf(msgs, mss)|
    ensures MsgSeq(StreamOf(msgs, mss)[k].msgNo) != MsgSeq(StreamOf(msgs, mss)[k1].msgNo)
  {
    hide StreamOf, MsgSeq;
    PacketNumber(msgs, mss, d, k);
    PacketNumber(msgs, mss, d1, k1);
  }

  /** The message that starts where the first d messages end is message d. */
  lemma MessageAt(msgs: seq<seq<byte>>, mss: nat, d: nat, q: nat)
    requires mss > 0 && NoneEmpty(msgs) && d <= |msgs|
    requires var base := |StreamOf(msgs[..d], mss)|; WholeMessage(StreamOf(msgs, mss), base, base + q)
    ensures var base := |StreamOf(msgs[..d], mss)|;
            && d < |msgs| && base + q + 1 == |StreamOf(msgs[..d + 1], mss)|
            && Payload(StreamOf(msgs, mss)[base..base + q + 1]) == msgs[d]
  {
    hide StreamOf, IsFirst, IsLast, InOrder, Fragments, MsgNoOf, Payload;
    assert msgs[..|msgs|] == msgs;
    var s := StreamOf(msgs, mss);
    var base := |StreamOf(msgs[..d], mss)|;
    StreamPrefix(msgs, mss, d);
    var f := Fragments(msgs[d], mss, MsgNoOf(d), true, true);
    FragmentsShape(msgs[d], mss, MsgNoOf(d), true, true);
    FragmentsPayload(msgs[d], mss, MsgNoOf(d), true, true);
    forall k | 0 <= k < |f|
      ensures s[base + k] == f[k] && (IsLast(s[base + k]) <==> k == |f| - 1)
    {
      assert StreamOf(msgs[..d + 1], mss)[base + k] == f[k];
    }
    assert IsLast(s[base + (|f| - 1)]) && IsLast(s[base + q]);
    assert q == |f| - 1;
    assert s[base..base + q + 1] == f;
  }
}
