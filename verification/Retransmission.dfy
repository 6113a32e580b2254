/** How lost packets are sent again: what goes onto the wire in which order, and what a NAK, a timeout and an
    acknowledgement have to do with it. */
module Retransmissions {
  import opened SeqNo
  import opened LossChain
  import opened Packets
  import opened RcvRing
  import Delivery
  import Streams
  import opened Protocol
  import opened Networks
  import Effects

  // ----- packing

  /** Packet x of the sender's stream. */
  function Copy(s: Sender, x: nat): Msg
    requires s.isn <= x < s.isn + |s.stream|
  {
    Data(x, s.stream[x - s.isn])
  }

  /** Loss retransmission has the highest priority: while anything is lost, whatever the congestion window, the sender's turn
      puts the first lost packet on the wire and nothing else, and does nothing else. */
  lemma LostGoesFirst(n: Net, cwnd: int)
    requires Inv(n) && n.s.loss != {}
    ensures SenderOk(n.s) && ReceiverOk(n.r)
    ensures var (x, n1) := (Least(n.s.loss), Next(n, Pack(cwnd)));
            && x >= n.s.isn && x - n.s.isn < |n.s.stream| && Inv(n1)
            && n1 == n.(s := n.s.(loss := n.s.loss - {x}), wire := n.wire + {Copy(n.s, x)})
  {
    hide Inv;
    BothOk(n);
    StepKeeps(n, Pack(cwnd));
    Effects.LostFirst(n.s, cwnd);
  }

  /** With nothing lost, it puts the next new packet on the wire if there is one and both windows have room, and nothing
      otherwise. */
  lemma NewGoesNext(n: Net, cwnd: int)
    requires Inv(n) && n.s.loss == {}
    ensures SenderOk(n.s) && ReceiverOk(n.r)
    ensures var n1 := Next(n, Pack(cwnd));
            if n.s.sent < n.s.lastAck + n.s.window && n.s.sent < n.s.lastAck + cwnd && n.s.sent < n.s.isn + |n.s.stream| then
              n1 == n.(s := n.s.(sent := n.s.sent + 1), wire := n.wire + {Copy(n.s, n.s.sent)})
            else n1 == n
  {
    hide Inv;
    BothOk(n);
    Effects.NewNext(n.s, cwnd);
  }

  /** The sender's turns, with these congestion windows. */
  function Turns(cwnds: seq<int>): (acts: seq<Act>)
    ensures |acts| == |cwnds|
  {
    seq(|cwnds|, i requires 0 <= i < |cwnds| => Pack(cwnds[i]))
  }

  /** m is a copy of a packet that was lost. */
  ghost predicate CopyOfLost(n: Net, m: Msg) {
    m.Data? && m.x in n.s.loss && n.s.isn <= m.x < n.s.isn + |n.s.stream| && m == Copy(n.s, m.x)
  }

  lemma FirstTurn(cwnds: seq<int>)
    requires cwnds != []
    ensures Turns(cwnds)[0] == Pack(cwnds[0]) && Turns(cwnds)[1..] == Turns(cwnds[1..])
  {
  }

  /** As many turns as packets are lost, whatever the congestion windows: exactly the lost packets go onto the wire, and
      nothing is lost then. */
  lemma {:induction false} Drains(n: Net, cwnds: seq<int>)
    requires Inv(n) && |cwnds| == |n.s.loss|
    ensures var n1 := Run(n, Turns(cwnds));
            && n1 == n.(s := n.s.(loss := {}), wire := n1.wire)
            && forall m :: m in n1.wire <==> m in n.wire || CopyOfLost(n, m)
    decreases |cwnds|
  {
    hide Inv, Next, SenderOk, ReceiverOk;
    if cwnds == [] {
      RunNone(n);
    } else {
      LostGoesFirst(n, cwnds[0]);
      FirstTurn(cwnds);
      RunOne(n, Turns(cwnds));
      var x := Least(n.s.loss);
      var na := Next(n, Pack(cwnds[0]));
      assert |n.s.loss - {x}| == |n.s.loss| - 1;
      Drains(na, cwnds[1..]);
      forall m
        ensures m in na.wire || CopyOfLost(na, m) <==> m in n.wire || CopyOfLost(n, m)
      {
        assert m == Copy(n.s, x) ==> CopyOfLost(n, m);
      }
    }
  }

  // ----- what is asked for

  lemma SoundOf(n: Net, m: Msg)
    requires Inv(n) && m in n.wire
    ensures Sound(n, m)
  {
    hide Sound;
  }

  /** A NAK that arrives makes exactly the packets it names lost that have not been acknowledged, and does nothing else. */
  lemma NakIsHeard(n: Net, lo: nat, hi: nat)
    requires var m := Control(LossReport(lo, hi)); Inv(n) && m in n.wire && Fresh(n, m)
    ensures SenderOk(n.s) && ReceiverOk(n.r)
    ensures var n1 := Next(n, Deliver(Control(LossReport(lo, hi))));
            && Inv(n1) && n1 == n.(s := n.s.(loss := n1.s.loss))
            && forall x :: x in n1.s.loss <==> x in n.s.loss || (lo <= x <= hi && x >= n.s.lastAck)
  {
    var m := Control(LossReport(lo, hi));
    hide Inv, OnNak, SenderOk, ReceiverOk, Grows;
    SoundOf(n, m);
    StepKeeps(n, Deliver(m));
    Cursors(n);
    Cursors(Next(n, Deliver(m)));
    var nodes := [Node(lo, hi)];
    Effects.NakMeans(n.s, nodes);
    assert Effects.WereSent(n.s, nodes[0]);
    assert Effects.Leading(n.s, nodes) == 1;
    assert forall x :: Effects.Asks(n.s, nodes[0], x) <==> lo <= x <= hi && x >= n.s.lastAck;
  }

  /** A timeout makes everything lost that has been sent and not acknowledged, if nothing is, and does nothing else. */
  lemma TimeoutIsHeard(n: Net)
    requires Inv(n)
    ensures SenderOk(n.s) && ReceiverOk(n.r)
    ensures var n1 := Next(n, Timeout);
            && Inv(n1) && n1 == n.(s := n.s.(loss := n1.s.loss))
            && forall x :: x in n1.s.loss <==> x in n.s.loss || (n.s.loss == {} && n.s.lastAck <= x < n.s.sent)
  {
    hide Inv;
    BothOk(n);
    StepKeeps(n, Timeout);
    Effects.TimeoutMeans(n.s);
  }

  /** A packet that is wanted and leaves a gap behind it when it arrives has the whole gap reported, and only that. */
  lemma GapIsReported(n: Net, x: nat, p: Packet)
    requires Inv(n) && Data(x, p) in n.wire && Fresh(n, Data(x, p))
    ensures SenderOk(n.s) && ReceiverOk(n.r)
    ensures var n1 := Next(n, Deliver(Data(x, p)));
            && Inv(n1) && n1.s == n.s && n1.r.next == (if Effects.Wanted(n.r, x) then MaxOf(n.r.next, x + 1) else n.r.next)
            && n1.wire == n.wire + if Effects.Wanted(n.r, x) && n.r.next < x then {Control(LossReport(n.r.next, x - 1))} else {}
  {
    hide Inv;
    BothOk(n);
    StepKeeps(n, Deliver(Data(x, p)));
    hide OnData;
    Effects.DataMeans(n.r, x, p);
  }

  lemma Silent(n: Net)
    requires Inv(n)
    ensures Inv(n.(wire := {}))
  {
    hide Delivery.AllThere, Streams.StreamOf, Take;
  }

  lemma SenderBounds(n: Net)
    requires Inv(n)
    ensures n.s.isn <= n.s.dataAck && n.s.sent <= n.s.isn + |n.s.stream| && forall c :: c in n.s.loss ==> n.s.isn <= c < n.s.isn + |n.s.stream|
  {
  }

  lemma DrainedIsOnWire(n: Net, cwnds: seq<int>)
    requires Inv(n) && n.wire == {} && |cwnds| == |n.s.loss|
    ensures forall x: nat :: OnWire(Run(n, Turns(cwnds)), x) <==> x in n.s.loss
  {
    hide Inv;
    SenderBounds(n);
    Drains(n, cwnds);
    var n1 := Run(n, Turns(cwnds));
    forall x: nat
      ensures OnWire(n1, x) <==> x in n.s.loss
    {
      if x in n.s.loss {
        assert CopyOfLost(n, Copy(n.s, x));
      }
      if OnWire(n1, x) {
        var p :| Data(x, p) in n1.wire;
        assert CopyOfLost(n, Data(x, p));
      }
    }
  }

  /** So after a NAK, with everything else on its way lost, exactly the packets that were lost before or that it names, and
      that have not been acknowledged, go out again in the sender's next turns. */
  lemma NakIsAnswered(n: Net, lo: nat, hi: nat, cwnds: seq<int>)
    requires var m := Control(LossReport(lo, hi)); Inv(n) && m in n.wire && Fresh(n, m)
    requires SenderOk(n.s) && ReceiverOk(n.r) && |cwnds| == |Next(n, Deliver(Control(LossReport(lo, hi)))).s.loss|
    ensures var n1 := Next(n, Deliver(Control(LossReport(lo, hi)))).(wire := {});
            && Inv(n1)
            && forall x: nat :: OnWire(Run(n1, Turns(cwnds)), x) <==> x in n.s.loss || (lo <= x <= hi && x >= n.s.lastAck)
  {
    hide Inv, Next;
    NakIsHeard(n, lo, hi);
    var n1 := Next(n, Deliver(Control(LossReport(lo, hi))));
    Silent(n1);
    DrainedIsOnWire(n1.(wire := {}), cwnds);
  }

  /** And so a gap is closed without waiting for a timeout: when a packet comes that leaves one, the report of it arrives,
      and the sender has had its turns, every packet of the gap is on the wire again, whatever else is lost. */
  lemma GapIsClosed(n: Net, x: nat, p: Packet, cwnds: seq<int>)
    requires Inv(n) && Data(x, p) in n.wire && Fresh(n, Data(x, p)) && MaxWindow(n) < THRESHOLD
    requires Effects.Wanted(n.r, x) && n.r.next < x && SenderOk(n.s) && ReceiverOk(n.r)
    requires var na := Next(n, Deliver(Data(x, p)));
             SenderOk(na.s) && ReceiverOk(na.r) && |cwnds| == |Next(na, Deliver(Control(LossReport(n.r.next, x - 1)))).s.loss|
    ensures var na := Next(n, Deliver(Data(x, p)));
            var n1 := Next(na, Deliver(Control(LossReport(n.r.next, x - 1)))).(wire := {});
            Inv(n1) && forall y: nat :: n.r.next <= y < x ==> OnWire(Run(n1, Turns(cwnds)), y)
  {
    hide Inv, Next;
    GapIsReported(n, x, p);
    Cursors(n);
    Windows(n);
    var na := Next(n, Deliver(Data(x, p)));
    assert n.s.sent - n.r.next < THRESHOLD by { NextAhead(n); }
    NakIsAnswered(na, n.r.next, x - 1, cwnds);
  }

  lemma NextAhead(n: Net)
    requires Inv(n)
    ensures n.r.lastAck <= n.r.next
  {
  }

  // ----- what is acknowledged

  /** What goes onto the wire when the receiver acknowledges names the first packet it does not have: it has all those in
      front of it.  A full one promises what the ring can hold behind that, or two packets if it is less. */
  lemma AckIsExact(n: Net, light: bool, recent: bool)
    requires Inv(n)
    ensures SenderOk(n.s) && ReceiverOk(n.r)
    ensures forall m :: m in Next(n, SendAck(light, recent)).wire && m !in n.wire ==>
              && m.Control? && (if light then m.report.LightAck? else m.report.FullAck?)
              && var a := if m.report.LightAck? then m.report.b else m.report.a;
                 && !Has(n.r, a) && (forall x :: x < a ==> Has(n.r, x))
                 && (m.report.FullAck? ==> m.report.w == MaxOf(2, n.r.start + |n.r.ring.slots| - 1 - a))
  {
    hide Inv, Has, SeqCmp, Wrap, Effects.FirstMissing, Acknowledge, ReceiverOk, SenderOk, AckPoint;
    BothOk(n);
    var a := AckPoint(n.r);
    Effects.SomeMissing(n.r);
    Effects.AckSays(n.r, light, recent, a);
    FirstMissingIsNotThere(n, a);
  }

  lemma FirstMissingIsNotThere(n: Net, a: nat)
    requires Inv(n) && ReceiverOk(n.r) && a == AckPoint(n.r)
    ensures !Has(n.r, a) && forall x :: x < a ==> Has(n.r, x)
  {
    var r := n.r;
    assert Above(r, a);
    forall x | x < a
      ensures Has(r, x)
    {
      AboveHas(r, n.s.stream, a, x);
    }
    var k := a - r.start;
    assert r.start + k == a;
  }

  /** One goes out, of either kind, unless that number has been confirmed; a full one only if the number is newer than the
      confirmed one, and is not repeated at once. */
  lemma AckIsSent(n: Net, light: bool, recent: bool)
    requires Inv(n)
    ensures SenderOk(n.s) && ReceiverOk(n.r)
    ensures var (a, n1) := (AckPoint(n.r), Next(n, SendAck(light, recent)));
            if Wrap(a) == n.r.ackAck then n1 == n
            else if light then n1 == n.(wire := n.wire + {Control(LightAck(a))})
            else if a == n.r.lastAck && recent then n1 == n
            else if SeqCmp(Wrap(a), n.r.ackAck) > 0 then
              n1.wire == n.wire + {Control(FullAck(a, MaxOf(2, n.r.start + |n.r.ring.slots| - 1 - a)))} && n1.r.lastAck == a && n1.s == n.s
            else n1.wire == n.wire && n1.r.lastAck == a && n1.s == n.s
  {
    hide Inv, SeqCmp, Wrap, Acknowledge, ReceiverOk, SenderOk, Effects.FirstMissing, AckPoint;
    BothOk(n);
    Effects.SomeMissing(n.r);
    Effects.AckSays(n.r, light, recent, AckPoint(n.r));
  }

  /** A full ACK that arrives gives up everything in front of it, moves the window's right edge to what it promises unless a
      later one has been seen, and is confirmed. */
  lemma AckIsHeard(n: Net, a: nat, w: int)
    requires var m := Control(FullAck(a, w)); Inv(n) && m in n.wire && Fresh(n, m)
    ensures SenderOk(n.s) && ReceiverOk(n.r)
    ensures var n1 := Next(n, Deliver(Control(FullAck(a, w))));
            && n1 == n.(s := n1.s, wire := n.wire + {Control(AckOfAck(a))})
            && n1.s.dataAck == MaxOf(n.s.dataAck, a) && n1.s.lastAck == MaxOf(n.s.lastAck, a)
            && n1.s.window == (if a >= n.s.lastAck then w else n.s.window)
            && (forall x :: x in n1.s.loss <==> x in n.s.loss && x >= a)
            && n1.s.sent == n.s.sent && n1.s.stream == n.s.stream && !n1.s.broken
  {
    var m := Control(FullAck(a, w));
    hide Inv, OnAck, SenderOk, ReceiverOk, Grows;
    SoundOf(n, m);
    BothOk(n);
    Cursors(n);
    StepKeeps(n, Deliver(m));
    Cursors(Next(n, Deliver(m)));
    NextAhead(n);
    Effects.AckMeans(n.s, a, w);
  }

  /** A confirmation of an ACK that arrives sets the confirmed number, if it is a later one, and does nothing else. */
  lemma ConfirmIsHeard(n: Net, a: nat)
    requires var m := Control(AckOfAck(a)); Inv(n) && m in n.wire && Fresh(n, m) && Near(a, n.acked2)
    ensures SenderOk(n.s) && ReceiverOk(n.r)
    ensures Next(n, Deliver(Control(AckOfAck(a)))) == n.(r := n.r.(ackAck := Wrap(MaxOf(n.acked2, a))), acked2 := MaxOf(n.acked2, a))
  {
    ConfirmedNumber(n);
    hide Inv, Wrap, SeqCmp, SenderOk, ReceiverOk;
    BothOk(n);
    CmpOfWrap(a, n.acked2);
  }

  lemma ConfirmedNumber(n: Net)
    requires Inv(n)
    ensures n.r.ackAck == Wrap(n.acked2)
  {
  }
}
