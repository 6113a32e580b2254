/** When the protocol can still come to its end, exactly: from any state that a run can reach, with everything on its way
    lost. */
module Completions {
  import opened SeqNo
  import opened LossChain
  import opened Packets
  import opened RcvRing
  import opened Delivery
  import opened Streams
  import opened Protocol
  import opened Networks
  import opened Progress

  /** All of the stream can be sent without another full ACK, or an acknowledgement that will be heard comes within reach:
      one up to a packet that has not been received and that the sender may get to. */
  ghost predicate Finishable(n: Net) {
    Limit(n) == End(n) || exists y :: Missing(n.r, y) && y <= Limit(n) && Hears(n, y)
  }

  /** Fewer packets than there are sequence numbers have come since the last confirmed acknowledgement. */
  predicate OneTurn(n: Net) {
    Limit(n) - n.acked2 <= MAX_SEQ_NO
  }

  // ----- a way to the end

  lemma WrapDiffers(x: int, y: int)
    requires 0 < x - y <= MAX_SEQ_NO
    ensures Wrap(x) != Wrap(y)
  {
  }

  /** The receiver acknowledges what has come to itself, although no one will be told. */
  lemma Quiet(n: Net) returns (n1: Net)
    requires Wide(n) && OneTurn(n) && !Hearing(n)
    ensures Goes(n, n1) && SameRest(n, n1) && n1.acked2 == n.acked2 && n1.r.ackAck == n.r.ackAck && n1.s == n.s
    ensures n1.r.lastAck == AckPoint(n1.r)
  {
    hide Inv, Grows, Wrap, Goes, Hears;
    AckPointFacts(n);
    GoesOne(n, SendAck(false, false));
    LimitBound(n);
    WrapDiffers(AckPoint(n.r), n.acked2);
    n1 := Next(n, SendAck(false, false));
    AckedQuietly(n, n1);
  }

  lemma AckedQuietly(n: Net, n1: Net)
    requires SenderOk(n.s) && ReceiverOk(n.r) && n1 == Next(n, SendAck(false, false)) && ReceiverOk(n1.r)
    requires !Hears(n, AckPoint(n.r)) && Wrap(AckPoint(n.r)) != n.r.ackAck
    ensures SameRest(n, n1) && n1.acked2 == n.acked2 && n1.r.ackAck == n.r.ackAck && n1.s == n.s
    ensures n1.r.lastAck == AckPoint(n1.r)
  {
    hide SeqCmp, Wrap;
  }

  lemma LimitBound(n: Net)
    requires Inv(n)
    ensures n.s.sent <= Limit(n) <= End(n)
  {
    Cursors(n);
    hide Inv;
  }

  /** Nothing that matters for finishing has changed, except that packet k has come. */
  ghost predicate Onward(n: Net, n1: Net, k: int) {
    && n1.acked2 == n.acked2 && n1.r.ackAck == n.r.ackAck && Limit(n1) == Limit(n) && End(n1) == End(n)
    && forall y :: Missing(n.r, y) && y != k ==> Missing(n1.r, y)
  }

  lemma StaysFinishable(n: Net, n1: Net, k: int)
    requires Finishable(n) && Onward(n, n1, k) && !Hears(n, k)
    ensures Finishable(n1) && (OneTurn(n) ==> OneTurn(n1))
  {
    hide SeqCmp, Wrap;
    if Limit(n) != End(n) {
      var y :| Missing(n.r, y) && y <= Limit(n) && Hears(n, y);
      assert Missing(n1.r, y) && Hears(n1, y);
    }
  }

  /** The first missing packet is within the sender's reach. */
  lemma WithinReach(n: Net, k: int)
    requires Inv(n) && Finishable(n) && k == AckPoint(n.r) && !Hears(n, k) && k < End(n)
    ensures k < Limit(n)
  {
    hide Inv, AckPoint, Hears, Missing, Limit, End, ReceiverOk, SenderOk;
    BothOk(n);
    MissingFrom(n);
    if Limit(n) != End(n) {
      var y :| Missing(n.r, y) && y <= Limit(n) && Hears(n, y);
      assert k <= y;
    }
  }

  lemma MissingFrom(n: Net)
    requires ReceiverOk(n.r)
    ensures forall y :: Missing(n.r, y) ==> y >= AckPoint(n.r)
  {
  }

  lemma PackedSame(n: Net, n1: Net)
    requires Goes(n, n1)
    ensures End(n1) == End(n) && n1.msgs == n.msgs && |n1.r.ring.slots| == |n.r.ring.slots|
  {
    hide Inv;
  }

  lemma KeepsWide(n: Net, n1: Net)
    requires Wide(n) && Goes(n, n1)
    ensures Wide(n1) && (AllFit(n) ==> AllFit(n1)) && n1.msgs == n.msgs && n.r.isn == n1.r.isn
  {
    StaysInReach(n, n1);
    hide Inv, AllFit;
  }

  /** A message that is there is read. */
  lemma ReadOn(n: Net, k: int) returns (n1: Net)
    requires Wide(n) && MessageThere(n)
    ensures Goes(n, n1) && Onward(n, n1, k) && ReceiverOk(n.r) && ReceiverOk(n1.r) && Measure(n1) > Measure(n)
    ensures |n.r.delivered| <= |n1.r.delivered| && WholeFrom(n1, |n.r.delivered|)
  {
    hide Inv, Goes, Grows, AckPoint, MessageThere, Measure;
    n1 := ReadsMessage(n);
    ReadMeasure(n, n1);
    PackedSame(n, n1);
  }

  /** The first missing packet is sent, and comes. */
  lemma Fetch(n: Net, k: int) returns (n1: Net)
    requires Wide(n) && AllFit(n) && Finishable(n) && ReceiverOk(n.r) && AckPoint(n.r) == n.r.lastAck == k && !Hears(n, k)
    requires |n.r.delivered| < |n.msgs| && !MessageThere(n)
    ensures Goes(n, n1) && Onward(n, n1, k) && ReceiverOk(n1.r) && Measure(n1) > Measure(n) && n1.r.delivered == n.r.delivered
  {
    hide Inv, Goes, Grows, AckPoint, Hears, MessageThere, Finishable, OnWire, AllFit, Hearing;
    HasRoom(n, k);
    WithinReach(n, k);
    var na := SendMissing(n, k);
    GoesInv(n, na);
    n1 := FillsGap(na, k);
    GoesOn(n, na, n1);
    PackedSame(n, n1);
    KeepsWide(n, n1);
  }

  lemma QuietOn(n: Net, na: Net, k: int)
    requires SameRest(n, na) && Goes(n, na) && na.acked2 == n.acked2 && na.r.ackAck == n.r.ackAck && na.s == n.s
    ensures Onward(n, na, k) && Measure(na) == Measure(n)
  {
    PackedSame(n, na);
    hide Inv, Goes, AckPoint;
  }

  lemma NothingNew(n: Net)
    requires Inv(n)
    ensures WholeFrom(n, |n.r.delivered|)
  {
  }

  /** Without being heard: a message is read, or the first missing packet comes. */
  lemma Unheard(n: Net) returns (n1: Net)
    requires Wide(n) && AllFit(n) && Finishable(n) && OneTurn(n) && !Hearing(n) && |n.r.delivered| < |n.msgs|
    ensures Goes(n, n1) && Wide(n1) && AllFit(n1) && Finishable(n1) && OneTurn(n1)
    ensures ReceiverOk(n.r) && ReceiverOk(n1.r) && Measure(n1) > Measure(n)
    ensures |n.r.delivered| <= |n1.r.delivered| && WholeFrom(n1, |n.r.delivered|)
  {
    var k := AckPoint(n.r);
    assert ReceiverOk(n.r) && !Hears(n, k) by { BothOk(n); }
    var na := Quiet(n);
    hide Inv, Goes, Grows, AckPoint, Hears, MessageThere, Measure, Finishable, OnWire, AllFit, Hearing, WholeFrom;
    QuietOn(n, na, k);
    KeepsWide(n, na);
    StaysFinishable(n, na, k);
    if MessageThere(na) {
      n1 := ReadOn(na, k);
      StaysFinishable(na, n1, k);
    } else {
      n1 := Fetch(na, k);
      StaysFinishable(na, n1, k);
      NothingNew(n1);
    }
    GoesOn(n, na, n1);
    KeepsWide(na, n1);
  }

  lemma {:induction false} FinishUnheard(n: Net) returns (n1: Net)
    requires Wide(n) && AllFit(n) && Finishable(n) && OneTurn(n)
    ensures Goes(n, n1) && |n1.r.delivered| == |n1.msgs| && WholeFrom(n1, |n.r.delivered|)
    decreases 2 * |n.s.stream| - (if ReceiverOk(n.r) then Measure(n) else 0)
  {
    MeasureBound(n);
    if |n.r.delivered| >= |n.msgs| {
      NothingNew(n);
      hide Inv, Goes;
      GoesNowhere(n);
      n1 := n;
    } else if Hearing(n) {
      hide Inv, Goes, Hearing, Finishable, AllFit;
      n1 := Finish(n);
    } else {
      var na := Unheard(n);
      hide Hearing, Finishable, AllFit, OneTurn, Measure, WholeFrom, Grows;
      MeasureBound(na);
      PackedSame(n, na);
      StreamSame(n, na);
      hide Inv, Goes;
      n1 := FinishUnheard(na);
      KeepsWhole(n, na, n1);
      GoesOn(n, na, n1);
    }
  }

  lemma StreamSame(n: Net, n1: Net)
    requires Goes(n, n1)
    ensures n1.s.stream == n.s.stream
  {
    hide Inv;
  }

  lemma FinishLost(n: Net) returns (n1: Net)
    requires Wide(n) && AllFit(n) && Finishable(n) && OneTurn(n)
    ensures Progress.Completes(n, n1)
  {
    var lost := n.(wire := {});
    AllLost(n);
    SameWhenLost(n);
    hide Inv, Goes, Finishable, AllFit;
    n1 := FinishUnheard(lost);
    FinishFacts(lost, n1);
  }

  lemma SameWhenLost(n: Net)
    ensures var lost := n.(wire := {});
            && (AllFit(n) ==> AllFit(lost)) && (Finishable(n) ==> Finishable(lost)) && (OneTurn(n) ==> OneTurn(lost))
            && (Wide(n) && Inv(lost) ==> Wide(lost))
  {
    hide Inv, Fragments, SeqCmp, Wrap;
    var lost := n.(wire := {});
    if y :| Missing(n.r, y) && y <= Limit(n) && Hears(n, y) {
      assert Missing(lost.r, y) && Hears(lost, y);
    }
  }

  // ----- and otherwise there is none

  /** No acknowledgement will be heard again: there is no full ACK and no ACK2 on the wire, and the sender's window ends at
      `edge`, up to which no missing packet makes for one. */
  ghost predicate Deaf(n: Net, ackAck: int, edge: int) {
    && n.r.ackAck == ackAck && n.s.sent <= edge && n.s.lastAck + n.s.window <= edge
    && (forall y :: Missing(n.r, y) && y <= edge ==> SeqCmp(Wrap(y), ackAck) <= 0)
    && forall m :: m in n.wire && m.Control? ==> !m.report.FullAck? && !m.report.AckOfAck?
  }

  lemma DeafSend(n: Net, act: Act, ackAck: int, edge: int)
    requires Inv(n) && Deaf(n, ackAck, edge) && (act.Send? || act.Pack? || act.Timeout?)
    ensures SenderOk(n.s) && ReceiverOk(n.r) && Deaf(Next(n, act), ackAck, edge)
  {
    BothOk(n);
    hide Inv, SeqCmp, Wrap;
  }

  lemma DeafAck(n: Net, light: bool, recent: bool, ackAck: int, edge: int)
    requires Inv(n) && Deaf(n, ackAck, edge)
    ensures SenderOk(n.s) && ReceiverOk(n.r) && Deaf(Next(n, SendAck(light, recent)), ackAck, edge)
  {
    AckPointFacts(n);
    BothOk(n);
    hide Inv, SeqCmp, Wrap;
    assert Missing(n.r, AckPoint(n.r));
  }

  lemma DeafRead(n: Net, len: nat, ackAck: int, edge: int)
    requires Inv(n) && Deaf(n, ackAck, edge)
    ensures SenderOk(n.s) && ReceiverOk(n.r) && Deaf(Next(n, Recv(len)), ackAck, edge)
  {
    BothOk(n);
    hide Inv, SeqCmp, Wrap, ReadMsg;
  }

  lemma DeafData(n: Net, x: nat, p: Packet, ackAck: int, edge: int)
    requires ReceiverOk(n.r) && Deaf(n, ackAck, edge)
    ensures Deaf(Arrive(n, Data(x, p)), ackAck, edge)
  {
    hide SeqCmp, Wrap, AddData;
    var (r, report) := OnData(n.r, x, p);
    forall y | Missing(r, y)
      ensures Missing(n.r, y)
    {
    }
  }

  lemma DeafReport(n: Net, report: Report, ackAck: int, edge: int)
    requires ReceiverOk(n.r) && Deaf(n, ackAck, edge) && (report.LightAck? || report.LossReport? || report.NoReport?)
    ensures Deaf(Arrive(n, Control(report)), ackAck, edge)
  {
    hide SeqCmp, Wrap, Range;
    if report.LossReport? {
      var nodes := [Node(report.lo, report.hi)];
      assert nodes[1..] == [];
      assert Secure(n.s, nodes[0]) ==> OnNak(OnRange(n.s, nodes[0]), nodes[1..]) == OnRange(n.s, nodes[0]);
    }
  }

  lemma DeafDeliver(n: Net, m: Msg, ackAck: int, edge: int)
    requires Inv(n) && Deaf(n, ackAck, edge)
    ensures SenderOk(n.s) && ReceiverOk(n.r) && Deaf(Next(n, Deliver(m)), ackAck, edge)
  {
    hide Inv, SeqCmp, Wrap, Arrive;
    BothOk(n);
    if m in n.wire && Fresh(n, m) {
      match m
      case Data(x, p) => DeafData(n, x, p, ackAck, edge);
      case Control(report) => DeafReport(n, report, ackAck, edge);
    }
  }

  lemma DeafStep(n: Net, act: Act, ackAck: int, edge: int)
    requires Inv(n) && Deaf(n, ackAck, edge)
    ensures SenderOk(n.s) && ReceiverOk(n.r) && Deaf(Next(n, act), ackAck, edge)
  {
    hide Inv, Deaf, Next;
    match act
    case Deliver(m) => DeafDeliver(n, m, ackAck, edge);
    case SendAck(light, recent) => DeafAck(n, light, recent, ackAck, edge);
    case Recv(len) => DeafRead(n, len, ackAck, edge);
    case _ => DeafSend(n, act, ackAck, edge);
  }

  lemma {:induction false} DeafRun(n: Net, acts: seq<Act>, ackAck: int, edge: int)
    requires Inv(n) && Deaf(n, ackAck, edge)
    ensures Deaf(Networks.Run(n, acts), ackAck, edge)
    decreases |acts|
  {
    hide Inv, Deaf, Next;
    if acts == [] {
      RunNone(n);
    } else {
      RunOne(n, acts);
      DeafStep(n, acts[0], ackAck, edge);
      DeafRun(Next(n, acts[0]), acts[1..], ackAck, edge);
    }
  }

  lemma DeafAtFirst(n: Net)
    requires Inv(n) && !Finishable(n)
    ensures Deaf(n.(wire := {}), n.r.ackAck, Limit(n)) && Limit(n) < End(n)
  {
    hide Inv, SeqCmp, Wrap;
    forall y | Missing(n.r, y) && y <= Limit(n)
      ensures SeqCmp(Wrap(y), n.r.ackAck) <= 0
    {
      assert !Hears(n, y);
    }
  }

  /** When everything has been read, the whole stream has come. */
  lemma AllReadIsAllSent(n: Net)
    requires Inv(n) && |n.r.delivered| == |n.msgs|
    ensures n.s.sent == End(n)
  {
    AckPointFacts(n);
    AllGiven(n);
    Cursors(n);
    hide Inv;
  }

  lemma AllGiven(n: Net)
    requires Inv(n) && |n.r.delivered| == |n.msgs|
    ensures n.r.start == End(n) <= n.r.lastAck
  {
    hide StreamOf, AllThere;
    assert n.msgs[..|n.r.delivered|] == n.msgs;
  }

  lemma DeafBound(n: Net, ackAck: int, edge: int)
    requires Deaf(n, ackAck, edge)
    ensures n.s.sent <= edge
  {
  }

  /** Where nothing will be heard, the end is never reached. */
  lemma FinishedIsFinishable(n: Net, n1: Net)
    requires Inv(n) && Inv(n.(wire := {})) && Progress.Completes(n, n1)
    ensures Finishable(n)
  {
    var lost := n.(wire := {});
    hide Inv, Finishable, Grows, Deaf, Hears;
    var acts := Ways(lost, n1);
    PackedSame(lost, n1);
    GoesInv(lost, n1);
    AllReadIsAllSent(n1);
    if !Finishable(n) {
      DeafAtFirst(n);
      DeafRun(lost, acts, n.r.ackAck, Limit(n));
      DeafBound(n1, n.r.ackAck, Limit(n));
    }
  }

  /** What is read has fitted. */
  lemma FinishedFits(n: Net, n1: Net)
    requires Inv(n) && Inv(n.(wire := {})) && Progress.Completes(n, n1)
    ensures AllFit(n)
  {
    var lost := n.(wire := {});
    NothingYet(n);
    hide Inv, Fragments, Grows;
    var acts := Ways(lost, n1);
    PackedSame(lost, n1);
    SameMss(lost, n1);
    RunFitted(lost, acts, |n.r.delivered|);
  }

  lemma NothingYet(n: Net)
    requires Inv(n)
    ensures Fitted(n.(wire := {}), |n.r.delivered|) && n.s.mss > 0
  {
  }

  lemma SameMss(n: Net, n1: Net)
    requires Goes(n, n1)
    ensures n1.s.mss == n.s.mss
  {
    hide Inv;
  }

  /** Wherever a run stops, and whatever is lost there, exactly: there is a way to go on to the end if and only if every
      message still to be read fits the receiver's buffer, and either the rest of the stream can be sent without another
      full ACK, or an acknowledgement that will be heard comes within reach.  (If the sequence numbers have not gone all the
      way round since the last confirmed acknowledgement; without that, only if.) */
  lemma CanFinish(isn: nat, mss: nat, limit: nat, size: nat, initial: int, acts: seq<Act>)
    requires mss > 0 && size > 0 && 1 <= initial && initial + size + 2 < THRESHOLD
    ensures var n := Networks.Run(Networks.Start(isn, mss, limit, size, initial), acts);
            && (OneTurn(n) ==> ((exists n1 :: Progress.Completes(n, n1)) <==> AllFit(n) && Finishable(n)))
            && ((exists n1 :: Progress.Completes(n, n1)) ==> AllFit(n) && Finishable(n))
  {
    hide Inv, Networks.Start, Networks.Run, AllFit, Finishable, Progress.Completes, OneTurn;
    Reached(isn, mss, limit, size, initial, acts);
    var n := Networks.Run(Networks.Start(isn, mss, limit, size, initial), acts);
    AllLost(n);
    if n1 :| Progress.Completes(n, n1) {
      FinishedIsFinishable(n, n1);
      FinishedFits(n, n1);
    }
    if AllFit(n) && Finishable(n) && OneTurn(n) {
      var n1 := FinishLost(n);
    }
  }

  /** Far behind: with 2^30-1 packets or more since the last confirmed acknowledgement, one up to y is heard exactly if the
      numbers have started again in between and the two numbers are still that far apart. */
  lemma FarIsDeaf(n: Net, y: int)
    requires Inv(n) && THRESHOLD <= y - n.acked2 <= MAX_SEQ_NO
    ensures Hears(n, y) <==> Wrap(y) < n.r.ackAck && n.r.ackAck - Wrap(y) >= THRESHOLD
  {
    AckPointFacts(n);
    hide Inv;
    FarCompares(n.acked2, y);
  }

  lemma FarCompares(x: int, y: int)
    requires THRESHOLD <= y - x <= MAX_SEQ_NO
    ensures SeqCmp(Wrap(y), Wrap(x)) > 0 <==> Wrap(y) < Wrap(x) && Wrap(x) - Wrap(y) >= THRESHOLD
  {
    assert Wrap(y) - Wrap(x) == y - x || Wrap(y) - Wrap(x) == y - x - (MAX_SEQ_NO + 1) by {
      WrapStep(x, y - x);
    }
  }

  lemma WrapStep(x: int, d: int)
    requires 0 <= d <= MAX_SEQ_NO
    ensures Wrap(x + d) == Wrap(x) + d || Wrap(x + d) == Wrap(x) + d - (MAX_SEQ_NO + 1)
  {
  }

  /** In particular: if everything is lost when the receiver is 2^30-1 packets or more ahead of the last confirmed
      acknowledgement, the numbers do not start again within reach, and the stream goes on behind that, there is no way. */
  lemma LagIsFatal(isn: nat, mss: nat, limit: nat, size: nat, initial: int, acts: seq<Act>)
    requires mss > 0 && size > 0 && 1 <= initial && initial + size + 2 < THRESHOLD
    requires var n := Networks.Run(Networks.Start(isn, mss, limit, size, initial), acts);
             && ReceiverOk(n.r) && AckPoint(n.r) - n.acked2 >= THRESHOLD
             && Wrap(n.acked2) + (Limit(n) - n.acked2) <= MAX_SEQ_NO && Limit(n) < End(n)
    ensures !exists n1 :: Progress.Completes(Networks.Run(Networks.Start(isn, mss, limit, size, initial), acts), n1)
  {
    hide Inv, Networks.Start, Networks.Run, Wrap, Hears, AckPoint, Progress.Completes, AllFit;
    CanFinish(isn, mss, limit, size, initial, acts);
    Reached(isn, mss, limit, size, initial, acts);
    var n := Networks.Run(Networks.Start(isn, mss, limit, size, initial), acts);
    MissingFrom(n);
    AckPointFacts(n);
    forall y | Missing(n.r, y) && y <= Limit(n)
      ensures !Hears(n, y)
    {
      WrapGoesOn(n.acked2, y - n.acked2);
      FarIsDeaf(n, y);
    }
  }

  lemma WrapGoesOn(x: int, d: int)
    requires 0 <= d && Wrap(x) + d <= MAX_SEQ_NO
    ensures Wrap(x + d) == Wrap(x) + d && d <= MAX_SEQ_NO
  {
  }
}
