/** Whole runs of the classes: two ends, a pool of units, and a network that carries wrapped numbers and bytes only.  What
    the ends put on the network may arrive any number of times, in any order or never, as long as it is not too old. */
module Simulations {
  import opened SeqNo
  import opened LossChain
  import opened NakCoding
  import opened Packets
  import opened RcvRing
  import Protocol
  import opened Networks
  import opened AckWindows
  import opened UnitQueues
  import SndBuffers
  import opened Senders
  import RcvBuffers
  import opened Receivers
  import opened Connections

  /** What travels: data packets, full and light ACKs, NAKs, and ACK2s.  A full ACK and its ACK2 carry the ACK's number. */
  datatype Datagram =
    | DataGram(seqNo: int, p: Packet)
    | FullGram(no: int, ack: int, window: int)
    | LightGram(ack: int)
    | NakGram(words: seq<int>)
    | Ack2Gram(no: int)

  /** since: the time from which its age counts.  An ACK2 is as old as the ACK it answers. */
  datatype Flying = Flying(gram: Datagram, since: nat)

  /** What happens next: a call by either application, a timer, or the arrival of a datagram. */
  datatype Call =
    | Send(data: seq<byte>) | Pack(cwnd: int) | CheckTimers
    | Acknowledge(light: bool, recent: bool, now: int) | Read(len: nat)
    | Arrive(k: nat, now: int)

  /** What a datagram stands for: a message of the network; and for an ACK or ACK2, which full ACK it is. */
  datatype Meaning = Meaning(m: Msg, i: nat)

  ghost predicate Names(acks: seq<Record>, acked: seq<nat>, no: int, i: nat, a: nat, age: int) {
    i < |acked| == |acks| && acked[i] == a && acks[i].seqNo == no && |acked| - i <= age + 1
  }

  ghost predicate Means(net: Net, acks: seq<Record>, acked: seq<nat>, f: Flying, w: Meaning, clock: nat) {
    && f.since <= clock && w.m in net.wire && Age(net, w.m) <= MaxWindow(net) + (clock - f.since)
    && match f.gram
       case DataGram(seqNo, p) => w.m.Data? && w.m.p == p && seqNo == Wrap(w.m.x)
       case FullGram(no, ack, window) =>
         && w.m.Control? && w.m.report.FullAck? && ack == Wrap(w.m.report.a) && window == w.m.report.w
         && Names(acks, acked, no, w.i, w.m.report.a, clock - f.since)
       case LightGram(ack) => w.m.Control? && w.m.report.LightAck? && ack == Wrap(w.m.report.b)
       case NakGram(words) => w.m.Control? && w.m.report.LossReport? && words == EncodeNode(Node(w.m.report.lo, w.m.report.hi))
       case Ack2Gram(no) => w.m.Control? && w.m.report.AckOfAck? && Names(acks, acked, no, w.i, w.m.report.c, clock - f.since)
  }

  /** Everything in the air means something. */
  ghost predicate Air(net: Net, acks: seq<Record>, acked: seq<nat>, air: seq<Flying>, meant: seq<Meaning>, clock: nat) {
    |meant| == |air| && forall k :: 0 <= k < |air| ==> Means(net, acks, acked, air[k], meant[k], clock)
  }

  /** A step of the network, or none. */
  ghost predicate Later(net: Net, net1: Net) {
    net.wire <= net1.wire && net1.s.sent <= net.s.sent + 1 && MaxWindow(net1) == MaxWindow(net)
  }

  lemma AirStays(net: Net, acks: seq<Record>, acked: seq<nat>, air: seq<Flying>, meant: seq<Meaning>, clock: nat,
                 net1: Net, acks1: seq<Record>, acked1: seq<nat>)
    requires Air(net, acks, acked, air, meant, clock) && Later(net, net1)
    requires acks <= acks1 && acked <= acked1 && |acked1| == |acks1| <= |acks| + 1
    ensures Air(net1, acks1, acked1, air, meant, clock + 1)
  {
    hide MaxWindow, Wrap, EncodeNode;
    forall k | 0 <= k < |air|
      ensures Means(net1, acks1, acked1, air[k], meant[k], clock + 1)
    {
      assert Means(net, acks, acked, air[k], meant[k], clock);
    }
  }

  lemma AirMore(net: Net, acks: seq<Record>, acked: seq<nat>, air: seq<Flying>, meant: seq<Meaning>, clock: nat, f: Flying, w: Meaning)
    requires Air(net, acks, acked, air, meant, clock) && Means(net, acks, acked, f, w, clock)
    ensures Air(net, acks, acked, air + [f], meant + [w], clock)
  {
    hide Means;
  }

  /** A NAK just sent. */
  lemma NakMeans(net: Net, acks: seq<Record>, acked: seq<nat>, nak: seq<int>, report: Protocol.Report, clock: nat)
    requires report.LossReport? && nak == EncodeNode(Node(report.lo, report.hi)) && Control(report) in net.wire
    requires Age(net, Control(report)) <= MaxWindow(net)
    ensures Means(net, acks, acked, Flying(NakGram(nak), clock), Meaning(Control(report), 0), clock)
  {
  }

  /** The ACK2 that answers a full ACK. */
  lemma Ack2Means(net0: Net, net: Net, acks: seq<Record>, acked: seq<nat>, f: Flying, w: Meaning, clock: nat)
    requires Means(net0, acks, acked, f, w, clock) && f.gram.FullGram?
    requires net.s.sent == net0.s.sent && MaxWindow(net) == MaxWindow(net0) && Control(Protocol.AckOfAck(w.m.report.a)) in net.wire
    ensures Means(net, acks, acked, Flying(Ack2Gram(f.gram.no), f.since), Meaning(Control(Protocol.AckOfAck(w.m.report.a)), w.i), clock + 1)
  {
  }

  /** What a step changes, as far as the books are concerned. */
  lemma Stepped(n: Net, act: Act, n1: Net)
    requires Makes(n, act, n1)
    ensures Later(n, n1) && MaxWindow(n1) == MaxWindow(n)
    ensures !act.Send? ==> n1.msgs == n.msgs
    ensures !act.Recv? ==> n1.r.delivered == n.r.delivered
  {
    BothOk(n);
    StepKeeps(n, act);
    WireGrows(n, act);
    hide Inv, Next;
  }

  lemma WireGrows(n: Net, act: Act)
    requires Protocol.SenderOk(n.s) && Protocol.ReceiverOk(n.r)
    ensures var n1 := Next(n, act);
            && n.wire <= n1.wire && n1.s.sent <= n.s.sent + 1
            && (!act.Send? ==> n1.msgs == n.msgs) && (!act.Recv? ==> n1.r.delivered == n.r.delivered)
  {
    hide AddData, AckData, Protocol.AckPoint, SeqCmp, Range, Protocol.Least;
    if act.Deliver? && act.m.Control? && act.m.report.LossReport? {
      var nodes := [Node(act.m.report.lo, act.m.report.hi)];
      assert nodes[1..] == [];
      assert Protocol.Secure(n.s, nodes[0]) ==>
               Protocol.OnNak(Protocol.OnRange(n.s, nodes[0]), nodes[1..]) == Protocol.OnRange(n.s, nodes[0]);
    }
  }

  /** The state between two calls. */
  datatype Moment = Moment(net: Net, air: seq<Flying>, meant: seq<Meaning>, clock: nat)

  ghost predicate Carried(meant: seq<Meaning>, m: Msg) {
    exists k :: 0 <= k < |meant| && meant[k].m == m
  }

  /** Nothing leaves the air, and what goes onto the wire is put there. */
  ghost predicate Passes(t: Moment, t1: Moment) {
    && t.air <= t1.air && t.meant <= t1.meant && t.clock <= t1.clock <= t.clock + 1
    && forall m :: m in t1.net.wire ==> m in t.net.wire || Carried(t1.meant, m)
  }

  lemma PassesQuietly(t: Moment, t1: Moment)
    requires t1.air == t.air && t1.meant == t.meant && t.clock <= t1.clock <= t.clock + 1 && t1.net.wire == t.net.wire
    ensures Passes(t, t1)
  {
  }

  lemma PassesWith(t: Moment, t1: Moment, w: Meaning)
    requires t.air <= t1.air && t1.meant == t.meant + [w] && t.clock <= t1.clock <= t.clock + 1
    requires t1.net.wire == t.net.wire + {w.m}
    ensures Passes(t, t1)
  {
    assert t1.meant[|t.meant|] == w;
  }

  /** What a call makes of the network.  A datagram that is too old, or not there, does not arrive; a data packet may find
      no unit, and the ACK of an ACK2 may be forgotten. */
  ghost predicate Follows(t: Moment, call: Call, lifetime: nat, net1: Net) {
    match call
    case Send(data) => Makes(t.net, Act.Send(data), net1)
    case Pack(cwnd) => Makes(t.net, Act.Pack(cwnd), net1)
    case CheckTimers => Makes(t.net, Timeout, net1)
    case Acknowledge(light, recent, _) => Makes(t.net, Act.SendAck(light, recent), net1)
    case Read(len) => Makes(t.net, Recv(len), net1)
    case Arrive(k, _) =>
      if k < |t.air| && k < |t.meant| && t.clock - t.air[k].since <= lifetime then
        Makes(t.net, Deliver(t.meant[k].m), net1) || ((t.air[k].gram.DataGram? || t.air[k].gram.Ack2Gram?) && net1 == t.net)
      else net1 == t.net
  }

  /** A run: every moment follows from the one before by its call. */
  ghost predicate IsRun(ts: seq<Moment>, calls: seq<Call>, lifetime: nat) {
    |ts| == |calls| + 1
    && forall k :: 0 <= k < |calls| ==> Follows(ts[k], calls[k], lifetime, ts[k + 1].net) && Passes(ts[k], ts[k + 1])
  }

  class World {
    const link: Connection
    const lifetime: nat         // how many calls a datagram may last
    var air: seq<Flying>
    var clock: nat              // the number of calls so far that did something
    var accepted: seq<seq<byte>>
    var given: seq<(seq<byte>, nat)>

    ghost var meant: seq<Meaning>
    ghost var repr: set<object>

    ghost function Now(): Moment
      reads this, link`net
    {
      Moment(link.net, air, meant, clock)
    }

    ghost predicate Books()
      reads this, link, link.receiver`acks
    {
      && Air(link.net, link.receiver.acks, link.acked, air, meant, clock) && |link.acked| == |link.receiver.acks|
      && lifetime + MaxWindow(link.net) < THRESHOLD
      && link.net.msgs == accepted && link.net.r.delivered == given
    }

    ghost predicate Valid()
      reads this, link, link.sender, link.sender.sndBuffer, link.sender.sndBuffer.ring
      reads link.sender.lossList, link.sender.lossList.data1, link.sender.lossList.data2, link.sender.lossList.next
      reads link.receiver, link.receiver.rcvBuffer, link.receiver.rcvBuffer.pUnit, link.receiver.rcvBuffer.pUnit[..]
      reads link.receiver.rcvBuffer.queue, link.receiver.rcvBuffer.queue.place.Keys
      reads link.receiver.lossList, link.receiver.lossList.data1, link.receiver.lossList.data2, link.receiver.lossList.next
      reads link.receiver.lossList.prior, link.receiver.ackWindow
      reads link.receiver.ackWindow.seqNos, link.receiver.ackWindow.acks, link.receiver.ackWindow.times
    {
      link.Valid() && Books() && Covers(repr)
    }

    /** These are all the objects a call may change. */
    ghost predicate Covers(objects: set<object>)
      reads link.sender.sndBuffer`ring, link.receiver.rcvBuffer.queue`place
    {
      && this in objects && link.Fixed() <= objects
      && (forall b :: b in link.sender.sndBuffer.ring ==> b in objects)
      && link.receiver.rcvBuffer.queue.place.Keys <= objects
    }

    constructor (link: Connection, lifetime: nat)
      requires link.Valid() && lifetime + MaxWindow(link.net) < THRESHOLD
      requires link.net.msgs == [] && link.net.r.delivered == [] && |link.acked| == |link.receiver.acks|
      ensures Valid() && this.link == link && this.lifetime == lifetime && repr == {this} + link.Repr()
      ensures Now() == Moment(link.net, [], [], 0)
    {
      hide Connection.Valid, MaxWindow;
      this.link, this.lifetime := link, lifetime;
      air, clock, accepted, given, meant := [], 0, [], [], [];
      repr := {this} + link.Repr();
    }

    /** One call is over. */
    method Advance(accepted1: seq<seq<byte>>, given1: seq<(seq<byte>, nat)>, ghost more: set<object>,
                   ghost n: Net, ghost acks: seq<Record>, ghost acked: seq<nat>)
      requires link.Valid() && Air(n, acks, acked, air, meant, clock) && Later(n, link.net)
      requires acks <= link.receiver.acks && acked <= link.acked && |link.acked| == |link.receiver.acks| <= |acks| + 1
      requires lifetime + MaxWindow(n) < THRESHOLD && link.net.msgs == accepted1 && link.net.r.delivered == given1 && Covers(repr + more)
      modifies this`clock, this`accepted, this`given, this`repr
      ensures Valid() && clock == old(clock) + 1 && repr == old(repr) + more
    {
      hide Connection.Valid, Air, MaxWindow;
      AirStays(n, acks, acked, air, meant, clock, link.net, link.receiver.acks, link.acked);
      clock, accepted, given, repr := clock + 1, accepted1, given1, repr + more;
    }

    /** The sending application. */
    method SendMessage(data: seq<byte>)
      requires Valid()
      modifies this, repr
      ensures Valid() && fresh(repr - old(repr))
      ensures Makes(old(link.net), Act.Send(data), link.net) && Passes(old(Now()), Now())
    {
      hide Connection.Valid, Connection.Fixed, Makes, Air, Later, MaxWindow, Passes;
      ghost var n, t := link.net, Now();
      MaySend();
      ghost var ring := link.sender.sndBuffer.ring;
      var r := link.Send(data);
      ghost var added := set b | b in link.sender.sndBuffer.ring && b !in ring;
      Stepped(n, Act.Send(data), link.net);
      Advance(if r.Taken? && r.len > 0 then accepted + [data] else accepted, given, added, n, link.receiver.acks, link.acked);
      PassesQuietly(t, Now());
    }

    lemma MaySend()
      requires Covers(repr)
      ensures link in repr && link.sender in repr && link.sender.sndBuffer in repr
    {
    }

    /** Something is put into the air. */
    method Emit(f: Flying, ghost w: Meaning)
      requires Valid() && Means(link.net, link.receiver.acks, link.acked, f, w, clock)
      modifies this`air, this`meant
      ensures Valid() && air == old(air) + [f] && meant == old(meant) + [w]
    {
      hide Connection.Valid, Means, MaxWindow;
      AirMore(link.net, link.receiver.acks, link.acked, air, meant, clock, f, w);
      air, meant := air + [f], meant + [w];
    }

    /** The sender's turn. */
    method PackPacket(cwnd: int)
      requires Valid()
      modifies this, repr
      ensures Valid() && fresh(repr - old(repr))
      ensures Makes(old(link.net), Act.Pack(cwnd), link.net) && Passes(old(Now()), Now())
    {
      hide Connection.Valid, Makes, Air, Later, MaxWindow, Wrap;
      ghost var n, t, x := link.net, Now(), 0;
      var seqNo, p;
      seqNo, p, x := link.Pack(cwnd);
      Stepped(n, Act.Pack(cwnd), link.net);
      Advance(accepted, given, {}, n, link.receiver.acks, link.acked);
      if p.Some? {
        Emit(Flying(DataGram(seqNo, p.value), clock), Meaning(Data(x, p.value), 0));
        PassesWith(t, Now(), Meaning(Data(x, p.value), 0));
      }
    }

    /** The sender's timer. */
    method Timers()
      requires Valid()
      modifies this, repr
      ensures Valid() && fresh(repr - old(repr))
      ensures Makes(old(link.net), Timeout, link.net) && Passes(old(Now()), Now())
    {
      hide Connection.Valid, Makes, Air, Later, MaxWindow;
      ghost var n := link.net;
      link.CheckTimers();
      Stepped(n, Timeout, link.net);
      Advance(accepted, given, {}, n, link.receiver.acks, link.acked);
    }

    /** The receiver's timer. */
    method SendAck(light: bool, recent: bool, now: int)
      requires Valid()
      modifies this, repr
      ensures Valid() && fresh(repr - old(repr))
      ensures Makes(old(link.net), Act.SendAck(light, recent), link.net) && Passes(old(Now()), Now())
    {
      hide Connection.Valid, Makes, Air, Later, MaxWindow, Wrap;
      ghost var n, t, acks, acked := link.net, Now(), link.receiver.acks, link.acked;
      var p;
      ghost var report;
      p, report := link.Acknowledge(light, recent, now);
      Stepped(n, Act.SendAck(light, recent), link.net);
      Advance(accepted, given, {}, n, acks, acked);
      match p
      case Nothing =>
      case Light(ack) =>
        Emit(Flying(LightGram(ack), clock), Meaning(Control(report), 0));
        PassesWith(t, Now(), Meaning(Control(report), 0));
      case FullAck(no, ack, window) =>
        Emit(Flying(FullGram(no, ack, window), clock), Meaning(Control(report), |acked|));
        PassesWith(t, Now(), Meaning(Control(report), |acked|));
    }

    /** The receiving application. */
    method ReadMessage(len: nat)
      requires Valid()
      modifies this, repr
      ensures Valid() && fresh(repr - old(repr))
      ensures Makes(old(link.net), Recv(len), link.net) && Passes(old(Now()), Now())
    {
      hide Connection.Valid, Connection.Fixed, Makes, Air, Later, MaxWindow, Take, RcvBuffers.RcvBuffer.Units, Passes;
      ghost var n, t := link.net, Now();
      MayReceive();
      InPool();
      var data := link.Read(len);
      Stepped(n, Recv(len), link.net);
      Advance(accepted, if data == [] then given else given + [(data, len)], {}, n, link.receiver.acks, link.acked);
      PassesQuietly(t, Now());
    }

    lemma MayReceive()
      requires Covers(repr)
      ensures link in repr && link.receiver in repr && link.receiver.rcvBuffer in repr && link.receiver.rcvBuffer.pUnit in repr
      ensures link.receiver.rcvBuffer.queue in repr && link.receiver.lossList in repr && link.receiver.lossList.data1 in repr
      ensures link.receiver.lossList.data2 in repr && link.receiver.lossList.next in repr && link.receiver.lossList.prior in repr
    {
    }

    lemma InPool()
      requires link.Valid()
      ensures link.receiver.rcvBuffer.Units() <= link.receiver.rcvBuffer.queue.place.Keys
    {
    }

    /** Datagram k arrives, again or for the first time, unless it is too old. */
    method Arrival(k: nat, now: int)
      requires Valid()
      modifies this, repr
      ensures Valid() && fresh(repr - old(repr))
      ensures Follows(old(Now()), Arrive(k, now), lifetime, link.net) && Passes(old(Now()), Now())
    {
      hide Connection.Valid, Later, MaxWindow, Makes, Wrap, EncodeNode, Age;
      if k < |air| && clock - air[k].since <= lifetime {
        IsYoung(k);
        ghost var w := meant[k];
        match air[k].gram
        case DataGram(seqNo, p) => DataIn(seqNo, p, w.m.x);
        case FullGram(no, ack, window) => AckIn(no, ack, window, air[k].since, w);
        case LightGram(ack) => LightIn(ack, w.m.report.b);
        case NakGram(words) => NakIn(words, w.m.report.lo, w.m.report.hi);
        case Ack2Gram(no) => Ack2In(no, now, w.m.report.c, w.i);
      }
    }

    lemma IsYoung(k: nat)
      requires Valid() && k < |air| && clock - air[k].since <= lifetime
      ensures k < |meant| && Means(link.net, link.receiver.acks, link.acked, air[k], meant[k], clock)
      ensures Fresh(link.net, meant[k].m) && clock - air[k].since + 1 < THRESHOLD
    {
      hide Sender.Valid, Receiver.Valid, Inv, Fresh, Wrap, EncodeNode;
      YoungIsFresh(link.net, meant[k].m);
    }

    method DataIn(seqNo: int, p: Packet, ghost x: nat)
      requires Valid() && seqNo == Wrap(x) && Data(x, p) in link.net.wire && Fresh(link.net, Data(x, p))
      modifies this, repr
      ensures Valid() && fresh(repr - old(repr))
      ensures link.net == old(link.net) || Makes(old(link.net), Deliver(Data(x, p)), link.net)
      ensures Passes(old(Now()), Now())
    {
      hide Connection.Valid, Connection.Fixed, Makes, Air, Later, MaxWindow, Wrap, Fresh, EncodeNode, Age, Means, Passes;
      ghost var n, t := link.net, Now();
      MayReceive();
      var taken, nak;
      ghost var report;
      ghost var units := link.receiver.rcvBuffer.queue.place.Keys;
      taken, nak, report := link.Datagram(seqNo, p, x);
      ghost var added := link.receiver.rcvBuffer.queue.place.Keys - units;
      SteppedOrNot(n, Deliver(Data(x, p)), link.net);
      Advance(accepted, given, added, n, link.receiver.acks, link.acked);
      if nak == [] {
        PassesQuietly(t, Now());
      } else {
        NakMeans(link.net, link.receiver.acks, link.acked, nak, report, clock);
        Emit(Flying(NakGram(nak), clock), Meaning(Control(report), 0));
        PassesWith(t, Now(), Meaning(Control(report), 0));
      }
    }

    method AckIn(no: int, ack: int, window: int, since: nat, ghost w: Meaning)
      requires Valid() && Means(link.net, link.receiver.acks, link.acked, Flying(FullGram(no, ack, window), since), w, clock)
      requires w.m.Control? && w.m.report.FullAck? && w.m.report.w == window && ack == Wrap(w.m.report.a)
      requires w.m in link.net.wire && Fresh(link.net, w.m)
      modifies this, repr
      ensures Valid() && fresh(repr - old(repr))
      ensures Makes(old(link.net), Deliver(w.m), link.net) && Passes(old(Now()), Now())
    {
      hide Valid, Wrap, Fresh, Means, MaxWindow, Passes, Makes;
      ghost var n, t := link.net, Now();
      AckStep(ack, window, w.m.report.a);
      Ack2Means(n, link.net, link.receiver.acks, link.acked, Flying(FullGram(no, ack, window), since), w, old(clock));
      Emit(Flying(Ack2Gram(no), since), Meaning(Control(Protocol.AckOfAck(w.m.report.a)), w.i));
      PassesWith(t, Now(), Meaning(Control(Protocol.AckOfAck(w.m.report.a)), w.i));
    }

    method AckStep(ack: int, window: int, ghost a: nat)
      requires Valid() && ack == Wrap(a)
      requires Control(Protocol.FullAck(a, window)) in link.net.wire && Fresh(link.net, Control(Protocol.FullAck(a, window)))
      modifies this, repr
      ensures Valid() && fresh(repr - old(repr)) && clock == old(clock) + 1
      ensures Makes(old(link.net), Deliver(Control(Protocol.FullAck(a, window))), link.net)
      ensures link.receiver.acks == old(link.receiver.acks) && link.acked == old(link.acked)
      ensures link.net.s.sent == old(link.net.s.sent) && MaxWindow(link.net) == MaxWindow(old(link.net))
      ensures link.net.wire == old(link.net.wire) + {Control(Protocol.AckOfAck(a))} && air == old(air) && meant == old(meant)
    {
      hide Connection.Valid, Makes, Air, Later, MaxWindow, Wrap, Fresh;
      ghost var n := link.net;
      link.AckArrives(ack, window, a);
      Stepped(n, Deliver(Control(Protocol.FullAck(a, window))), link.net);
      Advance(accepted, given, {}, n, link.receiver.acks, link.acked);
    }

    method LightIn(ack: int, ghost a: nat)
      requires Valid() && ack == Wrap(a) && Control(Protocol.LightAck(a)) in link.net.wire && Fresh(link.net, Control(Protocol.LightAck(a)))
      modifies this, repr
      ensures Valid() && fresh(repr - old(repr))
      ensures Makes(old(link.net), Deliver(Control(Protocol.LightAck(a))), link.net) && Passes(old(Now()), Now())
    {
      hide Connection.Valid, Makes, Air, Later, MaxWindow, Wrap, Fresh;
      ghost var n := link.net;
      link.LightAckArrives(ack, a);
      Stepped(n, Deliver(Control(Protocol.LightAck(a))), link.net);
      Advance(accepted, given, {}, n, link.receiver.acks, link.acked);
    }

    method NakIn(words: seq<int>, ghost lo: nat, ghost hi: nat)
      requires Valid() && words == EncodeNode(Node(lo, hi))
      requires Control(Protocol.LossReport(lo, hi)) in link.net.wire && Fresh(link.net, Control(Protocol.LossReport(lo, hi)))
      modifies this, repr
      ensures Valid() && fresh(repr - old(repr))
      ensures Makes(old(link.net), Deliver(Control(Protocol.LossReport(lo, hi))), link.net) && Passes(old(Now()), Now())
    {
      hide Connection.Valid, Makes, Air, Later, MaxWindow, Wrap, Fresh, EncodeNode;
      ghost var n := link.net;
      link.NakArrives(words, lo, hi);
      Stepped(n, Deliver(Control(Protocol.LossReport(lo, hi))), link.net);
      Advance(accepted, given, {}, n, link.receiver.acks, link.acked);
    }

    method Ack2In(no: int, now: int, ghost a: nat, ghost i: nat)
      requires Valid() && i < |link.acked| == |link.receiver.acks| && link.acked[i] == a && no == link.receiver.acks[i].seqNo
      requires |link.acked| - i < THRESHOLD && Control(Protocol.AckOfAck(a)) in link.net.wire && Fresh(link.net, Control(Protocol.AckOfAck(a)))
      modifies this, repr
      ensures Valid() && fresh(repr - old(repr))
      ensures link.net == old(link.net) || Makes(old(link.net), Deliver(Control(Protocol.AckOfAck(a))), link.net)
      ensures Passes(old(Now()), Now())
    {
      hide Connection.Valid, Makes, Air, Later, MaxWindow, Wrap, Fresh;
      ghost var n := link.net;
      link.Ack2Arrives(no, now, i);
      SteppedOrNot(n, Deliver(Control(Protocol.AckOfAck(a))), link.net);
      Advance(accepted, given, {}, n, link.receiver.acks, link.acked);
    }

    /** One call, whichever. */
    method Do(call: Call)
      requires Valid()
      modifies this, repr
      ensures Valid() && fresh(repr - old(repr))
      ensures Follows(old(Now()), call, lifetime, link.net) && Passes(old(Now()), Now())
    {
      hide Valid, Makes;
      match call
      case Send(data) => SendMessage(data);
      case Pack(cwnd) => PackPacket(cwnd);
      case CheckTimers => Timers();
      case Acknowledge(light, recent, now) => SendAck(light, recent, now);
      case Read(len) => ReadMessage(len);
      case Arrive(k, now) => Arrival(k, now);
    }

    /** Any calls, one after the other. */
    method DoAll(calls: seq<Call>) returns (ghost ts: seq<Moment>)
      requires Valid()
      modifies this, repr
      ensures Valid() && fresh(repr - old(repr))
      ensures IsRun(ts, calls, lifetime) && ts[0] == old(Now()) && ts[|calls|] == Now()
    {
      hide Valid, Follows, Passes;
      ts := [Now()];
      for k := 0 to |calls|
        invariant Valid() && fresh(repr - old(repr))
        invariant IsRun(ts, calls[..k], lifetime) && ts[0] == old(Now()) && ts[k] == Now()
      {
        Do(calls[k]);
        RunsOn(ts, calls, k, lifetime, Now());
        ts := ts + [Now()];
      }
      assert calls[..|calls|] == calls;
    }

    lemma Recorded()
      requires Valid()
      ensures link.net.msgs == accepted && link.net.r.delivered == given
    {
    }

    lemma InOrder()
      requires Valid()
      ensures Prefix(given, accepted)
    {
      hide Sender.Valid, Receiver.Valid, Inv, Air, Take;
      Parts(link.net);
    }
  }

  /** What has been given out is what was accepted first, in order, each message as far as it fitted into the buffer it was
      read into. */
  predicate Prefix(given: seq<(seq<byte>, nat)>, accepted: seq<seq<byte>>) {
    |given| <= |accepted| && forall i :: 0 <= i < |given| ==> given[i].0 == Take(accepted[i], given[i].1)
  }

  lemma SteppedOrNot(n: Net, act: Act, n1: Net)
    requires n1 == n || Makes(n, act, n1)
    ensures Later(n, n1) && MaxWindow(n1) == MaxWindow(n)
    ensures !act.Send? ==> n1.msgs == n.msgs
    ensures !act.Recv? ==> n1.r.delivered == n.r.delivered
  {
    if n1 != n {
      Stepped(n, act, n1);
    }
    hide MaxWindow;
  }

  lemma RunsOn(ts: seq<Moment>, calls: seq<Call>, k: nat, lifetime: nat, t: Moment)
    requires k < |calls| && IsRun(ts, calls[..k], lifetime) && Follows(ts[k], calls[k], lifetime, t.net) && Passes(ts[k], t)
    ensures IsRun(ts + [t], calls[..k + 1], lifetime)
  {
    hide Follows, Passes;
  }

  /** Whatever has been sent in a run is in the air: it may still arrive, unless it is too old. */
  lemma {:induction false} AllCarried(ts: seq<Moment>, calls: seq<Call>, lifetime: nat, k: nat)
    requires IsRun(ts, calls, lifetime) && k <= |calls| && ts[0].net.wire == {}
    ensures forall m :: m in ts[k].net.wire ==> Carried(ts[k].meant, m)
  {
    hide Follows;
    if k > 0 {
      AllCarried(ts, calls, lifetime, k - 1);
      var (t, t1) := (ts[k - 1], ts[k]);
      assert Passes(t, t1);
      forall m | m in t1.net.wire
        ensures Carried(t1.meant, m)
      {
        if m in t.net.wire {
          var i :| 0 <= i < |t.meant| && t.meant[i].m == m;
          assert t1.meant[i].m == m;
        }
      }
    }
  }

  /** Any sequence of calls on two ends that have just shaken hands, with any loss, duplication and reordering in between:
      the receiving application is given the messages that the sending one got accepted, in order. */
  method EveryRun(isn: nat, mss: nat, limit: nat, blocks: nat, window: int, poolSize: nat, bufSize: nat, flightSize: nat,
                  lifetime: nat, calls: seq<Call>)
    returns (accepted: seq<seq<byte>>, given: seq<(seq<byte>, nat)>, ghost ts: seq<Moment>)
    requires IsSeqNo(isn) && mss > 0 && blocks > 0 && poolSize > 0 && 0 < bufSize <= flightSize && flightSize + 1 < THRESHOLD
    requires 0 < window && bufSize - 1 <= 2 * window && lifetime + window < THRESHOLD - 1 && lifetime + bufSize < THRESHOLD
    ensures IsRun(ts, calls, lifetime) && ts[0] == Moment(Networks.Start(isn, mss, limit, bufSize, window), [], [], 0)
    ensures accepted == ts[|calls|].net.msgs && given == ts[|calls|].net.r.delivered
    ensures Prefix(given, accepted)
  {
    var world := Begin(isn, mss, limit, blocks, window, poolSize, bufSize, flightSize, lifetime);
    hide World.Valid, IsRun, Networks.Start;
    ts := world.DoAll(calls);
    world.Recorded();
    world.InOrder();
    accepted, given := world.accepted, world.given;
  }

  lemma StartFacts(isn: nat, mss: nat, limit: nat, size: nat, initial: int)
    requires mss > 0 && size > 0
    ensures var n := Networks.Start(isn, mss, limit, size, initial);
            n.msgs == [] && n.r.delivered == [] && (MaxWindow(n) <= initial || MaxWindow(n) <= 2 || MaxWindow(n) <= size - 1)
  {
    hide Inv;
  }

  method Begin(isn: nat, mss: nat, limit: nat, blocks: nat, window: int, poolSize: nat, bufSize: nat, flightSize: nat, lifetime: nat)
    returns (world: World)
    requires IsSeqNo(isn) && mss > 0 && blocks > 0 && poolSize > 0 && 0 < bufSize <= flightSize && flightSize + 1 < THRESHOLD
    requires 0 < window && bufSize - 1 <= 2 * window && lifetime + window < THRESHOLD - 1 && lifetime + bufSize < THRESHOLD
    ensures world.Valid() && fresh(world.repr) && world.lifetime == lifetime
    ensures world.Now() == Moment(Networks.Start(isn, mss, limit, bufSize, window), [], [], 0)
  {
    hide Connection.Valid, Connection.Repr, World.Valid, Inv, Networks.Start, MaxWindow;
    StartFacts(isn, mss, limit, bufSize, window);
    var link := NewLink(isn, mss, limit, blocks, window, poolSize, bufSize, flightSize);
    world := new World(link, lifetime);
  }

  method NewLink(isn: nat, mss: nat, limit: nat, blocks: nat, window: int, poolSize: nat, bufSize: nat, flightSize: nat)
    returns (link: Connection)
    requires IsSeqNo(isn) && mss > 0 && blocks > 0 && poolSize > 0 && 0 < bufSize <= flightSize && flightSize + 1 < THRESHOLD
    requires 0 < window && window + 1 < THRESHOLD && bufSize - 1 <= 2 * window
    ensures link.Valid() && fresh(link.Repr()) && link.net == Networks.Start(isn, mss, limit, bufSize, window)
    ensures link.acked == [] && link.receiver.acks == []
  {
    hide Connection.Valid, UnitQueue.Valid, Inv, Networks.Start;
    var queue := new UnitQueue(poolSize);
    link := new Connection(isn, mss, limit, blocks, window, queue, bufSize, flightSize);
  }
}
