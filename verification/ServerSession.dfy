/** One client's session in the 9P server (server/src/np/client.rs, handle_client): requests are answered in any order,
    at most MAX_IN_FLIGHT at a time; a Tflush waits for the request it names; a Tversion waits for everything.

    Requests are numbered in the order in which they are accepted. */
module ServerSessions {

  const MAX_IN_FLIGHT: nat := 16
  const NOTAG: nat := 0xFFFF

  datatype Kind = Plain | Flush(oldtag: nat) | Version(msize: nat) | Malformed

  datatype Request = Request(tag: nat, kind: Kind)

  /** The Tflush that waits for a future, if any. */
  datatype Waiting = Nobody | Flusher(id: nat, tag: nat)

  /** A request being worked on. */
  datatype Future = Future(id: nat, tag: nat, flushes: Waiting)

  /** An answer that has been sent; fids: the fid table at that time. */
  datatype Answer = Answer(id: nat, tag: nat, fids: set<nat>)

  datatype Reset = NoReset | NextSession(id: nat, msize: nat)

  /** reqs: all requests accepted; lost: those that will never be answered.  Both are kept for the proofs only. */
  datatype Session = Session(initialized: bool, reset: Reset, inflight: seq<Future>, fids: set<nat>,
                             sent: seq<Answer>, reqs: seq<Request>, lost: seq<nat>)

  datatype Event =
    | Arrive(req: Request, pick: nat) // a message has come in; pick: where a Tflush finds its future, if that one will do
    | ArriveUnreadable          // one that is too short to have a tag
    | Finish(i: nat)            // a request has been worked out
    | Dispatch(table: set<nat>) // a request that is being worked on changes the fid table
    | NewSession                // the top of the loop, when a reset is due

  function Start(): Session {
    Session(false, NoReset, [], {}, [], [], [])
  }

  predicate Listens(s: Session) {
    |s.inflight| < MAX_IN_FLIGHT && s.reset == NoReset
  }

  /** Anything before the first Tversion is thrown away. */
  predicate Ignores(s: Session, req: Request) {
    !s.initialized && !req.kind.Version?
  }

  /** The place of a future with a tag, or the number of futures if there is none.  The futures are kept in no particular
      order, so if several have the tag it may be any of them: the picked one, if it has. */
  function Find(inflight: seq<Future>, tag: nat, pick: nat): (i: nat)
    ensures i <= |inflight| && (i < |inflight| ==> inflight[i].tag == tag)
    ensures i == |inflight| ==> forall k :: 0 <= k < |inflight| ==> inflight[k].tag != tag
    ensures pick < |inflight| && inflight[pick].tag == tag ==> i == pick
  {
    if pick < |inflight| && inflight[pick].tag == tag then pick else First(inflight, tag)
  }

  function First(inflight: seq<Future>, tag: nat): (i: nat)
    ensures i <= |inflight| && (forall k :: 0 <= k < i ==> inflight[k].tag != tag) && (i < |inflight| ==> inflight[i].tag == tag)
  {
    if inflight == [] || inflight[0].tag == tag then 0 else 1 + First(inflight[1..], tag)
  }

  function Accept(s: Session, req: Request, pick: nat): Session {
    var id := |s.reqs|;
    var s1 := s.(reqs := s.reqs + [req]);
    if req.kind.Version? && req.tag == NOTAG then s1.(reset := NextSession(id, req.kind.msize))
    else if req.kind.Flush? && Find(s.inflight, req.kind.oldtag, pick) < |s.inflight| then
      var i := Find(s.inflight, req.kind.oldtag, pick);
      s1.(inflight := s.inflight[i := s.inflight[i].(flushes := Flusher(id, req.tag))],
          lost := s.lost + Ids(s.inflight[i].flushes))
    else s1.(inflight := s.inflight + [Future(id, req.tag, Nobody)])
  }

  function Ids(w: Waiting): seq<nat> {
    if w.Nobody? then [] else [w.id]
  }

  /** The answers a finished future sends: its own, and right after it the Rflush of the Tflush waiting for it. */
  function Answers(f: Future, fids: set<nat>): seq<Answer> {
    [Answer(f.id, f.tag, fids)] + if f.flushes.Nobody? then [] else [Answer(f.flushes.id, f.flushes.tag, fids)]
  }

  function Step(s: Session, e: Event): Session {
    match e
    case Arrive(req, pick) => if Listens(s) && !Ignores(s, req) then Accept(s, req, pick) else s
    case ArriveUnreadable => s
    case Finish(i) =>
      if i < |s.inflight| then
        s.(inflight := s.inflight[..i] + s.inflight[i + 1..], sent := s.sent + Answers(s.inflight[i], s.fids))
      else s
    case Dispatch(table) => if s.inflight != [] then s.(fids := table) else s
    case NewSession =>
      if s.inflight == [] && s.reset.NextSession? then
        s.(fids := {}, sent := s.sent + [Answer(s.reset.id, NOTAG, {})], reset := NoReset,
           initialized := s.initialized || s.reset.msize >= 256)
      else s
  }

  function Run(s: Session, events: seq<Event>): Session
    decreases |events|
  {
    if events == [] then s else Run(Step(s, events[0]), events[1..])
  }

  // ----- every accepted request is somewhere, once

  function Is(a: nat, b: nat): nat {
    if a == b then 1 else 0
  }

  /** How often request x has been answered. */
  function InSent(sent: seq<Answer>, x: nat): nat {
    if sent == [] then 0 else InSent(sent[..|sent| - 1], x) + Is(sent[|sent| - 1].id, x)
  }

  function InWaiting(w: Waiting, x: nat): nat {
    if w.Nobody? then 0 else Is(w.id, x)
  }

  /** How often request x is being worked on, or waits as a Tflush. */
  function InFutures(inflight: seq<Future>, x: nat): nat {
    if inflight == [] then 0 else Is(inflight[0].id, x) + InWaiting(inflight[0].flushes, x) + InFutures(inflight[1..], x)
  }

  function InLost(lost: seq<nat>, x: nat): nat {
    if lost == [] then 0 else InLost(lost[..|lost| - 1], x) + Is(lost[|lost| - 1], x)
  }

  function InReset(r: Reset, x: nat): nat {
    if r.NoReset? then 0 else Is(r.id, x)
  }

  function Places(s: Session, x: nat): nat {
    InSent(s.sent, x) + InFutures(s.inflight, x) + InReset(s.reset, x) + InLost(s.lost, x)
  }

  lemma {:induction false} FuturesAdd(inflight: seq<Future>, f: Future, x: nat)
    ensures InFutures(inflight + [f], x) == InFutures(inflight, x) + Is(f.id, x) + InWaiting(f.flushes, x)
  {
    if inflight == [] {
      assert [f][1..] == [];
      assert inflight + [f] == [f];
    } else {
      FuturesAdd(inflight[1..], f, x);
      assert (inflight + [f])[1..] == inflight[1..] + [f];
    }
  }

  lemma {:induction false} FuturesTake(inflight: seq<Future>, i: nat, x: nat)
    requires i < |inflight|
    ensures InFutures(inflight, x) == InFutures(inflight[..i] + inflight[i + 1..], x) + Is(inflight[i].id, x) + InWaiting(inflight[i].flushes, x)
  {
    if i == 0 {
      assert inflight[..0] + inflight[1..] == inflight[1..];
    } else {
      FuturesTake(inflight[1..], i - 1, x);
      var rest := inflight[..i] + inflight[i + 1..];
      assert rest[0] == inflight[0] && rest[1..] == inflight[1..][..i - 1] + inflight[1..][i..];
    }
  }

  lemma {:induction false} FuturesFlush(inflight: seq<Future>, i: nat, w: Waiting, x: nat)
    requires i < |inflight|
    ensures InFutures(inflight[i := inflight[i].(flushes := w)], x) + InWaiting(inflight[i].flushes, x) == InFutures(inflight, x) + InWaiting(w, x)
  {
    var after := inflight[i := inflight[i].(flushes := w)];
    if i == 0 {
      assert after[1..] == inflight[1..];
    } else {
      FuturesFlush(inflight[1..], i - 1, w, x);
      assert after[1..] == inflight[1..][i - 1 := inflight[i].(flushes := w)];
    }
  }

  lemma SentOne(sent: seq<Answer>, a: Answer, x: nat)
    ensures InSent(sent + [a], x) == InSent(sent, x) + Is(a.id, x)
  {
    assert (sent + [a])[..|sent|] == sent;
  }

  lemma SentAnswers(sent: seq<Answer>, f: Future, fids: set<nat>, x: nat)
    ensures InSent(sent + Answers(f, fids), x) == InSent(sent, x) + Is(f.id, x) + InWaiting(f.flushes, x)
  {
    var a := Answer(f.id, f.tag, fids);
    SentOne(sent, a, x);
    if f.flushes.Flusher? {
      var b := Answer(f.flushes.id, f.flushes.tag, fids);
      SentOne(sent + [a], b, x);
      assert sent + [a] + [b] == sent + Answers(f, fids);
    }
  }

  lemma LostMore(lost: seq<nat>, w: Waiting, x: nat)
    ensures InLost(lost + Ids(w), x) == InLost(lost, x) + InWaiting(w, x)
  {
    if w.Flusher? {
      assert (lost + [w.id])[..|lost|] == lost;
    } else {
      assert lost + [] == lost;
    }
  }

  /** A step moves requests around, and adds the one it accepts. */
  lemma StepMoves(s: Session, e: Event, x: nat)
    ensures Places(Step(s, e), x) == Places(s, x) + if |Step(s, e).reqs| > |s.reqs| then Is(|s.reqs|, x) else 0
  {
    hide InSent, InFutures, InLost, Answers, Accept;
    match e
    case Arrive(req, pick) =>
      if Listens(s) && !Ignores(s, req) {
        AcceptMoves(s, req, pick, x);
      }
    case Finish(i) =>
      if i < |s.inflight| {
        FuturesTake(s.inflight, i, x);
        SentAnswers(s.sent, s.inflight[i], s.fids, x);
      }
    case NewSession =>
      if s.inflight == [] && s.reset.NextSession? {
        SentOne(s.sent, Answer(s.reset.id, NOTAG, {}), x);
      }
    case _ =>
  }

  lemma AcceptMoves(s: Session, req: Request, pick: nat, x: nat)
    requires Listens(s)
    ensures Places(Accept(s, req, pick), x) == Places(s, x) + Is(|s.reqs|, x) && |Accept(s, req, pick).reqs| == |s.reqs| + 1
  {
    hide InSent, InFutures, InLost;
    var id := |s.reqs|;
    if req.kind.Flush? {
      var i := Find(s.inflight, req.kind.oldtag, pick);
      if i < |s.inflight| {
        FuturesFlush(s.inflight, i, Flusher(id, req.tag), x);
        LostMore(s.lost, s.inflight[i].flushes, x);
      }
    }
    FuturesAdd(s.inflight, Future(id, req.tag, Nobody), x);
  }

  /** Every accepted request is in exactly one place, once: answered, being worked on or waiting, due as a reset, or lost. */
  ghost predicate Conserved(s: Session) {
    && (forall x: nat :: Places(s, x) == if x < |s.reqs| then 1 else 0)
    && |s.inflight| <= MAX_IN_FLIGHT
    && (s.reset.NextSession? ==> s.reset.id + 1 == |s.reqs| && s.reqs[s.reset.id].kind.Version?)
  }

  lemma StepConserves(s: Session, e: Event)
    requires Conserved(s)
    ensures Conserved(Step(s, e))
  {
    var s1 := Step(s, e);
    forall x: nat
      ensures Places(s1, x) == if x < |s1.reqs| then 1 else 0
    {
      StepMoves(s, e, x);
    }
  }

  ghost predicate StandsFor(f: Future, x: nat) {
    f.id == x || (f.flushes.Flusher? && f.flushes.id == x)
  }

  lemma {:induction false} FuturesHave(inflight: seq<Future>, x: nat)
    ensures InFutures(inflight, x) > 0 <==> exists i :: 0 <= i < |inflight| && StandsFor(inflight[i], x)
  {
    if inflight != [] {
      FuturesHave(inflight[1..], x);
      forall i | 0 <= i < |inflight| - 1
        ensures inflight[1..][i] == inflight[i + 1]
      {
      }
      if StandsFor(inflight[0], x) {
      } else if i :| 0 <= i < |inflight| && StandsFor(inflight[i], x) {
        assert StandsFor(inflight[1..][i - 1], x);
      }
    }
  }

  /** Request x is among the first k answers. */
  ghost predicate Answered(sent: seq<Answer>, k: nat, x: nat) {
    exists j :: 0 <= j < k && j < |sent| && sent[j].id == x
  }

  lemma {:induction false} SentHas(sent: seq<Answer>, x: nat)
    ensures InSent(sent, x) > 0 <==> Answered(sent, |sent|, x)
  {
    if sent != [] {
      var n := |sent| - 1;
      SentHas(sent[..n], x);
      if Answered(sent, |sent|, x) && sent[n].id != x {
        var j :| 0 <= j < |sent| && sent[j].id == x;
        assert sent[..n][j].id == x;
      }
      if Answered(sent[..n], n, x) {
        var j :| 0 <= j < n && sent[..n][j].id == x;
        assert sent[j].id == x;
      }
    }
  }

  /** The request ends the session. */
  predicate Resets(req: Request) {
    req.kind.Version? && req.tag == NOTAG
  }

  /** Futures, resets and answers carry the tags of the requests they stand for. */
  ghost predicate FutureOk(f: Future, reqs: seq<Request>) {
    && f.id < |reqs| && f.tag == reqs[f.id].tag && !Resets(reqs[f.id])
    && (f.flushes.Flusher? ==> f.flushes.id < |reqs| && reqs[f.flushes.id] == Request(f.flushes.tag, Flush(f.tag)))
  }

  ghost predicate Faithful(s: Session) {
    && (forall i :: 0 <= i < |s.inflight| ==> FutureOk(s.inflight[i], s.reqs))
    && (s.reset.NextSession? ==> s.reset.id < |s.reqs| && s.reqs[s.reset.id] == Request(NOTAG, Version(s.reset.msize)))
    && (forall k :: 0 <= k < |s.sent| ==> s.sent[k].id < |s.reqs| && s.sent[k].tag == s.reqs[s.sent[k].id].tag)
  }

  lemma StepFaithful(s: Session, e: Event)
    requires Faithful(s)
    ensures Faithful(Step(s, e))
  {
  }

  /** Before answer k, which ends the session, everything else has been answered, and the fid table is empty. */
  ghost predicate ResetClean(s: Session, k: nat)
    requires k < |s.sent|
  {
    s.sent[k].fids == {} && forall x :: 0 <= x < s.sent[k].id ==> Answered(s.sent, k, x) || InLost(s.lost, x) > 0
  }

  ghost predicate ResetsClean(s: Session) {
    forall k :: 0 <= k < |s.sent| && s.sent[k].id < |s.reqs| && Resets(s.reqs[s.sent[k].id]) ==> ResetClean(s, k)
  }

  lemma StepResets(s: Session, e: Event)
    requires Conserved(s) && Faithful(s) && ResetsClean(s)
    ensures ResetsClean(Step(s, e))
  {
    var s1 := Step(s, e);
    StepFaithful(s, e);
    forall k | 0 <= k < |s1.sent| && s1.sent[k].id < |s1.reqs| && Resets(s1.reqs[s1.sent[k].id])
      ensures ResetClean(s1, k)
    {
      if k < |s.sent| {
        assert s1.sent[k] == s.sent[k] && ResetClean(s, k);
        forall x | 0 <= x < s1.sent[k].id
          ensures Answered(s1.sent, k, x) || InLost(s1.lost, x) > 0
        {
          StepLoses(s, e, x);
          if Answered(s.sent, k, x) {
            var j :| 0 <= j < k && s.sent[j].id == x;
            assert s1.sent[j].id == x;
          }
        }
      } else {
        assert e.NewSession?;
        forall x | 0 <= x < s1.sent[k].id
          ensures Answered(s1.sent, k, x) || InLost(s1.lost, x) > 0
        {
          assert Places(s, x) == 1;
          SentHas(s.sent, x);
          if Answered(s.sent, |s.sent|, x) {
            var j :| 0 <= j < |s.sent| && s.sent[j].id == x;
            assert s1.sent[j].id == x;
          }
        }
      }
    }
  }

  /** The event is a Tflush that is accepted and finds a future which the Tflush x waits for already. */
  predicate Overwrites(s: Session, e: Event, x: nat) {
    && e.Arrive? && Listens(s) && !Ignores(s, e.req) && e.req.kind.Flush?
    && var i := Find(s.inflight, e.req.kind.oldtag, e.pick);
       i < |s.inflight| && s.inflight[i].flushes.Flusher? && s.inflight[i].flushes.id == x
  }

  lemma StepLoses(s: Session, e: Event, x: nat)
    ensures InLost(Step(s, e).lost, x) == InLost(s.lost, x) + if Overwrites(s, e, x) then 1 else 0
  {
    if e.Arrive? && e.req.kind.Flush? {
      var i := Find(s.inflight, e.req.kind.oldtag, e.pick);
      if i < |s.inflight| {
        LostMore(s.lost, s.inflight[i].flushes, x);
      }
    }
  }

  // ----- flushes

  /** Request x has been accepted and not answered. */
  ghost predicate Outstanding(s: Session, x: nat) {
    x < |s.reqs| && InFutures(s.inflight, x) > 0
  }

  /** What the protocol asks of a client: a tag that is not in use; at most one outstanding Tflush for a tag; and no
      Tflush that names a Tflush. */
  ghost predicate Obeys(s: Session, req: Request) {
    && (forall x: nat :: Outstanding(s, x) ==> s.reqs[x].tag != req.tag)
    && (req.kind.Flush? ==> forall x: nat :: Outstanding(s, x) && s.reqs[x].kind.Flush? ==> s.reqs[x].kind != req.kind && s.reqs[x].tag != req.kind.oldtag)
  }

  ghost predicate AllObey(s: Session, events: seq<Event>)
    decreases |events|
  {
    events != [] ==>
      && (events[0].Arrive? && Listens(s) && !Ignores(s, events[0].req) ==> Obeys(s, events[0].req))
      && AllObey(Step(s, events[0]), events[1..])
  }

  ghost predicate DistinctTags(s: Session) {
    forall x: nat, y: nat :: Outstanding(s, x) && Outstanding(s, y) && x != y ==> s.reqs[x].tag != s.reqs[y].tag
  }

  /** All requests with a tag that came before request f have been answered, among the first k answers, except for one. */
  ghost predicate Cleared(s: Session, f: nat, tag: nat, k: nat, exception: int) {
    forall x :: 0 <= x < f && x < |s.reqs| && s.reqs[x].tag == tag ==> x == exception || Answered(s.sent, k, x)
  }

  /** Future f: the requests before its Tflush, or before itself if it is one, have been answered - except for itself. */
  ghost predicate FlushesNext(s: Session, f: Future) {
    && (f.flushes.Flusher? ==> Cleared(s, f.flushes.id, f.tag, |s.sent|, f.id))
    && (f.id < |s.reqs| && s.reqs[f.id].kind.Flush? ==> Cleared(s, f.id, s.reqs[f.id].kind.oldtag, |s.sent|, -1))
  }

  ghost predicate FlushDone(s: Session, k: nat)
    requires k < |s.sent|
  {
    var id := s.sent[k].id;
    id < |s.reqs| && s.reqs[id].kind.Flush? ==> Cleared(s, id, s.reqs[id].kind.oldtag, k, -1)
  }

  ghost predicate FlushesInOrder(s: Session) {
    && s.lost == [] && DistinctTags(s)
    && (forall i :: 0 <= i < |s.inflight| ==> FlushesNext(s, s.inflight[i]))
    && (forall k :: 0 <= k < |s.sent| ==> FlushDone(s, k))
  }

  /** A longer list of answers clears as much. */
  lemma StillCleared(s: Session, s1: Session, f: nat, tag: nat, k: nat, k1: nat, exception: int)
    requires Cleared(s, f, tag, k, exception) && s.sent <= s1.sent && k <= |s.sent| && k <= k1
    requires s.reqs <= s1.reqs && f <= |s.reqs|
    ensures Cleared(s1, f, tag, k1, exception)
  {
    forall x | 0 <= x < f && x < |s1.reqs| && s1.reqs[x].tag == tag
      ensures x == exception || Answered(s1.sent, k1, x)
    {
      if x != exception {
        var j :| 0 <= j < k && j < |s.sent| && s.sent[j].id == x;
        assert s1.sent[j].id == x;
      }
    }
  }

  /** What is outstanding after a step. */
  lemma OutstandingAfter(s: Session, e: Event, x: nat)
    requires Conserved(s) && Outstanding(Step(s, e), x)
    ensures Outstanding(s, x) || (e.Arrive? && Listens(s) && !Ignores(s, e.req) && x == |s.reqs|)
  {
    match e
    case Arrive(req, pick) =>
      if Listens(s) && !Ignores(s, req) {
        var id := |s.reqs|;
        if req.kind.Flush? {
          var i := Find(s.inflight, req.kind.oldtag, pick);
          if i < |s.inflight| {
            FuturesFlush(s.inflight, i, Flusher(id, req.tag), x);
          }
        }
        FuturesAdd(s.inflight, Future(id, req.tag, Nobody), x);
      }
    case Finish(i) =>
      if i < |s.inflight| {
        FuturesTake(s.inflight, i, x);
      }
    case _ =>
  }

  lemma StepDistinct(s: Session, e: Event)
    requires Conserved(s) && Faithful(s) && DistinctTags(s)
    requires e.Arrive? && Listens(s) && !Ignores(s, e.req) ==> Obeys(s, e.req)
    ensures DistinctTags(Step(s, e))
  {
    var s1 := Step(s, e);
    forall x: nat, y: nat | Outstanding(s1, x) && Outstanding(s1, y) && x != y
      ensures s1.reqs[x].tag != s1.reqs[y].tag
    {
      OutstandingAfter(s, e, x);
      OutstandingAfter(s, e, y);
    }
  }

  /** When a Tflush is accepted, everything with the tag it names has been answered, except for the future it finds. */
  lemma ClearedNow(s: Session, old_: nat, pick: nat)
    requires Conserved(s) && Faithful(s) && FlushesInOrder(s) && Listens(s)
    requires forall x: nat :: Outstanding(s, x) && s.reqs[x].kind.Flush? ==> s.reqs[x].tag != old_
    ensures var i := Find(s.inflight, old_, pick);
            Cleared(s, |s.reqs|, old_, |s.sent|, if i < |s.inflight| then s.inflight[i].id else -1)
  {
    var i := Find(s.inflight, old_, pick);
    forall x | 0 <= x < |s.reqs| && s.reqs[x].tag == old_
      ensures (i < |s.inflight| && x == s.inflight[i].id) || Answered(s.sent, |s.sent|, x)
    {
      assert Places(s, x) == 1;
      SentHas(s.sent, x);
      if InSent(s.sent, x) == 0 {
        assert Outstanding(s, x);
        FuturesHave(s.inflight, x);
        var j :| 0 <= j < |s.inflight| && StandsFor(s.inflight[j], x);
        assert FutureOk(s.inflight[j], s.reqs);
        assert x == s.inflight[j].id;
        assert i < |s.inflight|;
        FuturesHave(s.inflight, s.inflight[i].id);
        assert StandsFor(s.inflight[i], s.inflight[i].id);
        assert FutureOk(s.inflight[i], s.reqs);
        assert Outstanding(s, s.inflight[i].id);
      }
    }
  }

  /** A future that a step leaves alone. */
  lemma SameFuture(s: Session, s1: Session, f: Future)
    requires FlushesNext(s, f) && FutureOk(f, s.reqs) && s.sent <= s1.sent && s.reqs <= s1.reqs
    ensures FlushesNext(s1, f)
  {
    hide Cleared;
    if f.flushes.Flusher? {
      StillCleared(s, s1, f.flushes.id, f.tag, |s.sent|, |s1.sent|, f.id);
    }
    if s.reqs[f.id].kind.Flush? {
      StillCleared(s, s1, f.id, s.reqs[f.id].kind.oldtag, |s.sent|, |s1.sent|, -1);
    }
  }

  lemma SameAnswer(s: Session, s1: Session, k: nat)
    requires k < |s.sent| && FlushDone(s, k) && s.sent[k].id < |s.reqs| && s.sent <= s1.sent && s.reqs <= s1.reqs
    ensures FlushDone(s1, k)
  {
    hide Cleared;
    var id := s.sent[k].id;
    assert s1.sent[k] == s.sent[k] && s1.reqs[id] == s.reqs[id];
    if s.reqs[id].kind.Flush? {
      StillCleared(s, s1, id, s.reqs[id].kind.oldtag, k, k, -1);
    }
  }

  lemma FlusherOutstanding(s: Session, i: nat)
    requires Faithful(s) && i < |s.inflight| && s.inflight[i].flushes.Flusher?
    ensures Outstanding(s, s.inflight[i].flushes.id) && s.reqs[s.inflight[i].flushes.id].kind == Flush(s.inflight[i].tag)
  {
    assert FutureOk(s.inflight[i], s.reqs);
    FuturesHave(s.inflight, s.inflight[i].flushes.id);
    assert StandsFor(s.inflight[i], s.inflight[i].flushes.id);
  }

  lemma AttachKeeps(s: Session, req: Request, pick: nat)
    requires Conserved(s) && Faithful(s) && FlushesInOrder(s) && Listens(s) && Obeys(s, req)
    requires req.kind.Flush? && Find(s.inflight, req.kind.oldtag, pick) < |s.inflight|
    ensures Accept(s, req, pick).lost == []
    ensures forall k :: 0 <= k < |s.inflight| ==> FlushesNext(Accept(s, req, pick), Accept(s, req, pick).inflight[k])
  {
    var s1 := Accept(s, req, pick);
    var i := Find(s.inflight, req.kind.oldtag, pick);
    var f := s.inflight[i];
    assert FutureOk(f, s.reqs);
    assert f.flushes.Nobody? by {
      if f.flushes.Flusher? {
        FlusherOutstanding(s, i);
      }
    }
    ClearedNow(s, req.kind.oldtag, pick);
    hide Cleared, Obeys;
    forall k | 0 <= k < |s.inflight|
      ensures FlushesNext(s1, s1.inflight[k])
    {
      assert FlushesNext(s, s.inflight[k]) && FutureOk(s.inflight[k], s.reqs);
      SameFuture(s, s1, s.inflight[k]);
      if k == i {
        StillCleared(s, s1, |s.reqs|, f.tag, |s.sent|, |s1.sent|, f.id);
      }
    }
  }

  lemma JoinKeeps(s: Session, req: Request, pick: nat)
    requires Conserved(s) && Faithful(s) && FlushesInOrder(s) && Listens(s) && Obeys(s, req) && !Resets(req)
    requires req.kind.Flush? ==> Find(s.inflight, req.kind.oldtag, pick) == |s.inflight|
    ensures forall k :: 0 <= k < |s.inflight| + 1 ==> FlushesNext(Accept(s, req, pick), Accept(s, req, pick).inflight[k])
  {
    var s1 := Accept(s, req, pick);
    if req.kind.Flush? {
      ClearedNow(s, req.kind.oldtag, pick);
    }
    hide Cleared, Obeys;
    forall k | 0 <= k < |s.inflight| + 1
      ensures FlushesNext(s1, s1.inflight[k])
    {
      if k < |s.inflight| {
        assert FlushesNext(s, s.inflight[k]) && FutureOk(s.inflight[k], s.reqs);
        SameFuture(s, s1, s.inflight[k]);
      } else if req.kind.Flush? {
        StillCleared(s, s1, |s.reqs|, req.kind.oldtag, |s.sent|, |s1.sent|, -1);
      }
    }
  }

  lemma AcceptKeepsOrder(s: Session, req: Request, pick: nat)
    requires Conserved(s) && Faithful(s) && FlushesInOrder(s) && Listens(s) && !Ignores(s, req) && Obeys(s, req)
    ensures FlushesInOrder(Accept(s, req, pick))
  {
    var s1 := Accept(s, req, pick);
    assert s1 == Step(s, Arrive(req, pick));
    StepDistinct(s, Arrive(req, pick));
    hide DistinctTags, Obeys, FlushesNext, FlushDone;
    forall k | 0 <= k < |s1.sent|
      ensures FlushDone(s1, k)
    {
      assert FlushDone(s, k);
      SameAnswer(s, s1, k);
    }
    if Resets(req) {
      forall k | 0 <= k < |s1.inflight|
        ensures FlushesNext(s1, s1.inflight[k])
      {
        assert FlushesNext(s, s.inflight[k]) && FutureOk(s.inflight[k], s.reqs);
        SameFuture(s, s1, s.inflight[k]);
      }
    } else if req.kind.Flush? && Find(s.inflight, req.kind.oldtag, pick) < |s.inflight| {
      AttachKeeps(s, req, pick);
    } else {
      JoinKeeps(s, req, pick);
    }
  }

  /** The answers of a finished future: everything its Tflush, or the Tflush that it is, has to wait for is before them. */
  lemma AnswersInOrder(s: Session, i: nat)
    requires Conserved(s) && Faithful(s) && FlushesInOrder(s) && i < |s.inflight|
    ensures var s1 := Step(s, Finish(i)); forall k :: |s.sent| <= k < |s1.sent| ==> FlushDone(s1, k)
  {
    var s1 := Step(s, Finish(i));
    var f := s.inflight[i];
    var n := |s.sent|;
    assert FlushesNext(s, f) && FutureOk(f, s.reqs);
    assert s1.sent[n].id == f.id;
    forall k | n <= k < |s1.sent|
      ensures FlushDone(s1, k)
    {
      if k == n {
        if s.reqs[f.id].kind.Flush? {
          StillCleared(s, s1, f.id, s.reqs[f.id].kind.oldtag, n, n, -1);
        }
      } else {
        assert s1.sent[k].id == f.flushes.id;
        StillCleared(s, s1, f.flushes.id, f.tag, n, k, f.id);
        assert Answered(s1.sent, k, f.id);
      }
    }
  }

  lemma FinishKeepsOrder(s: Session, i: nat)
    requires Conserved(s) && Faithful(s) && FlushesInOrder(s) && i < |s.inflight|
    ensures FlushesInOrder(Step(s, Finish(i)))
  {
    var s1 := Step(s, Finish(i));
    StepDistinct(s, Finish(i));
    AnswersInOrder(s, i);
    hide DistinctTags, FlushesNext, FlushDone;
    forall k | 0 <= k < |s1.sent|
      ensures FlushDone(s1, k)
    {
      if k < |s.sent| {
        assert FlushDone(s, k);
        SameAnswer(s, s1, k);
      }
    }
    forall k | 0 <= k < |s1.inflight|
      ensures FlushesNext(s1, s1.inflight[k])
    {
      var k0 := if k < i then k else k + 1;
      assert s1.inflight[k] == s.inflight[k0];
      assert FlushesNext(s, s.inflight[k0]) && FutureOk(s.inflight[k0], s.reqs);
      SameFuture(s, s1, s.inflight[k0]);
    }
  }

  lemma QuietKeepsOrder(s: Session, e: Event)
    requires Conserved(s) && Faithful(s) && FlushesInOrder(s) && (e.Dispatch? || e.NewSession?)
    ensures FlushesInOrder(Step(s, e))
  {
    var s1 := Step(s, e);
    StepDistinct(s, e);
    hide DistinctTags, FlushesNext, Cleared;
    forall k | 0 <= k < |s1.sent|
      ensures FlushDone(s1, k)
    {
      if k < |s.sent| {
        assert FlushDone(s, k);
        SameAnswer(s, s1, k);
      }
    }
    forall k | 0 <= k < |s1.inflight|
      ensures FlushesNext(s1, s1.inflight[k])
    {
      assert FlushesNext(s, s.inflight[k]) && FutureOk(s.inflight[k], s.reqs);
      SameFuture(s, s1, s.inflight[k]);
    }
  }

  lemma StepKeepsOrder(s: Session, e: Event)
    requires Conserved(s) && Faithful(s) && FlushesInOrder(s)
    requires e.Arrive? && Listens(s) && !Ignores(s, e.req) ==> Obeys(s, e.req)
    ensures FlushesInOrder(Step(s, e))
  {
    hide Conserved, Faithful, FlushesInOrder, Obeys;
    match e
    case Arrive(req, pick) => if Listens(s) && !Ignores(s, req) { AcceptKeepsOrder(s, req, pick); }
    case Finish(i) => if i < |s.inflight| { FinishKeepsOrder(s, i); }
    case Dispatch(_) => QuietKeepsOrder(s, e);
    case NewSession => QuietKeepsOrder(s, e);
    case ArriveUnreadable =>
  }

  // ----- the theorems

  lemma {:induction false} AnyRunFrom(s: Session, events: seq<Event>)
    requires Conserved(s) && Faithful(s) && ResetsClean(s)
    ensures var s1 := Run(s, events); Conserved(s1) && Faithful(s1) && ResetsClean(s1)
    decreases |events|
  {
    hide Conserved, Faithful, ResetsClean, Step;
    if events != [] {
      StepConserves(s, events[0]);
      StepFaithful(s, events[0]);
      StepResets(s, events[0]);
      AnyRunFrom(Step(s, events[0]), events[1..]);
    }
  }

  /** Whatever the client does: every accepted request is answered once, or still outstanding, or lost, and never more than
      one of these; at most MAX_IN_FLIGHT are worked on; and a session-resetting Tversion is answered after everything
      before it, with an empty fid table. */
  lemma AnyRun(events: seq<Event>)
    ensures var s := Run(Start(), events);
            && (forall x: nat :: Places(s, x) == if x < |s.reqs| then 1 else 0)
            && |s.inflight| <= MAX_IN_FLIGHT
            && Faithful(s) && ResetsClean(s)
  {
    AnyRunFrom(Start(), events);
  }

  lemma {:induction false} ObedientRunFrom(s: Session, events: seq<Event>)
    requires Conserved(s) && Faithful(s) && FlushesInOrder(s) && AllObey(s, events)
    ensures FlushesInOrder(Run(s, events))
    decreases |events|
  {
    hide Conserved, Faithful, FlushesInOrder, Step, Obeys;
    if events != [] {
      StepConserves(s, events[0]);
      StepFaithful(s, events[0]);
      StepKeepsOrder(s, events[0]);
      ObedientRunFrom(Step(s, events[0]), events[1..]);
    }
  }

  /** A client that obeys the protocol loses nothing, and gets every Rflush after the answers to all requests that came
      before the Tflush and had the tag it names. */
  lemma ObedientRun(events: seq<Event>)
    requires AllObey(Start(), events)
    ensures var s := Run(Start(), events);
            && s.lost == []
            && forall k, x :: 0 <= k < |s.sent| && s.sent[k].id < |s.reqs| && s.reqs[s.sent[k].id].kind.Flush?
                 && 0 <= x < s.sent[k].id && s.reqs[x].tag == s.reqs[s.sent[k].id].kind.oldtag
                 ==> Answered(s.sent, k, x)
  {
    ObedientRunFrom(Start(), events);
    var s := Run(Start(), events);
    forall k, x | 0 <= k < |s.sent| && s.sent[k].id < |s.reqs| && s.reqs[s.sent[k].id].kind.Flush?
      && 0 <= x < s.sent[k].id && s.reqs[x].tag == s.reqs[s.sent[k].id].kind.oldtag
      ensures Answered(s.sent, k, x)
    {
      assert FlushDone(s, k);
    }
  }

  /** An answer, and any later one, are answers to different requests: nothing is answered twice. */
  lemma NothingTwice(events: seq<Event>, j: nat, k: nat)
    requires var s := Run(Start(), events); j < k < |s.sent|
    ensures var s := Run(Start(), events); s.sent[j].id != s.sent[k].id
  {
    AnyRun(events);
    var s := Run(Start(), events);
    var x := s.sent[k].id;
    assert Places(s, x) <= 1;
    SentSplit(s.sent, j, k, x);
  }

  lemma {:induction false} SentSplit(sent: seq<Answer>, j: nat, k: nat, x: nat)
    requires j < k < |sent|
    ensures InSent(sent, x) >= Is(sent[j].id, x) + Is(sent[k].id, x)
    decreases |sent|
  {
    var n := |sent| - 1;
    if k < n {
      SentSplit(sent[..n], j, k, x);
    } else {
      SentHas(sent[..n], x);
      assert sent[..n][j] == sent[j];
    }
  }

  lemma {:induction false} LostForEver(s: Session, events: seq<Event>, x: nat)
    requires Conserved(s) && Faithful(s) && ResetsClean(s) && InLost(s.lost, x) > 0
    ensures !Answered(Run(s, events).sent, |Run(s, events).sent|, x)
    decreases |events|
  {
    if events == [] {
      assert Places(s, x) <= 1;
      SentHas(s.sent, x);
    } else {
      hide Conserved, Faithful, ResetsClean, Step;
      StepConserves(s, events[0]);
      StepFaithful(s, events[0]);
      StepResets(s, events[0]);
      StepLoses(s, events[0], x);
      LostForEver(Step(s, events[0]), events[1..], x);
    }
  }

  /** A client that does not obey can wait for ever: when a second Tflush names a request that one waits for already, the
      first Tflush is never answered. */
  lemma SecondFlushLosesFirst(before: seq<Event>, req: Request, pick: nat, after: seq<Event>)
    requires var s := Run(Start(), before);
             && Listens(s) && !Ignores(s, req) && req.kind.Flush?
             && Find(s.inflight, req.kind.oldtag, pick) < |s.inflight| && s.inflight[Find(s.inflight, req.kind.oldtag, pick)].flushes.Flusher?
    ensures var s := Run(Start(), before);
            var s1 := Run(Accept(s, req, pick), after);
            !Answered(s1.sent, |s1.sent|, s.inflight[Find(s.inflight, req.kind.oldtag, pick)].flushes.id)
  {
    AnyRun(before);
    AnyRunFrom(Start(), before);
    var s := Run(Start(), before);
    var w := s.inflight[Find(s.inflight, req.kind.oldtag, pick)].flushes;
    LostMore(s.lost, w, w.id);
    assert Accept(s, req, pick) == Step(s, Arrive(req, pick));
    StepConserves(s, Arrive(req, pick));
    StepFaithful(s, Arrive(req, pick));
    StepResets(s, Arrive(req, pick));
    LostForEver(Accept(s, req, pick), after, w.id);
  }

  predicate OverwritesAt(s: Session, events: seq<Event>, k: int, x: nat) {
    0 <= k < |events| && Overwrites(Run(s, events[..k]), events[k], x)
  }

  lemma OverwritesLater(s: Session, events: seq<Event>, k: int, x: nat)
    requires 0 < k <= |events|
    ensures OverwritesAt(s, events, k, x) <==> OverwritesAt(Step(s, events[0]), events[1..], k - 1, x)
  {
    hide Step, Overwrites;
    if k < |events| {
      assert events[..k][1..] == events[1..][..k - 1];
    }
  }

  lemma {:induction false} LostFrom(s: Session, events: seq<Event>, x: nat)
    ensures InLost(Run(s, events).lost, x) > 0 <==> InLost(s.lost, x) > 0 || exists k :: OverwritesAt(s, events, k, x)
    decreases |events|
  {
    if events != [] {
      var (s1, rest) := (Step(s, events[0]), events[1..]);
      StepLoses(s, events[0], x);
      LostFrom(s1, rest, x);
      assert events[..0] == [];
      assert OverwritesAt(s, events, 0, x) <==> Overwrites(s, events[0], x);
      hide Step, Overwrites, InLost;
      if k :| OverwritesAt(s, events, k, x) && k > 0 {
        OverwritesLater(s, events, k, x);
      }
      if k :| OverwritesAt(s1, rest, k, x) {
        OverwritesLater(s, events, k + 1, x);
      }
    }
  }

  /** When a request is lost, exactly: in every run, it is a Tflush that waited for a future when another Tflush was taken
      for the same future.  Once nothing is outstanding, all others have been answered. */
  lemma LostExactly(events: seq<Event>, x: nat)
    ensures var s := Run(Start(), events);
            && (InLost(s.lost, x) > 0 <==> exists k :: OverwritesAt(Start(), events, k, x))
            && (s.inflight == [] && s.reset == NoReset && x < |s.reqs| ==>
                  (Answered(s.sent, |s.sent|, x) <==> !exists k :: OverwritesAt(Start(), events, k, x)))
  {
    AnyRun(events);
    LostFrom(Start(), events, x);
    var s := Run(Start(), events);
    hide Run, OverwritesAt;
    assert Places(s, x) == if x < |s.reqs| then 1 else 0;
    SentHas(s.sent, x);
  }

  /** So no request is ever lost exactly if no Tflush is ever taken for a future that one waits for. */
  lemma NothingLost(events: seq<Event>)
    ensures Run(Start(), events).lost == [] <==> forall k, x: nat :: !OverwritesAt(Start(), events, k, x)
  {
    var lost := Run(Start(), events).lost;
    if lost != [] {
      var x := lost[|lost| - 1];
      assert InLost(lost, x) > 0;
      LostFrom(Start(), events, x);
    }
    if k, x: nat :| OverwritesAt(Start(), events, k, x) {
      LostFrom(Start(), events, x);
    }
  }

  // ----- who is listened to

  /** The request starts a session, if it gets its turn: its message size is large enough. */
  predicate Opens(req: Request) {
    Resets(req) && req.kind.msize >= 256
  }

  /** A session has been started. */
  ghost predicate Opened(s: Session) {
    exists k :: 0 <= k < |s.sent| && s.sent[k].id < |s.reqs| && Opens(s.reqs[s.sent[k].id])
  }

  lemma OpenedAt(s: Session, k: nat)
    requires k < |s.sent| && s.sent[k].id < |s.reqs| && Opens(s.reqs[s.sent[k].id])
    ensures Opened(s)
  {
  }

  lemma OpenedStays(s: Session, s1: Session)
    requires Opened(s) && s.sent <= s1.sent && s.reqs <= s1.reqs
    ensures Opened(s1)
  {
    var k :| 0 <= k < |s.sent| && s.sent[k].id < |s.reqs| && Opens(s.reqs[s.sent[k].id]);
    OpenedAt(s1, k);
  }

  /** No new answer starts a session. */
  lemma OpenedBefore(s: Session, s1: Session)
    requires Faithful(s) && Opened(s1) && s.sent <= s1.sent && s.reqs <= s1.reqs
    requires forall k :: |s.sent| <= k < |s1.sent| && s1.sent[k].id < |s1.reqs| ==> !Opens(s1.reqs[s1.sent[k].id])
    ensures Opened(s)
  {
    var k :| 0 <= k < |s1.sent| && s1.sent[k].id < |s1.reqs| && Opens(s1.reqs[s1.sent[k].id]);
    assert s1.sent[k] == s.sent[k];
    OpenedAt(s, k);
  }

  lemma StepAdds(s: Session, e: Event)
    ensures s.sent <= Step(s, e).sent && s.reqs <= Step(s, e).reqs
    ensures !e.NewSession? ==> Step(s, e).initialized == s.initialized
  {
  }

  lemma FinishOpensNothing(s: Session, i: nat)
    requires Faithful(s)
    ensures var s1 := Step(s, Finish(i));
            forall k :: |s.sent| <= k < |s1.sent| && s1.sent[k].id < |s1.reqs| ==> !Opens(s1.reqs[s1.sent[k].id])
  {
    if i < |s.inflight| {
      assert FutureOk(s.inflight[i], s.reqs);
    }
  }

  lemma StepOpens(s: Session, e: Event)
    requires Faithful(s) && (s.initialized <==> Opened(s))
    ensures Step(s, e).initialized <==> Opened(Step(s, e))
  {
    var s1 := Step(s, e);
    StepAdds(s, e);
    if Opened(s) {
      OpenedStays(s, s1);
    }
    if e.NewSession? && s.inflight == [] && s.reset.NextSession? {
      if s.reset.msize >= 256 {
        OpenedAt(s1, |s.sent|);
      } else if Opened(s1) {
        OpenedBefore(s, s1);
      }
    } else if Opened(s1) {
      if e.Finish? {
        FinishOpensNothing(s, e.i);
      }
      OpenedBefore(s, s1);
    }
  }

  lemma {:induction false} OpensFrom(s: Session, events: seq<Event>)
    requires Faithful(s) && (s.initialized <==> Opened(s))
    ensures var s1 := Run(s, events); s1.initialized <==> Opened(s1)
    decreases |events|
  {
    hide Faithful, Opened, Step;
    if events != [] {
      StepFaithful(s, events[0]);
      StepOpens(s, events[0]);
      OpensFrom(Step(s, events[0]), events[1..]);
    }
  }

  /** The session is initialized, exactly, once a Tversion with the reserved tag and a message size of at least 256 has been
      answered. */
  lemma InitializedExactly(events: seq<Event>)
    ensures var s := Run(Start(), events);
            s.initialized <==>
            exists k :: 0 <= k < |s.sent| && s.sent[k].id < |s.reqs| && Resets(s.reqs[s.sent[k].id]) && s.reqs[s.sent[k].id].kind.msize >= 256
  {
    OpensFrom(Start(), events);
    var s := Run(Start(), events);
    assert s.initialized <==> Opened(s);
    if Opened(s) {
      var k :| 0 <= k < |s.sent| && s.sent[k].id < |s.reqs| && Opens(s.reqs[s.sent[k].id]);
      assert Resets(s.reqs[s.sent[k].id]);
    }
    if k :| 0 <= k < |s.sent| && s.sent[k].id < |s.reqs| && Resets(s.reqs[s.sent[k].id]) && s.reqs[s.sent[k].id].kind.msize >= 256 {
      OpenedAt(s, k);
    }
  }

  /** In every run, what a request with a tag becomes when it arrives: it is accepted, exactly, if fewer than 16 are being
      worked on, no reset is due, and a session has been started or this is a Tversion. */
  lemma AcceptedExactly(events: seq<Event>, req: Request, pick: nat)
    ensures var s := Run(Start(), events);
            Step(s, Arrive(req, pick)).reqs ==
            if |s.inflight| < 16 && s.reset.NoReset? && (req.kind.Version? || Opened(s)) then s.reqs + [req] else s.reqs
  {
    OpensFrom(Start(), events);
    hide Opened;
  }

  // ----- everything can be answered

  lemma {:induction false} RunBoth(s: Session, events: seq<Event>, more: seq<Event>)
    ensures Run(s, events + more) == Run(Run(s, events), more)
    decreases |events|
  {
    hide Step;
    if events == [] {
      assert [] + more == more;
    } else {
      RunBoth(Step(s, events[0]), events[1..], more);
      assert (events + more)[1..] == events[1..] + more;
    }
  }

  lemma {:induction false} FinishAll(s: Session) returns (more: seq<Event>)
    ensures forall k :: 0 <= k < |more| ==> more[k].Finish?
    ensures var s1 := Run(s, more);
            s1.inflight == [] && s1.reset == s.reset && s1.reqs == s.reqs && s1.lost == s.lost && s1.initialized == s.initialized
    decreases |s.inflight|
  {
    if s.inflight == [] {
      more := [];
    } else {
      var rest := FinishAll(Step(s, Finish(0)));
      more := [Finish(0)] + rest;
      assert more[1..] == rest;
    }
  }

  /** From every state that a run can reach, working out what is in flight and starting the session that is due answers
      every request that is not lost, and the loop listens again. */
  lemma EverythingAnswerable(events: seq<Event>) returns (more: seq<Event>)
    ensures forall k :: 0 <= k < |more| ==> more[k].Finish? || more[k].NewSession?
    ensures var (s, s1) := (Run(Start(), events), Run(Start(), events + more));
            && s1.reqs == s.reqs && s1.lost == s.lost && Listens(s1)
            && forall x: nat :: x < |s.reqs| ==> (Answered(s1.sent, |s1.sent|, x) <==> InLost(s.lost, x) == 0)
  {
    var s := Run(Start(), events);
    var first := FinishAll(s);
    more := first + [NewSession];
    RunBoth(s, first, [NewSession]);
    RunBoth(Start(), events, more);
    var s1 := Run(Start(), events + more);
    assert [NewSession][1..] == [];
    assert s1 == Step(Run(s, first), NewSession);
    AnyRun(events + more);
    hide Step, Run, Faithful, ResetsClean;
    forall x: nat | x < |s.reqs|
      ensures Answered(s1.sent, |s1.sent|, x) <==> InLost(s.lost, x) == 0
    {
      assert Places(s1, x) == 1;
      SentHas(s1.sent, x);
    }
  }

  // ----- the event loop

  /** The loop's variables; every method makes one step, or several. */
  class Client {
    var initialized: bool
    var nextSession: Reset
    var inflight: seq<Future>
    var fids: set<nat>
    var sent: seq<Answer>

    ghost var reqs: seq<Request>
    ghost var lost: seq<nat>
    var accepted: nat

    ghost function State(): Session
      reads this
    {
      Session(initialized, nextSession, inflight, fids, sent, reqs, lost)
    }

    ghost predicate Valid()
      reads this
    {
      accepted == |reqs|
    }

    constructor ()
      ensures Valid() && State() == Start()
    {
      initialized, nextSession, inflight, fids, sent, reqs, lost, accepted := false, NoReset, [], {}, [], [], [], 0;
    }

    /** The top of the loop. */
    method TopOfLoop()
      requires Valid()
      modifies this
      ensures Valid() && State() == Step(old(State()), NewSession)
      ensures initialized <==> old(initialized) || (old(inflight) == [] && old(nextSession).NextSession? && old(nextSession).msize >= 256)
    {
      if |inflight| == 0 && nextSession.NextSession? {
        var version := nextSession;
        nextSession := NoReset;
        fids := {};
        sent := sent + [Answer(version.id, NOTAG, fids)];
        if version.msize >= 256 {
          initialized := true;
        }
      }
    }

    /** A future with a tag, if there is one.  They are looked at in no particular order; rest: those not looked at yet. */
    method FindTag(tag: nat) returns (i: nat)
      ensures i <= |inflight| && (i < |inflight| ==> inflight[i].tag == tag)
      ensures i == |inflight| ==> forall k :: 0 <= k < |inflight| ==> inflight[k].tag != tag
    {
      var rest: set<nat> := {};
      for j := 0 to |inflight|
        invariant forall k: nat :: k in rest <==> k < j
      {
        rest := rest + {j};
      }
      while rest != {}
        invariant forall k :: k in rest ==> k < |inflight|
        invariant forall k: nat :: k < |inflight| && k !in rest ==> inflight[k].tag != tag
        decreases |rest|
      {
        var k :| k in rest;
        if inflight[k].tag == tag {
          return k;
        }
        rest := rest - {k};
      }
      i := |inflight|;
    }

    /** A message has come in.  pick: where the future was found that a Tflush names. */
    method Receive(req: Request) returns (ghost pick: nat)
      requires Valid() && Listens(State())
      modifies this
      ensures Valid() && State() == Step(old(State()), Arrive(req, pick))
    {
      pick := 0;
      if !initialized && !req.kind.Version? {
        return;
      }
      var id := accepted;
      accepted := accepted + 1;
      reqs := reqs + [req];
      match req.kind
      case Version(msize) =>
        if req.tag == NOTAG {
          nextSession := NextSession(id, msize);
        } else {
          inflight := inflight + [Future(id, req.tag, Nobody)];
        }
      case Flush(oldtag) =>
        var i := FindTag(oldtag);
        pick := i;
        if i < |inflight| {
          lost := lost + Ids(inflight[i].flushes);
          inflight := inflight[i := inflight[i].(flushes := Flusher(id, req.tag))];
        } else {
          inflight := inflight + [Future(id, req.tag, Nobody)];
        }
      case _ =>
        inflight := inflight + [Future(id, req.tag, Nobody)];
    }

    /** Sends the answers of futures, one after the other, as they are ready: `ready` says which is next each time. */
    method SendReady(ready: seq<nat>)
      requires Valid()
      modifies this
      ensures Valid() && State() == Run(old(State()), seq(|ready|, k requires 0 <= k < |ready| => Finish(ready[k])))
    {
      ghost var events := seq(|ready|, k requires 0 <= k < |ready| => Finish(ready[k]));
      assert events[0..] == events;
      for n := 0 to |ready|
        invariant Valid() && Run(State(), events[n..]) == Run(old(State()), events)
      {
        assert events[n..][0] == Finish(ready[n]) && events[n..][1..] == events[n + 1..];
        ghost var before := State();
        var i := ready[n];
        if i < |inflight| {
          var f := inflight[i];
          inflight := inflight[..i] + inflight[i + 1..];
          sent := sent + [Answer(f.id, f.tag, fids)];
          if f.flushes.Flusher? {
            sent := sent + [Answer(f.flushes.id, f.flushes.tag, fids)];
          }
          assert sent == before.sent + Answers(f, fids);
        }
        assert State() == Step(before, Finish(i));
      }
    }
  }
}
