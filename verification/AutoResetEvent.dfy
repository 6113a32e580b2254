/** The auto-reset event (rsynch.h, class AutoResetEvent): an atomic status and a counting semaphore, used by any number
    of threads.  A step is one atomic action of one thread - a load, a compare-exchange that succeeds or fails, a
    fetch-and-subtract, a post or a wake-up of the semaphore; any interleaving of steps is a run. */
module AutoResetEvents {

  /** Where a thread is: outside, in set's loop having loaded a value, about to post, blocked in wait, blocked in
      wait_for, or in the loop that undoes a wait_for that ran out of time. */
  datatype Pc = Idle | Setting(seen: int) | Posting | Blocked | BlockedFor | Undoing(seen: int)

  /** status: 1 set, 0 unset, -n unset with n waiters; permits: the semaphore.  The rest is kept for the proofs: how many
      calls of set got through, how many of them found the event set already, how many waits succeeded, and how many
      wait_for calls gave up although a set had already promised them a permit. */
  datatype Event = Event(status: int, permits: nat, threads: seq<Pc>, sets: nat, merged: nat, successes: nat, strays: nat)

  datatype Act =
    | LoadForSet | SwapForSet(spurious: bool) | Post
    | Wait | WaitFor | Wake | TimeOut | SwapForUndo(spurious: bool)
    | TryWait

  function Goes(e: Event, t: nat, pc: Pc): Event
    requires t < |e.threads|
  {
    e.(threads := e.threads[t := pc])
  }

  /** One step of thread t; a step that is not possible changes nothing. */
  function Step(e: Event, t: nat, act: Act): (e1: Event)
    requires t < |e.threads|
    ensures |e1.threads| == |e.threads|
  {
    match (act, e.threads[t])
    case (LoadForSet, Idle) => Goes(e, t, Setting(e.status))
    case (SwapForSet(spurious), Setting(seen)) =>
      if spurious || e.status != seen then Goes(e, t, Setting(e.status))
      else Goes(e.(status := if seen < 1 then seen + 1 else 1, sets := e.sets + 1, merged := e.merged + (if seen < 1 then 0 else 1)), t, if seen < 0 then Posting else Idle)
    case (Post, Posting) => Goes(e.(permits := e.permits + 1), t, Idle)
    case (Wait, Idle) =>
      if e.status < 1 then Goes(e.(status := e.status - 1), t, Blocked)
      else e.(status := e.status - 1, successes := e.successes + 1)
    case (WaitFor, Idle) =>
      if e.status == 1 then e.(status := e.status - 1, successes := e.successes + 1)
      else Goes(e.(status := e.status - 1), t, BlockedFor)
    case (Wake, Blocked) => if e.permits > 0 then Goes(e.(permits := e.permits - 1, successes := e.successes + 1), t, Idle) else e
    case (Wake, BlockedFor) => if e.permits > 0 then Goes(e.(permits := e.permits - 1, successes := e.successes + 1), t, Idle) else e
    case (TimeOut, BlockedFor) => Goes(e, t, Undoing(e.status))
    case (SwapForUndo(spurious), Undoing(seen)) =>
      if spurious || e.status != seen then Goes(e, t, Undoing(e.status))
      else Goes(e.(status := if seen < 0 then seen + 1 else 0,
                   successes := e.successes + (if seen == 1 then 1 else 0),
                   strays := e.strays + (if seen < 0 then 0 else 1)), t, Idle)
    case (TryWait, Idle) => if e.status == 1 then e.(status := 0, successes := e.successes + 1) else e
    case _ => e
  }

  function Run(e: Event, steps: seq<(nat, Act)>): (e1: Event)
    ensures |e1.threads| == |e.threads|
    decreases |steps|
  {
    if steps == [] then e
    else if steps[0].0 < |e.threads| then Run(Step(e, steps[0].0, steps[0].1), steps[1..])
    else Run(e, steps[1..])
  }

  function Start(n: nat): Event {
    Event(0, 0, seq(n, _ => Idle), 0, 0, 0, 0)
  }

  datatype Role = Waiter | Poster

  predicate Plays(pc: Pc, role: Role) {
    if role == Waiter then pc == Blocked || pc == BlockedFor || pc.Undoing? else pc == Posting
  }

  /** How many threads play a role. */
  function Count(threads: seq<Pc>, role: Role): nat {
    if threads == [] then 0 else (if Plays(threads[0], role) then 1 else 0) + Count(threads[1..], role)
  }

  lemma {:induction false} CountUpdate(threads: seq<Pc>, role: Role, t: nat, pc: Pc)
    requires t < |threads|
    ensures Count(threads[t := pc], role) == Count(threads, role) - (if Plays(threads[t], role) then 1 else 0) + (if Plays(pc, role) then 1 else 0)
  {
    if t == 0 {
      assert threads[t := pc][1..] == threads[1..];
    } else {
      CountUpdate(threads[1..], role, t - 1, pc);
      assert threads[t := pc][1..] == threads[1..][t - 1 := pc];
    }
  }

  lemma {:induction false} CountIdle(n: nat, role: Role)
    ensures Count(seq(n, _ => Idle), role) == 0
  {
    if n > 0 {
      CountIdle(n - 1, role);
      assert seq(n, _ => Idle)[1..] == seq(n - 1, _ => Idle);
    }
  }

  function Waiters(e: Event): nat {
    Count(e.threads, Waiter)
  }

  /** Posts that are owed. */
  function Owed(e: Event): nat {
    Count(e.threads, Poster)
  }

  /** How many waiters the status speaks of. */
  function Registered(e: Event): nat {
    if e.status < 0 then -e.status else 0
  }

  /** Sets that no wait has used up yet. */
  function Remembered(e: Event): nat {
    (if e.status == 1 then 1 else 0) + Owed(e) + e.permits
  }

  /** Two conservation laws.  Every set has been used up by a success, is still there - in the status, in the semaphore or
      about to be posted - or found the event set already.  And every waiter is either still spoken of in
      the status, or a permit for it is in the semaphore or owed to it - exactly, up to the permits left behind by calls
      of wait_for that gave up too late. */
  ghost predicate Inv(e: Event) {
    && e.status <= 1
    && e.sets == e.successes + Remembered(e) + e.merged
    && Waiters(e) + e.strays == Registered(e) + Owed(e) + e.permits
  }

  lemma StepKeeps(e: Event, t: nat, act: Act)
    requires Inv(e) && t < |e.threads|
    ensures Inv(Step(e, t, act))
  {
    hide Count;
    var pc := Step(e, t, act).threads[t];
    CountUpdate(e.threads, Waiter, t, pc);
    CountUpdate(e.threads, Poster, t, pc);
    assert e.threads[t := e.threads[t]] == e.threads;
  }

  lemma {:induction false} RunKeeps(e: Event, steps: seq<(nat, Act)>)
    requires Inv(e)
    ensures Inv(Run(e, steps))
    decreases |steps|
  {
    hide Inv, Step;
    if steps != [] {
      if steps[0].0 < |e.threads| {
        StepKeeps(e, steps[0].0, steps[0].1);
        RunKeeps(Step(e, steps[0].0, steps[0].1), steps[1..]);
      } else {
        RunKeeps(e, steps[1..]);
      }
    }
  }

  /** Over every interleaving of any number of threads: the status never exceeds 1, every set is accounted for, and so is
      every waiter. */
  lemma EveryRun(n: nat, steps: seq<(nat, Act)>)
    ensures var e := Run(Start(n), steps);
            && e.status <= 1
            && e.sets == e.successes + Remembered(e) + e.merged
            && Waiters(e) + e.strays == Registered(e) + Owed(e) + e.permits
  {
    CountIdle(n, Waiter);
    CountIdle(n, Poster);
    RunKeeps(Start(n), steps);
  }

  /** No lost wake-up: threads that are waiting while the status speaks of none of them have permits waiting, or on their
      way, for all of them - exactly as many, unless a wait_for has given up too late. */
  lemma NoLostWakeUp(n: nat, steps: seq<(nat, Act)>)
    ensures var e := Run(Start(n), steps);
            e.status >= 0 ==> Owed(e) + e.permits >= Waiters(e) && (Owed(e) + e.permits == Waiters(e) <==> e.strays == 0)
  {
    EveryRun(n, steps);
  }

  // ----- who gets through

  lemma RunStep(e: Event, t: nat, act: Act, more: seq<(nat, Act)>)
    requires t < |e.threads|
    ensures Run(e, [(t, act)] + more) == Run(Step(e, t, act), more)
  {
    assert ([(t, act)] + more)[1..] == more;
  }

  lemma RunNone(e: Event)
    ensures Run(e, []) == e
  {
  }

  lemma {:induction false} RunBoth(e: Event, steps: seq<(nat, Act)>, more: seq<(nat, Act)>)
    ensures Run(e, steps + more) == Run(Run(e, steps), more)
    decreases |steps|
  {
    hide Step;
    if steps == [] {
      assert [] + more == more;
    } else {
      var e1 := if steps[0].0 < |e.threads| then Step(e, steps[0].0, steps[0].1) else e;
      RunBoth(e1, steps[1..], more);
      assert (steps + more)[1..] == steps[1..] + more;
    }
  }

  /** A thread that waits for the semaphore. */
  predicate Sleeps(e: Event, t: nat) {
    t < |e.threads| && (e.threads[t] == Blocked || e.threads[t] == BlockedFor)
  }

  lemma {:induction false} SomePoster(threads: seq<Pc>) returns (p: nat)
    requires Count(threads, Poster) > 0
    ensures p < |threads| && threads[p] == Posting
  {
    if threads[0] == Posting {
      p := 0;
    } else {
      p := SomePoster(threads[1..]);
      p := p + 1;
    }
  }

  /** A permit in the semaphore lets a thread that waits for one through. */
  lemma WakesAtOnce(e: Event, t: nat)
    requires Sleeps(e, t) && e.permits > 0
    ensures Run(e, [(t, Wake)]) == e.(permits := e.permits - 1, successes := e.successes + 1, threads := e.threads[t := Idle])
  {
    WakeMeans(e, t);
    hide Step, Run;
    RunStep(e, t, Wake, []);
    RunNone(Step(e, t, Wake));
    assert [(t, Wake)] + [] == [(t, Wake)];
  }

  lemma WakeMeans(e: Event, t: nat)
    requires Sleeps(e, t) && e.permits > 0
    ensures Step(e, t, Wake) == e.(permits := e.permits - 1, successes := e.successes + 1, threads := e.threads[t := Idle])
  {
  }

  /** A permit that is there or owed can let any thread that waits for one through, without another set. */
  lemma WakesUp(e: Event, t: nat) returns (steps: seq<(nat, Act)>)
    requires Sleeps(e, t) && Owed(e) + e.permits > 0
    ensures |steps| <= 2
    ensures var e1 := Run(e, steps);
            && e1.threads[t] == Idle && e1.successes == e.successes + 1 && e1.sets == e.sets && e1.status == e.status
            && Owed(e1) + e1.permits == Owed(e) + e.permits - 1
  {
    hide Count;
    if e.permits > 0 {
      steps := [(t, Wake)];
      WakesAtOnce(e, t);
      CountUpdate(e.threads, Poster, t, Idle);
    } else {
      var p := SomePoster(e.threads);
      var e1 := Step(e, p, Post);
      CountUpdate(e.threads, Poster, p, Idle);
      WakesAtOnce(e1, t);
      CountUpdate(e1.threads, Poster, t, Idle);
      RunStep(e, p, Post, [(t, Wake)]);
      steps := [(p, Post)] + [(t, Wake)];
    }
  }

  /** The steps of a call of set with nobody in between. */
  function SetSteps(e: Event, u: nat): seq<(nat, Act)> {
    [(u, LoadForSet)] + ([(u, SwapForSet(false))] + if e.status < 0 then [(u, Post)] else [])
  }

  /** A set with nobody in between gets through: it sets the event, or lets one of the waiters that the status speaks of
      have a permit. */
  lemma SetGetsThrough(e: Event, u: nat)
    requires u < |e.threads| && e.threads[u] == Idle
    ensures var e1 := Run(e, SetSteps(e, u));
            && e1.threads == e.threads && e1.sets == e.sets + 1 && e1.successes == e.successes
            && e1.status == (if e.status < 1 then e.status + 1 else 1) && e1.permits == e.permits + (if e.status < 0 then 1 else 0)
  {
    var e1 := Step(e, u, LoadForSet);
    var e2 := Step(e1, u, SwapForSet(false));
    var rest := if e.status < 0 then [(u, Post)] else [];
    RunStep(e, u, LoadForSet, [(u, SwapForSet(false))] + rest);
    RunStep(e1, u, SwapForSet(false), rest);
    if e.status < 0 {
      RunStep(e2, u, Post, []);
      assert rest == [(u, Post)] + [];
    }
    RunNone(e2);
    assert Run(e, SetSteps(e, u)).threads == e.threads;
  }

  /** An event that is set lets the next wait through at once, whichever kind it is, and is unset again; otherwise wait and
      wait_for begin to wait, and try_wait does nothing. */
  lemma WaitsExactly(e: Event, t: nat, act: Act)
    requires t < |e.threads| && e.threads[t] == Idle && e.status <= 1 && (act == Wait || act == WaitFor || act == TryWait)
    ensures var e1 := Step(e, t, act);
            if e.status == 1 then e1 == e.(status := 0, successes := e.successes + 1)
            else if act == TryWait then e1 == e
            else Sleeps(e1, t) && e1.status == e.status - 1 && e1.successes == e.successes && e1.permits == e.permits
  {
  }

  /** A wait_for with nobody in between can always give up: it takes back its place among the waiters, or leaves behind the
      permit that it has been promised, or finds the event set and succeeds after all. */
  lemma GivesUp(e: Event, t: nat)
    requires t < |e.threads| && e.threads[t] == BlockedFor
    ensures Run(e, [(t, TimeOut)] + [(t, SwapForUndo(false))])
            == e.(threads := e.threads[t := Idle], status := if e.status < 0 then e.status + 1 else 0,
                  successes := e.successes + (if e.status == 1 then 1 else 0), strays := e.strays + (if e.status < 0 then 0 else 1))
  {
    GivingUpMeans(e, t);
    hide Step, Run;
    var e1 := Step(e, t, TimeOut);
    RunStep(e, t, TimeOut, [(t, SwapForUndo(false))]);
    RunStep(e1, t, SwapForUndo(false), []);
    RunNone(Step(e1, t, SwapForUndo(false)));
    assert [(t, SwapForUndo(false))] + [] == [(t, SwapForUndo(false))];
  }

  lemma GivingUpMeans(e: Event, t: nat)
    requires t < |e.threads| && e.threads[t] == BlockedFor
    ensures Step(Step(e, t, TimeOut), t, SwapForUndo(false))
            == e.(threads := e.threads[t := Idle], status := if e.status < 0 then e.status + 1 else 0,
                  successes := e.successes + (if e.status == 1 then 1 else 0), strays := e.strays + (if e.status < 0 then 0 else 1))
  {
    assert Step(e, t, TimeOut).threads[t := Idle] == e.threads[t := Idle];
  }

  lemma {:induction false} CountSome(threads: seq<Pc>, role: Role, t: nat)
    requires t < |threads| && Plays(threads[t], role)
    ensures Count(threads, role) > 0
  {
    if t > 0 {
      CountSome(threads[1..], role, t - 1);
    }
  }

  /** In every state that a run can reach: a set by any idle thread can let any waiting thread through. */
  lemma SetReleases(n: nat, before: seq<(nat, Act)>, t: nat, u: nat) returns (more: seq<(nat, Act)>)
    requires var e := Run(Start(n), before); Sleeps(e, t) && u < |e.threads| && e.threads[u] == Idle
    ensures var (e, e1) := (Run(Start(n), before), Run(Start(n), before + more));
            t < |e1.threads| && e1.threads[t] == Idle && e1.sets == e.sets + 1 && e1.successes == e.successes + 1
  {
    var e := Run(Start(n), before);
    EveryRun(n, before);
    CountSome(e.threads, Waiter, t);
    SetGetsThrough(e, u);
    var steps := SetSteps(e, u);
    hide Step, Start, SetSteps, Count;
    var e1 := Run(e, steps);
    var last := WakesUp(e1, t);
    more := steps + last;
    RunBoth(e, steps, last);
    RunBoth(Start(n), before, more);
    assert Run(Start(n), before + more) == Run(e1, last);
  }

  /** The waiters that have to go: those who sleep, and those who have given up. */
  lemma {:induction false} SomeWaiter(threads: seq<Pc>) returns (t: nat)
    requires Count(threads, Waiter) > 0
    ensures t < |threads| && Plays(threads[t], Waiter)
  {
    if Plays(threads[0], Waiter) {
      t := 0;
    } else {
      t := SomeWaiter(threads[1..]);
      t := t + 1;
    }
  }

  /** A wait_for that has run out of time can finish. */
  lemma UndoEnds(e: Event, t: nat) returns (steps: seq<(nat, Act)>)
    requires Inv(e) && t < |e.threads| && e.threads[t].Undoing? && e.status >= 0
    ensures var e1 := Run(e, steps);
            && Inv(e1) && e1.status >= 0 && e1.sets == e.sets && |e1.threads| == |e.threads|
            && Waiters(e1) == Waiters(e) - 1 && Owed(e1) == Owed(e)
  {
    var e1 := if e.threads[t].seen == e.status then e else Step(e, t, SwapForUndo(false));
    StepKeeps(e, t, SwapForUndo(false));
    StepKeeps(e1, t, SwapForUndo(false));
    var e2 := Step(e1, t, SwapForUndo(false));
    var last := [(t, SwapForUndo(false))];
    RunStep(e1, t, SwapForUndo(false), []);
    RunNone(e2);
    assert last + [] == last;
    if e1 == e {
      steps := last;
    } else {
      steps := last + last;
      RunStep(e, t, SwapForUndo(false), last);
    }
    hide Count;
    CountUpdate(e.threads, Waiter, t, Idle);
    CountUpdate(e.threads, Poster, t, Idle);
    assert e2.threads == e.threads[t := Idle];
  }

  /** One thread less that waits or owes a post. */
  lemma OneLess(e: Event) returns (steps: seq<(nat, Act)>)
    requires Inv(e) && e.status >= 0 && Waiters(e) + Owed(e) > 0
    ensures var e1 := Run(e, steps);
            && Inv(e1) && e1.status >= 0 && e1.sets == e.sets && |e1.threads| == |e.threads|
            && Waiters(e1) + Owed(e1) < Waiters(e) + Owed(e)
  {
    hide Count;
    if Owed(e) > 0 {
      var p := SomePoster(e.threads);
      steps := [(p, Post)];
      RunStep(e, p, Post, []);
      RunNone(Step(e, p, Post));
      assert steps + [] == steps;
      StepKeeps(e, p, Post);
      CountUpdate(e.threads, Waiter, p, Idle);
      CountUpdate(e.threads, Poster, p, Idle);
    } else {
      var t := SomeWaiter(e.threads);
      if e.threads[t].Undoing? {
        steps := UndoEnds(e, t);
      } else {
        steps := [(t, Wake)];
        WakesAtOnce(e, t);
        StepKeeps(e, t, Wake);
        CountUpdate(e.threads, Waiter, t, Idle);
        CountUpdate(e.threads, Poster, t, Idle);
      }
    }
  }

  lemma {:induction false} AllGo(e: Event) returns (steps: seq<(nat, Act)>)
    requires Inv(e) && e.status >= 0
    ensures var e1 := Run(e, steps); Waiters(e1) == 0 && Owed(e1) == 0 && e1.sets == e.sets
    decreases Waiters(e) + Owed(e)
  {
    hide Step, Inv, Count;
    if Waiters(e) + Owed(e) == 0 {
      steps := [];
      RunNone(e);
    } else {
      var first := OneLess(e);
      var rest := AllGo(Run(e, first));
      RunBoth(e, first, rest);
      steps := first + rest;
    }
  }

  /** Nobody is left behind: in every state that a run can reach and in which the status speaks of nobody, all threads that
      wait can get through, or be done with giving up, without another set. */
  lemma NobodyLeftBehind(n: nat, before: seq<(nat, Act)>) returns (more: seq<(nat, Act)>)
    requires Run(Start(n), before).status >= 0
    ensures var (e, e1) := (Run(Start(n), before), Run(Start(n), before + more)); Waiters(e1) == 0 && e1.sets == e.sets
  {
    EveryRun(n, before);
    more := AllGo(Run(Start(n), before));
    hide Step, Start, Count;
    RunBoth(Start(n), before, more);
  }

  /** Auto-reset: while nobody waits, the status alone says how many sets are remembered, none or one, exactly if no
      wait_for has given up too late. */
  lemma RemembersOne(n: nat, steps: seq<(nat, Act)>)
    ensures var e := Run(Start(n), steps);
            Waiters(e) == 0 ==> (e.strays == 0 <==> 0 <= e.status == Remembered(e))
  {
    EveryRun(n, steps);
  }

  /** A run of two threads: thread 0 gives up while thread 1 is about to post for it, and the permit stays behind. */
  function LateStates(): seq<Event> {
    [Event(0, 0, [Idle, Idle], 0, 0, 0, 0),
     Event(-1, 0, [BlockedFor, Idle], 0, 0, 0, 0),
     Event(-1, 0, [BlockedFor, Setting(-1)], 0, 0, 0, 0),
     Event(0, 0, [BlockedFor, Posting], 1, 0, 0, 0),
     Event(0, 0, [Undoing(0), Posting], 1, 0, 0, 0),
     Event(0, 0, [Idle, Posting], 1, 0, 0, 1),
     Event(0, 1, [Idle, Idle], 1, 0, 0, 1),
     Event(0, 1, [Idle, Setting(0)], 1, 0, 0, 1),
     Event(1, 1, [Idle, Idle], 2, 0, 0, 1)]
  }

  function LateSteps(): seq<(nat, Act)> {
    [(0, WaitFor), (1, LoadForSet), (1, SwapForSet(false)), (0, TimeOut), (0, SwapForUndo(false)), (1, Post),
     (1, LoadForSet), (1, SwapForSet(false))]
  }

  lemma LateStep(k: nat)
    requires k < 8
    ensures var (t, act) := LateSteps()[k]; t < 2 && |LateStates()[k].threads| == 2 && Step(LateStates()[k], t, act) == LateStates()[k + 1]
  {
    var (t, act) := LateSteps()[k];
    var e := LateStates()[k];
    assert k < 3 || 3 <= k < 6 || 6 <= k;
    assert e.threads[t := e.threads[t]] == e.threads;
  }

  lemma {:induction false} LateRun(k: nat)
    requires k <= 8
    ensures Run(LateStates()[k], LateSteps()[k..]) == LateStates()[8]
    decreases 8 - k
  {
    if k < 8 {
      LateStep(k);
      hide Step, LateStates;
      LateRun(k + 1);
      assert LateSteps()[k..][1..] == LateSteps()[k + 1..];
    }
  }

  /** With such a wait_for, two sets can be remembered although nobody waits. */
  lemma LateTimeOutRemembersTwo()
    ensures var e := Run(Start(2), LateSteps()); Waiters(e) == 0 && e.status == 1 && e.permits == 1 && e.sets == 2
  {
    LateRun(0);
    assert LateSteps()[0..] == LateSteps();
    CountIdle(2, Waiter);
    assert LateStates()[8].threads == seq(2, _ => Idle);
    assert Start(2) == LateStates()[0];
  }
}
