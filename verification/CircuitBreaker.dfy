/**
 The circuit breaker of one RPC endpoint (src/starknet/circuit-breaker.ts). It keeps a
 pruned list of failure times; here it is measured against the full history of calls.
 */
module CircuitBreaker {
  import opened Common

  datatype State = CLOSED | OPEN | HALF_OPEN

  datatype Options = Options(failureThreshold: int, successThreshold: int, cooldownMs: int, windowMs: int)

  datatype Breaker = Breaker(state: State, failureTimestamps: seq<int>, consecutiveSuccesses: int, openedAt: Option<int>)

  /** What is asked of a breaker, and when. */
  datatype Call = Ask(at: int) | Succeed(at: int) | Fail(at: int) | Reset(at: int)

  function After(times: seq<int>, cutoff: int): seq<int> {
    if times == [] then [] else
      var rest, last := After(times[..|times| - 1], cutoff), times[|times| - 1];
      if last > cutoff then rest + [last] else rest
  }

  function Pruned(o: Options, b: Breaker, now: int): Breaker {
    b.(failureTimestamps := After(b.failureTimestamps, now - o.windowMs))
  }

  function Initial(): Breaker {
    Breaker(CLOSED, [], 0, None)
  }

  function TransitionTo(b: Breaker, next: State, now: int): Breaker {
    match next
    case OPEN => b.(state := OPEN, openedAt := Some(now), consecutiveSuccesses := 0)
    case HALF_OPEN => b.(state := HALF_OPEN)
    case CLOSED => Initial()
  }

  predicate Permits(o: Options, b: Breaker, now: int) {
    b.state == OPEN ==> b.openedAt.Some? && now - b.openedAt.value >= o.cooldownMs
  }

  function Apply(o: Options, b: Breaker, c: Call): Breaker {
    match c
    case Ask(now) =>
      if b.state == OPEN && Permits(o, b, now) then TransitionTo(b, HALF_OPEN, now) else b
    case Succeed(now) =>
      if b.state == HALF_OPEN then
        var counted := b.(consecutiveSuccesses := b.consecutiveSuccesses + 1);
        if counted.consecutiveSuccesses >= o.successThreshold then TransitionTo(counted, CLOSED, now) else counted
      else if b.state == CLOSED then Pruned(o, b, now)
      else b
    case Fail(now) =>
      if b.state == HALF_OPEN then TransitionTo(b.(consecutiveSuccesses := 0), OPEN, now)
      else if b.state == CLOSED then
        var pruned := Pruned(o, b.(failureTimestamps := b.failureTimestamps + [now]), now);
        if |pruned.failureTimestamps| >= o.failureThreshold then TransitionTo(pruned, OPEN, now) else pruned
      else b
    case Reset(_) => Initial()
  }

  // ---------------------------------------------------------------------------
  // The class
  // ---------------------------------------------------------------------------

  class EndpointCircuitBreaker {
    const options: Options
    var state: State
    var failureTimestamps: seq<int>
    var consecutiveSuccesses: int
    var openedAt: Option<int>

    function Value(): Breaker
      reads this
    {
      Breaker(state, failureTimestamps, consecutiveSuccesses, openedAt)
    }

    constructor (options: Options)
      ensures Value() == Initial() && this.options == options
    {
      this.options := options;
      state, failureTimestamps, consecutiveSuccesses, openedAt := CLOSED, [], 0, None;
    }

    method Transition(next: State, now: int)
      modifies this
      ensures Value() == TransitionTo(old(Value()), next, now)
    {
      state := next;
      if next == OPEN {
        openedAt := Some(now);
        consecutiveSuccesses := 0;
      } else if next == CLOSED {
        failureTimestamps, openedAt, consecutiveSuccesses := [], None, 0;
      }
    }

    method PruneOldFailures(now: int)
      modifies this
      ensures Value() == Pruned(options, old(Value()), now)
    {
      var cutoff := now - options.windowMs;
      var kept: seq<int> := [];
      for i := 0 to |failureTimestamps|
        invariant kept == After(failureTimestamps[..i], cutoff)
        invariant Value() == old(Value())
      {
        assert failureTimestamps[..i + 1][..i] == failureTimestamps[..i];
        if failureTimestamps[i] > cutoff {
          kept := kept + [failureTimestamps[i]];
        }
      }
      assert failureTimestamps[..|failureTimestamps|] == failureTimestamps;
      failureTimestamps := kept;
    }

    method IsCallPermitted(now: int) returns (permitted: bool)
      modifies this
      ensures permitted == Permits(options, old(Value()), now)
      ensures Value() == Apply(options, old(Value()), Ask(now))
    {
      if state == CLOSED {
        return true;
      }
      if state == OPEN {
        if openedAt.Some? && now - openedAt.value >= options.cooldownMs {
          Transition(HALF_OPEN, now);
          return true;
        }
        return false;
      }
      return true;
    }

    method RecordSuccess(now: int)
      modifies this
      ensures Value() == Apply(options, old(Value()), Succeed(now))
    {
      if state == HALF_OPEN {
        consecutiveSuccesses := consecutiveSuccesses + 1;
        if consecutiveSuccesses >= options.successThreshold {
          Transition(CLOSED, now);
        }
        return;
      }
      if state == CLOSED {
        PruneOldFailures(now);
      }
    }

    method RecordFailure(now: int)
      modifies this
      ensures Value() == Apply(options, old(Value()), Fail(now))
    {
      if state == HALF_OPEN {
        consecutiveSuccesses := 0;
        Transition(OPEN, now);
        return;
      }
      if state == CLOSED {
        failureTimestamps := failureTimestamps + [now];
        PruneOldFailures(now);
        if |failureTimestamps| >= options.failureThreshold {
          Transition(OPEN, now);
        }
      }
    }

    method ResetBreaker()
      modifies this
      ensures Value() == Initial()
    {
      state, failureTimestamps, consecutiveSuccesses, openedAt := CLOSED, [], 0, None;
    }
  }

  // ---------------------------------------------------------------------------
  // The full history
  // ---------------------------------------------------------------------------

  function Run(o: Options, calls: seq<Call>): Breaker {
    if calls == [] then Initial() else Apply(o, Run(o, calls[..|calls| - 1]), calls[|calls| - 1])
  }

  /** How many calls had been made when the breaker entered the state it is in. */
  function Since(o: Options, calls: seq<Call>): (r: nat)
    ensures r <= |calls|
  {
    if calls == [] then 0 else
      var before, last := calls[..|calls| - 1], calls[|calls| - 1];
      if last.Reset? || Run(o, calls).state != Run(o, before).state then |calls| else Since(o, before)
  }

  function FailTimes(calls: seq<Call>): seq<int> {
    if calls == [] then [] else
      var rest, last := FailTimes(calls[..|calls| - 1]), calls[|calls| - 1];
      if last.Fail? then rest + [last.at] else rest
  }

  function Successes(calls: seq<Call>): nat {
    if calls == [] then 0 else Successes(calls[..|calls| - 1]) + if calls[|calls| - 1].Succeed? then 1 else 0
  }

  ghost predicate Nondecreasing(calls: seq<Call>) {
    forall i, j | 0 <= i <= j < |calls| :: calls[i].at <= calls[j].at
  }

  lemma AfterPush(times: seq<int>, t: int, cutoff: int)
    ensures After(times + [t], cutoff) == if t > cutoff then After(times, cutoff) + [t] else After(times, cutoff)
  {
    assert (times + [t])[..|times|] == times;
  }

  lemma {:induction false} AfterAfter(times: seq<int>, a: int, b: int)
    requires a <= b
    ensures After(After(times, a), b) == After(times, b)
  {
    if times == [] {
    } else {
      var rest, last := times[..|times| - 1], times[|times| - 1];
      AfterAfter(rest, a, b);
      if last > a {
        AfterPush(After(rest, a), last, b);
      } else {
        assert After(times, a) == After(rest, a) && After(times, b) == After(rest, b);
      }
    }
  }

  /** The kept times are all times but some that have left every window from `now` on. */
  ghost predicate KeepsWindows(o: Options, kept: seq<int>, all: seq<int>, now: int) {
    exists cut :: cut <= now - o.windowMs && kept == After(all, cut)
  }

  /** Pruning the kept times is pruning all of them. */
  lemma PruningSeesAll(o: Options, kept: seq<int>, all: seq<int>, last: int, now: int)
    requires KeepsWindows(o, kept, all, last) && last <= now
    ensures After(kept, now - o.windowMs) == After(all, now - o.windowMs)
  {
    var cut :| cut <= last - o.windowMs && kept == After(all, cut);
    AfterAfter(all, cut, now - o.windowMs);
  }

  lemma PushThenPruneSeesAll(o: Options, kept: seq<int>, all: seq<int>, last: int, t: int)
    requires KeepsWindows(o, kept, all, last) && last <= t
    ensures After(kept + [t], t - o.windowMs) == After(all + [t], t - o.windowMs)
  {
    PruningSeesAll(o, kept, all, last, t);
    AfterPush(kept, t, t - o.windowMs);
    AfterPush(all, t, t - o.windowMs);
  }

  /** The fields of the breaker in terms of the calls since it entered its state. */
  ghost predicate Agrees(o: Options, b: Breaker, recent: seq<Call>, openedBy: Option<int>, now: int) {
    match b.state
    case CLOSED => KeepsWindows(o, b.failureTimestamps, FailTimes(recent), now)
    case OPEN => openedBy.Some? && b.openedAt == openedBy && b.consecutiveSuccesses == 0
    case HALF_OPEN => b.consecutiveSuccesses == Successes(recent) && FailTimes(recent) == []
  }

  /** The time of the call that took the breaker into its present state. */
  function EnteredAt(o: Options, calls: seq<Call>): Option<int> {
    var s := Since(o, calls);
    if s == 0 then None else Some(calls[s - 1].at)
  }

  lemma RecentGrows(recent: seq<Call>, c: Call)
    ensures FailTimes(recent + [c]) == if c.Fail? then FailTimes(recent) + [c.at] else FailTimes(recent)
    ensures Successes(recent + [c]) == Successes(recent) + if c.Succeed? then 1 else 0
  {
    assert (recent + [c])[..|recent|] == recent;
  }

  lemma ClosedFailAgrees(o: Options, b: Breaker, recent: seq<Call>, openedBy: Option<int>, last: int, c: Call)
    requires b.state == CLOSED && Agrees(o, b, recent, openedBy, last) && last <= c.at && c.Fail?
    ensures var next := Apply(o, b, c);
            && (next.state == OPEN ==> Agrees(o, next, [], Some(c.at), c.at))
            && (next.state == CLOSED ==> Agrees(o, next, recent + [c], openedBy, c.at))
            && next.state != HALF_OPEN
  {
    hide After, FailTimes;
    RecentGrows(recent, c);
    PushThenPruneSeesAll(o, b.failureTimestamps, FailTimes(recent), last, c.at);
  }

  lemma ClosedOtherAgrees(o: Options, b: Breaker, recent: seq<Call>, openedBy: Option<int>, last: int, c: Call)
    requires b.state == CLOSED && Agrees(o, b, recent, openedBy, last) && last <= c.at && (c.Ask? || c.Succeed?)
    ensures Apply(o, b, c).state == CLOSED
    ensures Agrees(o, Apply(o, b, c), recent + [c], openedBy, c.at)
  {
    hide After, FailTimes;
    RecentGrows(recent, c);
    if c.Succeed? {
      PruningSeesAll(o, b.failureTimestamps, FailTimes(recent), last, c.at);
    } else {
      AgreesLater(o, b, recent, openedBy, last, c.at);
    }
  }

  lemma AgreesLater(o: Options, b: Breaker, recent: seq<Call>, openedBy: Option<int>, last: int, now: int)
    requires Agrees(o, b, recent, openedBy, last) && last <= now
    ensures Agrees(o, b, recent, openedBy, now)
  {
    if b.state == CLOSED {
      var cut :| cut <= last - o.windowMs && b.failureTimestamps == After(FailTimes(recent), cut);
    }
  }

  lemma FreshAgrees(o: Options, openedBy: Option<int>, now: int)
    ensures Agrees(o, Initial(), [], openedBy, now)
  {
    assert After([], now - o.windowMs) == [];
  }

  lemma StepAgrees(o: Options, b: Breaker, recent: seq<Call>, openedBy: Option<int>, last: int, c: Call)
    requires Agrees(o, b, recent, openedBy, last) && last <= c.at
    ensures var next := Apply(o, b, c);
            if c.Reset? || next.state != b.state
            then Agrees(o, next, [], Some(c.at), c.at)
            else Agrees(o, next, recent + [c], openedBy, c.at)
  {
    FreshAgrees(o, Some(c.at), c.at);
    if b.state == CLOSED && c.Fail? {
      ClosedFailAgrees(o, b, recent, openedBy, last, c);
    } else if b.state == CLOSED && !c.Reset? {
      ClosedOtherAgrees(o, b, recent, openedBy, last, c);
    } else {
      RecentGrows(recent, c);
    }
  }

  predicate Entered(o: Options, before: seq<Call>, c: Call) {
    c.Reset? || Run(o, before + [c]).state != Run(o, before).state
  }

  lemma RecentOf(o: Options, before: seq<Call>, c: Call)
    ensures Run(o, before + [c]) == Apply(o, Run(o, before), c)
    ensures Since(o, before + [c]) == if Entered(o, before, c) then |before| + 1 else Since(o, before)
    ensures (before + [c])[Since(o, before + [c])..] == if Entered(o, before, c) then [] else before[Since(o, before)..] + [c]
  {
    var calls := before + [c];
    assert calls[..|calls| - 1] == before;
    var s := Since(o, before);
    assert calls[s..] == before[s..] + [c];
    assert calls[|calls|..] == [];
  }

  /** Whatever was called, with a clock that does not run back, the fields agree with the full history. */
  lemma {:induction false} HistoryAgrees(o: Options, calls: seq<Call>, now: int)
    requires Nondecreasing(calls) && forall i | 0 <= i < |calls| :: calls[i].at <= now
    ensures Agrees(o, Run(o, calls), calls[Since(o, calls)..], EnteredAt(o, calls), now)
    decreases |calls|
  {
    if calls == [] {
      FreshAgrees(o, EnteredAt(o, calls), now);
      assert calls[0..] == [];
    } else {
      var before, c := calls[..|calls| - 1], calls[|calls| - 1];
      HistoryAgrees(o, before, c.at);
      OneMoreAgrees(o, before, c);
      assert calls == before + [c];
      AgreesLater(o, Run(o, calls), calls[Since(o, calls)..], EnteredAt(o, calls), c.at, now);
    }
  }

  lemma {:induction false} OneMoreAgrees(o: Options, before: seq<Call>, c: Call)
    requires Agrees(o, Run(o, before), before[Since(o, before)..], EnteredAt(o, before), c.at)
    ensures var calls := before + [c]; Agrees(o, Run(o, calls), calls[Since(o, calls)..], EnteredAt(o, calls), c.at)
  {
    StepAgrees(o, Run(o, before), before[Since(o, before)..], EnteredAt(o, before), c.at, c);
    RecentOf(o, before, c);
  }

  // ---------------------------------------------------------------------------
  // What the breaker does, in terms of the full history
  // ---------------------------------------------------------------------------

  ghost predicate InTime(calls: seq<Call>, c: Call) {
    Nondecreasing(calls + [c])
  }

  lemma {:induction false} AgreesUntil(o: Options, calls: seq<Call>, c: Call)
    requires InTime(calls, c)
    ensures Agrees(o, Run(o, calls), calls[Since(o, calls)..], EnteredAt(o, calls), c.at)
    ensures Run(o, calls + [c]) == Apply(o, Run(o, calls), c)
  {
    var all := calls + [c];
    assert forall i | 0 <= i < |calls| :: all[i] == calls[i];
    assert all[|calls|] == c;
    RunOne(o, calls, c);
    HistoryAgrees(o, calls, c.at);
  }

  /** The failures since the breaker entered its state, `c` included, that lie in the window at `c`. */
  function FailuresInWindow(o: Options, calls: seq<Call>, c: Call): nat {
    |After(FailTimes(calls[Since(o, calls)..] + [c]), c.at - o.windowMs)|
  }

  /**
   A closed breaker opens exactly when a failure is recorded and the failures since it
   was last closed, the unpruned ones that lie within the window, reach the threshold.
   */
  lemma {:induction false} OpensExactlyAtThreshold(o: Options, calls: seq<Call>, c: Call)
    requires InTime(calls, c) && Run(o, calls).state == CLOSED
    ensures Run(o, calls + [c]).state == OPEN <==> c.Fail? && FailuresInWindow(o, calls, c) >= o.failureThreshold
    ensures Run(o, calls + [c]).state != HALF_OPEN
  {
    RunOne(o, calls, c);
    hide Run, Since, After, FailTimes;
    if c.Fail? {
      PrunedSeesAll(o, calls, c);
      FailureOpens(o, Run(o, calls), c.at);
    }
  }

  lemma {:induction false} PrunedSeesAll(o: Options, calls: seq<Call>, c: Call)
    requires InTime(calls, c) && Run(o, calls).state == CLOSED && c.Fail?
    ensures |After(Run(o, calls).failureTimestamps + [c.at], c.at - o.windowMs)| == FailuresInWindow(o, calls, c)
  {
    hide Run, Since, After, FailTimes, InTime;
    AgreesUntil(o, calls, c);
    var recent := calls[Since(o, calls)..];
    PushThenPruneSeesAll(o, Run(o, calls).failureTimestamps, FailTimes(recent), c.at, c.at);
    RecentGrows(recent, c);
  }

  lemma FailureOpens(o: Options, b: Breaker, t: int)
    requires b.state == CLOSED
    ensures Apply(o, b, Fail(t)).state ==
      if |After(b.failureTimestamps + [t], t - o.windowMs)| >= o.failureThreshold then OPEN else CLOSED
  {
  }

  /** A call is rejected exactly while the breaker is open and inside the cooldown of the call that opened it. */
  lemma {:induction false} RejectsExactlyInCooldown(o: Options, calls: seq<Call>, now: int)
    requires InTime(calls, Ask(now))
    ensures !Permits(o, Run(o, calls), now)
        <==> Run(o, calls).state == OPEN && EnteredAt(o, calls).Some? && now - EnteredAt(o, calls).value < o.cooldownMs
    ensures Permits(o, Run(o, calls), now) <==> Run(o, calls + [Ask(now)]).state != OPEN
  {
    hide Run, Since, After, FailTimes, Successes, InTime;
    AgreesUntil(o, calls, Ask(now));
  }

  /**
   A half-open breaker closes exactly on the success that brings those since it became
   half-open to the threshold (or on a reset), and no failure was recorded meanwhile.
   */
  lemma {:induction false} ClosesExactlyAfterSuccesses(o: Options, calls: seq<Call>, c: Call)
    requires InTime(calls, c) && Run(o, calls).state == HALF_OPEN
    ensures FailTimes(calls[Since(o, calls)..]) == []
    ensures Run(o, calls + [c]).state == CLOSED
        <==> c.Reset? || (c.Succeed? && Successes(calls[Since(o, calls)..] + [c]) >= o.successThreshold)
    ensures Run(o, calls + [c]).state == OPEN <==> c.Fail?
  {
    hide Run, Since, After, FailTimes, Successes, InTime;
    AgreesUntil(o, calls, c);
    HalfOpenStep(o, Run(o, calls), calls[Since(o, calls)..], EnteredAt(o, calls), c);
  }

  lemma HalfOpenStep(o: Options, b: Breaker, recent: seq<Call>, openedBy: Option<int>, c: Call)
    requires b.state == HALF_OPEN && Agrees(o, b, recent, openedBy, c.at)
    ensures Apply(o, b, c).state == CLOSED
        <==> c.Reset? || (c.Succeed? && Successes(recent + [c]) >= o.successThreshold)
    ensures Apply(o, b, c).state == OPEN <==> c.Fail?
  {
    hide After, FailTimes, Successes;
    RecentGrows(recent, c);
  }

  /** Until the cooldown is over nothing but a reset moves an open breaker. */
  lemma {:induction false} OpenStaysPut(o: Options, calls: seq<Call>, more: seq<Call>, t: int)
    requires Run(o, calls).state == OPEN && Run(o, calls).openedAt == Some(t)
    requires forall i | 0 <= i < |more| :: more[i].at - t < o.cooldownMs && !more[i].Reset?
    ensures Run(o, calls + more) == Run(o, calls)
    decreases |more|
  {
    if more == [] {
      assert calls + more == calls;
    } else {
      var rest, c := more[..|more| - 1], more[|more| - 1];
      OpenStaysPut(o, calls, rest, t);
      assert calls + more == (calls + rest) + [c];
      RunOne(o, calls + rest, c);
    }
  }

  /** Nobody gets through before the cooldown is over, whatever else is reported in the meantime. */
  lemma {:induction false} OpenThroughCooldown(o: Options, calls: seq<Call>, more: seq<Call>, t: int, now: int)
    requires Run(o, calls).state == OPEN && Run(o, calls).openedAt == Some(t)
    requires forall i | 0 <= i < |more| :: more[i].at <= now && !more[i].Reset?
    requires now - t < o.cooldownMs
    ensures !Permits(o, Run(o, calls + more), now)
  {
    OpenStaysPut(o, calls, more, t);
  }

  lemma RunOne(o: Options, calls: seq<Call>, c: Call)
    ensures Run(o, calls + [c]) == Apply(o, Run(o, calls), c)
  {
    assert (calls + [c])[..|calls|] == calls;
  }

  // ---------------------------------------------------------------------------
  // Clocks that may run back
  // ---------------------------------------------------------------------------

  /** The calls after which a closed breaker prunes its list. */
  predicate Prunes(c: Call) {
    c.Succeed? || c.Fail?
  }

  /** What one more call makes of the list of a breaker that stays closed. */
  function ListAfter(o: Options, kept: seq<int>, c: Call): seq<int> {
    if c.Succeed? then After(kept, c.at - o.windowMs)
    else if c.Fail? then After(kept + [c.at], c.at - o.windowMs)
    else kept
  }

  /** The list a closed breaker is left with by these calls, at whatever times. */
  function KeptBy(o: Options, recent: seq<Call>): seq<int> {
    if recent == [] then [] else ListAfter(o, KeptBy(o, recent[..|recent| - 1]), recent[|recent| - 1])
  }

  lemma KeptByOneMore(o: Options, recent: seq<Call>, c: Call)
    ensures KeptBy(o, recent + [c]) == ListAfter(o, KeptBy(o, recent), c)
  {
    assert (recent + [c])[..|recent|] == recent;
  }

  lemma ClosedStepList(o: Options, b: Breaker, c: Call)
    requires Apply(o, b, c).state == CLOSED
    ensures Apply(o, b, c).failureTimestamps ==
              if c.Reset? || b.state != CLOSED then [] else ListAfter(o, b.failureTimestamps, c)
  {
  }

  lemma {:induction false} ClosedListIsKept(o: Options, calls: seq<Call>)
    requires Run(o, calls).state == CLOSED
    ensures Run(o, calls).failureTimestamps == KeptBy(o, calls[Since(o, calls)..])
  {
    if calls == [] {
      assert calls[0..] == [];
    } else {
      var before, c := calls[..|calls| - 1], calls[|calls| - 1];
      assert calls == before + [c];
      RecentOf(o, before, c);
      hide Since, Apply, Run;
      ClosedStepList(o, Run(o, before), c);
      if Entered(o, before, c) {
        assert KeptBy(o, []) == [];
      } else {
        ClosedListIsKept(o, before);
        KeptByOneMore(o, before[Since(o, before)..], c);
      }
    }
  }

  /** The times of the failures among the calls whose positions satisfy `p`. */
  function Pick(recent: seq<Call>, p: nat -> bool): seq<int> {
    if recent == [] then [] else
      var n := |recent| - 1;
      var rest := Pick(recent[..n], p);
      if recent[n].Fail? && p(n) then rest + [recent[n].at] else rest
  }

  lemma {:induction false} PickAgrees(recent: seq<Call>, p: nat -> bool, q: nat -> bool)
    requires forall i: nat | i < |recent| && recent[i].Fail? :: p(i) == q(i)
    ensures Pick(recent, p) == Pick(recent, q)
  {
    if recent == [] {
    } else {
      PickAgrees(recent[..|recent| - 1], p, q);
    }
  }

  /** Fewer positions give fewer times, and as many only if no failure is missing. */
  lemma {:induction false} PickCounts(recent: seq<Call>, p: nat -> bool, q: nat -> bool)
    requires forall i: nat | i < |recent| && p(i) :: q(i)
    ensures |Pick(recent, p)| <= |Pick(recent, q)|
    ensures |Pick(recent, p)| == |Pick(recent, q)| <==> forall i: nat | i < |recent| && recent[i].Fail? && q(i) :: p(i)
  {
    if recent == [] {
    } else {
      var n := |recent| - 1;
      PickCounts(recent[..n], p, q);
      assert forall i: nat | i < n :: recent[..n][i] == recent[i];
    }
  }

  lemma {:induction false} PickAfter(recent: seq<Call>, p: nat -> bool, q: nat -> bool, cutoff: int)
    requires forall i: nat | i < |recent| && recent[i].Fail? :: q(i) <==> p(i) && recent[i].at > cutoff
    ensures After(Pick(recent, p), cutoff) == Pick(recent, q)
  {
    if recent == [] {
    } else {
      var n := |recent| - 1;
      PickAfter(recent[..n], p, q, cutoff);
      if recent[n].Fail? && p(n) {
        AfterPush(Pick(recent[..n], p), recent[n].at, cutoff);
      }
    }
  }

  /** No prune from the failure on has cut it off. */
  ghost predicate Survives(o: Options, recent: seq<Call>, i: nat) {
    i < |recent| && forall j | i <= j < |recent| && Prunes(recent[j]) :: recent[i].at > recent[j].at - o.windowMs
  }

  ghost function Survivors(o: Options, recent: seq<Call>): nat -> bool {
    (i: nat) => Survives(o, recent, i)
  }

  lemma SurvivesOneMore(o: Options, recent: seq<Call>, c: Call, i: nat)
    requires i < |recent|
    ensures Survives(o, recent + [c], i) <==>
              Survives(o, recent, i) && (Prunes(c) ==> recent[i].at > c.at - o.windowMs)
  {
    var more := recent + [c];
    assert more[|recent|] == c;
    assert forall j | 0 <= j < |recent| :: more[j] == recent[j];
  }

  lemma PickOneMore(recent: seq<Call>, c: Call, p: nat -> bool)
    ensures Pick(recent + [c], p) == if c.Fail? && p(|recent|) then Pick(recent, p) + [c.at] else Pick(recent, p)
  {
    assert (recent + [c])[..|recent|] == recent;
  }

  /** The list is the times of the failures that survive. */
  lemma {:induction false} KeptAreSurvivors(o: Options, recent: seq<Call>)
    ensures KeptBy(o, recent) == Pick(recent, Survivors(o, recent))
  {
    if recent == [] {
    } else {
      var before, c := recent[..|recent| - 1], recent[|recent| - 1];
      assert recent == before + [c];
      KeptAreSurvivors(o, before);
      OneMoreSurvives(o, before, c);
    }
  }

  lemma SurvivorsOneMore(o: Options, before: seq<Call>, c: Call, i: nat)
    requires i < |before|
    ensures Survivors(o, before + [c])(i) <==> Survivors(o, before)(i) && (Prunes(c) ==> before[i].at > c.at - o.windowMs)
  {
    SurvivesOneMore(o, before, c, i);
  }

  lemma LastSurvives(o: Options, before: seq<Call>, c: Call)
    ensures Survivors(o, before + [c])(|before|) <==> (Prunes(c) ==> c.at > c.at - o.windowMs)
  {
    assert (before + [c])[|before|] == c;
  }

  lemma OneMoreSurvives(o: Options, before: seq<Call>, c: Call)
    ensures ListAfter(o, Pick(before, Survivors(o, before)), c) == Pick(before + [c], Survivors(o, before + [c]))
  {
    hide After, Pick, Survivors;
    var was, now, n := Survivors(o, before), Survivors(o, before + [c]), |before|;
    LastSurvives(o, before, c);
    PickOneMore(before, c, now);
    forall i: nat | i < n
      ensures now(i) <==> was(i) && (Prunes(c) ==> before[i].at > c.at - o.windowMs)
    {
      SurvivorsOneMore(o, before, c, i);
    }
    if Prunes(c) {
      PickAfter(before, was, now, c.at - o.windowMs);
      AfterPush(Pick(before, was), c.at, c.at - o.windowMs);
    } else {
      PickAgrees(before, was, now);
    }
  }

  /** Some failure that lies in the window at `now` was cut off by a prune after it. */
  ghost predicate Forgets(o: Options, recent: seq<Call>, now: int) {
    exists i, j | 0 <= i <= j < |recent| ::
      recent[i].Fail? && Prunes(recent[j]) && now - o.windowMs < recent[i].at <= recent[j].at - o.windowMs
  }

  lemma {:induction false} AllFailures(recent: seq<Call>)
    ensures FailTimes(recent) == Pick(recent, (i: nat) => true)
  {
    if recent == [] {
    } else {
      AllFailures(recent[..|recent| - 1]);
    }
  }

  lemma ForgottenAreMissing(o: Options, recent: seq<Call>, now: int)
    ensures var kept, all := After(KeptBy(o, recent), now - o.windowMs), After(FailTimes(recent), now - o.windowMs);
            |kept| <= |all| && (|kept| == |all| <==> !Forgets(o, recent, now))
  {
    var cutoff := now - o.windowMs;
    var p := (i: nat) => Survives(o, recent, i) && i < |recent| && recent[i].at > cutoff;
    var q := (i: nat) => i < |recent| && recent[i].at > cutoff;
    KeptAreSurvivors(o, recent);
    AllFailures(recent);
    PickAfter(recent, Survivors(o, recent), p, cutoff);
    PickAfter(recent, (i: nat) => true, q, cutoff);
    PickCounts(recent, p, q);
  }

  /**
   At whatever times the calls come, the pruned list never counts too many failures,
   and counts all that lie in the window exactly when none of them was cut off before.
   */
  lemma {:induction false} PrunedCountExactIff(o: Options, calls: seq<Call>, c: Call)
    requires Run(o, calls).state == CLOSED && c.Fail?
    ensures var counted := |Pruned(o, Run(o, calls).(failureTimestamps := Run(o, calls).failureTimestamps + [c.at]), c.at).failureTimestamps|;
            && counted <= FailuresInWindow(o, calls, c)
            && (counted == FailuresInWindow(o, calls, c) <==> !Forgets(o, calls[Since(o, calls)..], c.at))
  {
    hide Run, Since, After, KeptBy, FailTimes, Forgets;
    ClosedListIsKept(o, calls);
    CountsExactIff(o, calls[Since(o, calls)..], c);
  }

  lemma CountsExactIff(o: Options, recent: seq<Call>, c: Call)
    requires c.Fail?
    ensures var counted, all := |After(KeptBy(o, recent) + [c.at], c.at - o.windowMs)|,
                                |After(FailTimes(recent + [c]), c.at - o.windowMs)|;
            counted <= all && (counted == all <==> !Forgets(o, recent, c.at))
  {
    hide KeptBy, Forgets, After, FailTimes;
    ForgottenAreMissing(o, recent, c.at);
    RecentGrows(recent, c);
    AfterPush(KeptBy(o, recent), c.at, c.at - o.windowMs);
    AfterPush(FailTimes(recent), c.at, c.at - o.windowMs);
  }

  /** So no clock makes the breaker open early, and only a cut-off failure makes it open late. */
  lemma {:induction false} OpensExactlyUnlessForgotten(o: Options, calls: seq<Call>, c: Call)
    requires Run(o, calls).state == CLOSED && c.Fail?
    ensures Run(o, calls + [c]).state == OPEN ==> FailuresInWindow(o, calls, c) >= o.failureThreshold
    ensures !Forgets(o, calls[Since(o, calls)..], c.at) ==>
              (Run(o, calls + [c]).state == OPEN <==> FailuresInWindow(o, calls, c) >= o.failureThreshold)
  {
    RunOne(o, calls, c);
    hide Run, Since, After, FailuresInWindow, Forgets;
    PrunedCountExactIff(o, calls, c);
    FailureOpens(o, Run(o, calls), c.at);
  }

  /**
   A clock that runs back defeats the pruning: the failure it brings back into the
   window is gone, and a breaker that has seen two failures in its window stays closed.
   */
  lemma BackwardClockMissesAFailure(o: Options, t: int)
    requires o.failureThreshold == 2 && 1 < o.windowMs
    ensures var calls := [Fail(t), Succeed(t + o.windowMs)];
            && Since(o, calls) == 0
            && After(FailTimes(calls + [Fail(t + 1)]), t + 1 - o.windowMs) == [t, t + 1]
            && Run(o, calls + [Fail(t + 1)]).state == CLOSED
  {
    var calls, last := [Fail(t), Succeed(t + o.windowMs)], t + 1;
    BothInWindow(Fail(t), Succeed(t + o.windowMs), last, last - o.windowMs);
    TwoCallsForgetTheFailure(o, t);
    RunOne(o, calls, Fail(last));
    FreshFailureStaysClosed(o, last);
  }

  lemma BothInWindow(first: Call, second: Call, last: int, cutoff: int)
    requires first.Fail? && second.Succeed? && cutoff < first.at && cutoff < last
    ensures After(FailTimes([first, second] + [Fail(last)]), cutoff) == [first.at, last]
  {
    RecentGrows([], first);
    RecentGrows([first], second);
    RecentGrows([first, second], Fail(last));
    assert [] + [first] == [first] && [first] + [second] == [first, second];
    assert FailTimes([first, second]) == [first.at];
    AfterPush([first.at], last, cutoff);
    AfterPush([], first.at, cutoff);
    assert [] + [first.at] == [first.at];
  }

  lemma FreshFailureStaysClosed(o: Options, t: int)
    requires o.failureThreshold == 2 && 0 < o.windowMs
    ensures Apply(o, Initial(), Fail(t)) == Breaker(CLOSED, [t], 0, None)
  {
    AfterPush([], t, t - o.windowMs);
    assert [] + [t] == [t];
  }

  lemma TwoCallsForgetTheFailure(o: Options, t: int)
    requires o.failureThreshold == 2 && 1 < o.windowMs
    ensures var calls := [Fail(t), Succeed(t + o.windowMs)];
            Run(o, calls) == Initial() && Since(o, calls) == 0
  {
    var first, second := Fail(t), Succeed(t + o.windowMs);
    RecentOf(o, [], first);
    RecentOf(o, [first], second);
    assert [] + [first] == [first] && [first] + [second] == [first, second];
    FreshFailureStaysClosed(o, t);
    AfterPush([], t, t);
    assert [] + [t] == [t];
  }
}
