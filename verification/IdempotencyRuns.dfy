/**
 Whole runs of the idempotency store and of the limiter wrapper around it
 (src/middleware/rate-limit.ts): any number of processes, their SQL statements
 interleaved in any order with cleanups, lost processes and the passing of time.

 A run is a list of steps; a step that is not enabled changes nothing, so
 every list of steps is a run.
 */
module IdempotencyRuns {
  import opened Common
  import opened IdempotencyStore

  /**
   A request in the wrapper: claiming the key, running the operation, response
   captured but not yet written, or finished.  `Lost` is a process that died, or
   a response whose write failed.
   */
  datatype Phase =
    | Claiming(pc: Pc)
    | Running
    | Settling(statusCode: int, body: string)
    | Settled(statusCode: int, body: string)
    | Rejected(result: ClaimResult)
    | Lost

  datatype Client = Client(q: Request, phase: Phase)

  datatype Event =
    | ClaimEvent(client: nat, key: Key, at: int, expiresAt: int)
    | FailEvent(key: Key)

  datatype State = State(clock: int, rows: Table, clients: map<nat, Client>, log: seq<Event>)

  datatype Step =
    | Tick(to: int)
    | Arrive(c: nat, key: Key, fingerprint: string)
    | Statement(c: nat)
    | Respond(c: nat, statusCode: int, body: string)
    | Settle(c: nat)
    | Lose(c: nat)
    | Cleanup(now: int)

  /** The client holds the key: its operation may still be executing or its response unwritten. */
  predicate Active(c: Client) {
    c.phase.Running? || c.phase.Settling?
  }

  function SetPhase(s: State, c: nat, phase: Phase): State
    requires c in s.clients
  {
    s.(clients := s.clients[c := s.clients[c].(phase := phase)])
  }

  function ApplyStatement(s: State, c: nat): State
    requires c in s.clients && s.clients[c].phase.Claiming?
  {
    var q := s.clients[c].q;
    var (rows, pc) := ClaimStep(s.clients[c].phase.pc, q, s.rows);
    if pc == Done(Claimed) then
      SetPhase(s, c, Running).(rows := rows, log := s.log + [ClaimEvent(c, q.key, s.clock, q.expiresAt)])
    else if pc.Done? then SetPhase(s, c, Rejected(pc.result)).(rows := rows)
    else SetPhase(s, c, Claiming(pc)).(rows := rows)
  }

  /** The captured response is written: a 5xx marks the row failed, anything else completes it. */
  function ApplySettle(s: State, c: nat): State
    requires c in s.clients && s.clients[c].phase.Settling?
  {
    var Settling(statusCode, body) := s.clients[c].phase;
    var k := s.clients[c].q.key;
    var rows := SettleStatement(s.rows, k, statusCode, body);
    SetPhase(s, c, Settled(statusCode, body)).(
      rows := rows,
      log := if statusCode >= 500 && rows != s.rows then s.log + [FailEvent(k)] else s.log)
  }

  function Apply(s: State, step: Step): State {
    match step
    case Tick(to) => if to >= s.clock then s.(clock := to) else s
    case Arrive(c, key, fingerprint) =>
      if c in s.clients then s
      else
        var q := Request(key, fingerprint, s.clock, s.clock + IDEMPOTENCY_TTL_MS);
        s.(clients := s.clients[c := Client(q, Claiming(Inserting))])
    case Statement(c) =>
      if c in s.clients && s.clients[c].phase.Claiming? then ApplyStatement(s, c) else s
    case Respond(c, statusCode, body) =>
      // Captured once: a later res.json/res.send finds the client no longer Running.
      if c in s.clients && s.clients[c].phase.Running? then SetPhase(s, c, Settling(statusCode, body)) else s
    case Settle(c) =>
      if c in s.clients && s.clients[c].phase.Settling? then ApplySettle(s, c) else s
    case Lose(c) =>
      if c in s.clients && Active(s.clients[c]) then SetPhase(s, c, Lost) else s
    case Cleanup(now) =>
      if now <= s.clock then s.(rows := CleanupStatement(s.rows, now)) else s
  }

  function Run(s: State, steps: seq<Step>): State
    decreases |steps|
  {
    if steps == [] then s else Run(Apply(s, steps[0]), steps[1..])
  }

  function Start(clock: int): State {
    State(clock, map[], map[], [])
  }

  // ------------------------------------------------------------ mutual exclusion

  /** The hypothesis: whoever holds a key settles or dies before its own expiry. */
  ghost predicate Timely(s: State) {
    forall c | c in s.clients && Active(s.clients[c]) :: s.clock < s.clients[c].q.expiresAt
  }

  ghost predicate TimelyRun(s: State, steps: seq<Step>)
    decreases |steps|
  {
    Timely(s) && (steps != [] ==> TimelyRun(Apply(s, steps[0]), steps[1..]))
  }

  ghost predicate ClientsOk(s: State) {
    forall c | c in s.clients ::
      && s.clients[c].q.now <= s.clock
      && (s.clients[c].phase.Claiming? ==> Bounded(s.clients[c].phase.pc) && !s.clients[c].phase.pc.Done?)
  }

  /** The row of an active client is the one it claimed. */
  ghost predicate OwnsRow(s: State) {
    forall c | c in s.clients && Active(s.clients[c]) ::
      s.clients[c].q.key in s.rows && s.rows[s.clients[c].q.key] == FreshRow(s.clients[c].q)
  }

  ghost predicate Exclusive(s: State) {
    forall c, d | c in s.clients && d in s.clients && Active(s.clients[c]) && Active(s.clients[d])
               && s.clients[c].q.key == s.clients[d].q.key :: c == d
  }

  /** Client `d` executed the operation for this key and fingerprint and got this response. */
  ghost predicate Executed(s: State, d: nat, key: Key, fingerprint: string, statusCode: int, body: string) {
    && d in s.clients
    && s.clients[d].q.key == key && s.clients[d].q.fingerprint == fingerprint
    && s.clients[d].phase == Settled(statusCode, body) && statusCode < 500
  }

  /** Every recorded response was produced by an execution for the recorded fingerprint. */
  ghost predicate RowsBacked(s: State) {
    forall k | k in s.rows && s.rows[k].status == Completed ::
      && s.rows[k].statusCode.Some?
      && exists d :: Executed(s, d, k, s.rows[k].fingerprint, s.rows[k].statusCode.value, s.rows[k].body)
  }

  ghost predicate ReplaysBacked(s: State) {
    forall c | c in s.clients && s.clients[c].phase.Rejected? && s.clients[c].phase.result.Replay? ::
      exists d :: Executed(s, d, s.clients[c].q.key, s.clients[c].q.fingerprint,
                           s.clients[c].phase.result.statusCode, s.clients[c].phase.result.body)
  }

  ghost predicate Inv(s: State) {
    ClientsOk(s) && OwnsRow(s) && Exclusive(s) && RowsBacked(s) && ReplaysBacked(s)
  }

  lemma ExecutedKept(s: State, step: Step, d: nat, k: Key, f: string, code: int, body: string)
    requires Executed(s, d, k, f, code, body)
    ensures Executed(Apply(s, step), d, k, f, code, body)
  {
  }

  lemma StatementKeepsOwnership(s: State, c: nat)
    requires OwnsRow(s) && ClientsOk(s) && Timely(s)
    requires c in s.clients && s.clients[c].phase.Claiming?
    ensures OwnsRow(ApplyStatement(s, c))
  {
    ClaimedMeansTakenOver(s.clients[c].phase.pc, s.clients[c].q, s.rows);
  }

  lemma StatementKeepsExclusion(s: State, c: nat)
    requires OwnsRow(s) && ClientsOk(s) && Timely(s) && Exclusive(s)
    requires c in s.clients && s.clients[c].phase.Claiming?
    ensures Exclusive(ApplyStatement(s, c))
  {
    ClaimedMeansTakenOver(s.clients[c].phase.pc, s.clients[c].q, s.rows);
  }

  lemma StatementKeepsBacking(s: State, c: nat)
    requires Inv(s)
    requires c in s.clients && s.clients[c].phase.Claiming?
    ensures RowsBacked(ApplyStatement(s, c)) && ReplaysBacked(ApplyStatement(s, c))
  {
    var s' := ApplyStatement(s, c);
    var q := s.clients[c].q;
    ClaimedMeansTakenOver(s.clients[c].phase.pc, q, s.rows);
    forall k | k in s'.rows && s'.rows[k].status == Completed
      ensures s'.rows[k].statusCode.Some?
      ensures exists d :: Executed(s', d, k, s'.rows[k].fingerprint, s'.rows[k].statusCode.value, s'.rows[k].body)
    {
      assert s'.rows[k] == s.rows[k];
      var d :| Executed(s, d, k, s.rows[k].fingerprint, s.rows[k].statusCode.value, s.rows[k].body);
      ExecutedKept(s, Statement(c), d, k, s.rows[k].fingerprint, s.rows[k].statusCode.value, s.rows[k].body);
    }
    forall e | e in s'.clients && s'.clients[e].phase.Rejected? && s'.clients[e].phase.result.Replay?
      ensures exists d :: Executed(s', d, s'.clients[e].q.key, s'.clients[e].q.fingerprint,
                                   s'.clients[e].phase.result.statusCode, s'.clients[e].phase.result.body)
    {
      var r := s'.clients[e].phase.result;
      var k, f := s'.clients[e].q.key, s'.clients[e].q.fingerprint;
      var d :| Executed(s, d, k, f, r.statusCode, r.body);
      ExecutedKept(s, Statement(c), d, k, f, r.statusCode, r.body);
    }
  }

  /** Nothing a step other than a statement does touches the evidence behind responses. */
  lemma OtherStepsKeepBacking(s: State, step: Step)
    requires Inv(s) && Timely(s) && !step.Statement?
    ensures RowsBacked(Apply(s, step)) && ReplaysBacked(Apply(s, step))
  {
    var s' := Apply(s, step);
    forall k | k in s'.rows && s'.rows[k].status == Completed
      ensures s'.rows[k].statusCode.Some?
      ensures exists d :: Executed(s', d, k, s'.rows[k].fingerprint, s'.rows[k].statusCode.value, s'.rows[k].body)
    {
      if k in s.rows && s'.rows[k] == s.rows[k] {
        var d :| Executed(s, d, k, s.rows[k].fingerprint, s.rows[k].statusCode.value, s.rows[k].body);
        ExecutedKept(s, step, d, k, s.rows[k].fingerprint, s.rows[k].statusCode.value, s.rows[k].body);
      } else {
        assert Executed(s', step.c, k, s'.rows[k].fingerprint, s'.rows[k].statusCode.value, s'.rows[k].body);
      }
    }
    forall e | e in s'.clients && s'.clients[e].phase.Rejected? && s'.clients[e].phase.result.Replay?
      ensures exists d :: Executed(s', d, s'.clients[e].q.key, s'.clients[e].q.fingerprint,
                                   s'.clients[e].phase.result.statusCode, s'.clients[e].phase.result.body)
    {
      var r := s'.clients[e].phase.result;
      var k, f := s'.clients[e].q.key, s'.clients[e].q.fingerprint;
      var d :| Executed(s, d, k, f, r.statusCode, r.body);
      ExecutedKept(s, step, d, k, f, r.statusCode, r.body);
    }
  }

  lemma StepKeepsClientsOk(s: State, step: Step)
    requires ClientsOk(s)
    ensures ClientsOk(Apply(s, step))
  {
    if step.Statement? && step.c in s.clients && s.clients[step.c].phase.Claiming? {
      ClaimStepProgress(s.clients[step.c].phase.pc, s.clients[step.c].q, s.rows);
    }
  }

  lemma OtherStepsKeepOwnership(s: State, step: Step)
    requires Inv(s) && Timely(s) && !step.Statement?
    ensures OwnsRow(Apply(s, step))
  {
  }

  lemma OtherStepsKeepExclusion(s: State, step: Step)
    requires Inv(s) && !step.Statement?
    ensures Exclusive(Apply(s, step))
  {
  }

  lemma StepKeepsInv(s: State, step: Step)
    requires Inv(s) && Timely(s)
    ensures Inv(Apply(s, step))
  {
    StepKeepsClientsOk(s, step);
    if step.Statement? {
      if step.c in s.clients && s.clients[step.c].phase.Claiming? {
        StatementKeepsOwnership(s, step.c);
        StatementKeepsExclusion(s, step.c);
        StatementKeepsBacking(s, step.c);
      }
    } else {
      OtherStepsKeepBacking(s, step);
      OtherStepsKeepOwnership(s, step);
      OtherStepsKeepExclusion(s, step);
    }
  }

  lemma {:induction false} RunKeepsInv(s: State, steps: seq<Step>)
    requires Inv(s) && TimelyRun(s, steps)
    ensures Inv(Run(s, steps))
    decreases |steps|
  {
    if steps == [] {
    } else {
      StepKeepsInv(s, steps[0]);
      RunKeepsInv(Apply(s, steps[0]), steps[1..]);
    }
  }

  /**
   In every timely run at most one client holds a key, its row is in progress,
   unexpired and carries its fingerprint; and every replayed response came from
   an execution for the same key and fingerprint.
   */
  lemma AtMostOneHolder(clock: int, steps: seq<Step>)
    requires TimelyRun(Start(clock), steps)
    ensures var s := Run(Start(clock), steps);
            && Exclusive(s) && ReplaysBacked(s)
            && forall c | c in s.clients && Active(s.clients[c]) ::
                 var q := s.clients[c].q;
                 && q.key in s.rows && s.rows[q.key].status == InProgress
                 && s.rows[q.key].fingerprint == q.fingerprint
                 && s.rows[q.key].expiresAt > s.clock
  {
    RunKeepsInv(Start(clock), steps);
    TimelyAtEnd(Start(clock), steps);
  }

  lemma {:induction false} TimelyAtEnd(s: State, steps: seq<Step>)
    requires TimelyRun(s, steps)
    ensures Timely(Run(s, steps))
    decreases |steps|
  {
    if steps == [] {
    } else {
      TimelyAtEnd(Apply(s, steps[0]), steps[1..]);
    }
  }

  // ------------------------------------------------ why the hypothesis is needed

  const K: Key := Key("pay:10.0.0.1", "k-1")

  /** One client claims the key and is still running a TTL later ... */
  const FIRST_CLAIM: seq<Step> := [Arrive(0, K, "f"), Statement(0), Tick(IDEMPOTENCY_TTL_MS)]

  /** ... when a second client claims it: INSERT loses, SELECT finds the expired row, UPDATE re-claims it. */
  const SECOND_CLAIM: seq<Step> := [Arrive(1, K, "g"), Statement(1), Statement(1), Statement(1)]

  const OVERRUN: seq<Step> := FIRST_CLAIM + SECOND_CLAIM

  lemma {:induction false} RunSplit(s: State, a: seq<Step>, b: seq<Step>)
    ensures Run(s, a + b) == Run(Run(s, a), b)
    decreases |a|
  {
    if a == [] {
      assert a + b == b;
    } else {
      assert (a + b)[1..] == a[1..] + b;
      RunSplit(Apply(s, a[0]), a[1..], b);
    }
  }

  lemma RunTwo(s: State, a: Step, b: Step)
    ensures Run(s, [a, b]) == Apply(Apply(s, a), b)
  {
    assert [a, b][1..] == [b];
    assert Run(Apply(s, a), [b]) == Apply(Apply(s, a), b);
  }

  lemma RunThree(s: State, a: Step, b: Step, c: Step)
    ensures Run(s, [a, b, c]) == Apply(Apply(Apply(s, a), b), c)
  {
    assert [a, b, c][1..] == [b, c];
    RunTwo(Apply(s, a), b, c);
  }

  lemma RunFour(s: State, a: Step, b: Step, c: Step, d: Step)
    ensures Run(s, [a, b, c, d]) == Apply(Apply(Apply(Apply(s, a), b), c), d)
  {
    assert [a, b, c, d][1..] == [b, c, d];
    RunThree(Apply(s, a), b, c, d);
  }

  /** What a newcomer sends for a key, if nothing comes in between. */
  function ClaimOf(d: nat, k: Key, fingerprint: string): seq<Step> {
    [Arrive(d, k, fingerprint), Statement(d), Statement(d), Statement(d)]
  }

  lemma InsertLoses(s: State, d: nat)
    requires d in s.clients && s.clients[d].phase == Claiming(Inserting) && s.clients[d].q.key in s.rows
    ensures Apply(s, Statement(d)) == SetPhase(s, d, Claiming(Selecting(0)))
  {
  }

  lemma SelectDecides(s: State, d: nat, held: Request)
    requires d in s.clients && s.clients[d].phase == Claiming(Selecting(0)) && s.clients[d].q.key == held.key
    requires held.key in s.rows && s.rows[held.key] == FreshRow(held)
    ensures Apply(s, Statement(d)) ==
      SetPhase(s, d, if held.expiresAt <= s.clients[d].q.now then Claiming(Reclaiming(0)) else Rejected(InProgressResult))
  {
  }

  lemma ReclaimWins(s: State, d: nat)
    requires d in s.clients && s.clients[d].phase == Claiming(Reclaiming(0)) && s.clients[d].q.key in s.rows
    requires s.rows[s.clients[d].q.key].expiresAt <= s.clients[d].q.now
    ensures Apply(s, Statement(d)).clients == SetPhase(s, d, Running).clients
    ensures Apply(s, Statement(d)).clock == s.clock
  {
  }

  /**
   A newcomer gets a key that is held exactly when its holder has outlived its own
   record; then both run, whatever else is going on.
   */
  lemma HeldKeyIsTakenIffOverrun(s: State, c: nat, d: nat, fingerprint: string)
    requires OwnsRow(s) && c in s.clients && Active(s.clients[c]) && d !in s.clients
    ensures var t := Run(s, ClaimOf(d, s.clients[c].q.key, fingerprint));
            && c in t.clients && d in t.clients && t.clients[c] == s.clients[c]
            && t.clients[d].q.key == s.clients[c].q.key
            && (t.clients[d].phase == Running <==> s.clients[c].q.expiresAt <= s.clock)
            && (s.clients[c].q.expiresAt <= s.clock ==> !Exclusive(t))
  {
    var held := s.clients[c].q;
    var q := Request(held.key, fingerprint, s.clock, s.clock + IDEMPOTENCY_TTL_MS);
    NewcomerClaims(s, d, held, q);
  }

  lemma NewcomerClaims(s: State, d: nat, held: Request, q: Request)
    requires held.key in s.rows && s.rows[held.key] == FreshRow(held) && d !in s.clients
    requires q.key == held.key && q.now == s.clock && q.expiresAt == s.clock + IDEMPOTENCY_TTL_MS
    ensures Run(s, ClaimOf(d, q.key, q.fingerprint)).clients
         == s.clients[d := Client(q, if held.expiresAt <= s.clock then Running else Rejected(InProgressResult))]
    ensures Run(s, ClaimOf(d, q.key, q.fingerprint)).clock == s.clock
  {
    hide Run, Apply;
    var statement := Statement(d);
    RunFour(s, Arrive(d, q.key, q.fingerprint), statement, statement, statement);
    ArrivalWaits(s, d, q);
    var s1 := WithNewcomer(s, d, q, Claiming(Inserting));
    InsertLoses(s1, d);
    var s2 := WithNewcomer(s, d, q, Claiming(Selecting(0)));
    assert SetPhase(s1, d, Claiming(Selecting(0))) == s2;
    SelectDecides(s2, d, held);
    if held.expiresAt <= s.clock {
      var s3 := WithNewcomer(s, d, q, Claiming(Reclaiming(0)));
      assert SetPhase(s2, d, Claiming(Reclaiming(0))) == s3;
      ReclaimWins(s3, d);
    } else {
      var s3 := WithNewcomer(s, d, q, Rejected(InProgressResult));
      assert SetPhase(s2, d, Rejected(InProgressResult)) == s3;
      RejectedStays(s3, d);
    }
  }

  function WithNewcomer(s: State, d: nat, q: Request, phase: Phase): State {
    s.(clients := s.clients[d := Client(q, phase)])
  }

  lemma ArrivalWaits(s: State, d: nat, q: Request)
    requires d !in s.clients && q.now == s.clock && q.expiresAt == s.clock + IDEMPOTENCY_TTL_MS
    ensures Apply(s, Arrive(d, q.key, q.fingerprint)) == WithNewcomer(s, d, q, Claiming(Inserting))
  {
  }

  lemma RejectedStays(s: State, d: nat)
    requires d in s.clients && s.clients[d].phase.Rejected?
    ensures Apply(s, Statement(d)) == s
  {
  }

  /** Client `c` is past its claim and, while it is active, the only holder of its key. */
  ghost predicate HoldsAlone(s: State, c: nat) {
    && c in s.clients && !s.clients[c].phase.Claiming?
    && (Active(s.clients[c]) ==>
          && s.clients[c].q.key in s.rows && s.rows[s.clients[c].q.key] == FreshRow(s.clients[c].q)
          && forall e | e in s.clients && Active(s.clients[e]) && s.clients[e].q.key == s.clients[c].q.key :: e == c)
  }

  lemma StepKeepsHolderAlone(s: State, step: Step, c: nat)
    requires ClientsOk(s) && HoldsAlone(s, c) && Apply(s, step).clock < s.clients[c].q.expiresAt
    ensures HoldsAlone(Apply(s, step), c) && Apply(s, step).clients[c].q == s.clients[c].q
  {
    if step.Statement? && step.c in s.clients && s.clients[step.c].phase.Claiming? {
      ClaimedMeansTakenOver(s.clients[step.c].phase.pc, s.clients[step.c].q, s.rows);
    }
  }

  lemma {:induction false} RunKeepsHolderAlone(s: State, steps: seq<Step>, c: nat)
    requires ClientsOk(s) && HoldsAlone(s, c) && Run(s, steps).clock < s.clients[c].q.expiresAt
    ensures HoldsAlone(Run(s, steps), c) && Run(s, steps).clients[c].q == s.clients[c].q
    decreases |steps|
  {
    if steps == [] {
    } else {
      ClockAlongRun(Apply(s, steps[0]), steps[1..]);
      StepKeepsHolderAlone(s, steps[0], c);
      StepKeepsClientsOk(s, steps[0]);
      RunKeepsHolderAlone(Apply(s, steps[0]), steps[1..], c);
    }
  }

  /** Two clients hold one key. */
  predicate BothHold(s: State, c: nat, d: nat) {
    && c != d && c in s.clients && d in s.clients && s.clients[c].q.key == s.clients[d].q.key
    && Active(s.clients[c]) && Active(s.clients[d])
  }

  /** Nobody joins `c` in holding its key, however the others' statements fall, as long as the clock is at most `until`. */
  ghost predicate AloneUntil(s: State, c: nat, until: int) {
    forall steps, d | Run(s, steps).clock <= until :: !BothHold(Run(s, steps), c, d)
  }

  lemma {:induction false} AbsentClient(used: set<nat>) returns (d: nat)
    ensures forall c | c in used :: c < d
  {
    if used == {} {
      d := 0;
    } else {
      var c :| c in used;
      var m := AbsentClient(used - {c});
      d := Max(m, c + 1);
      assert used == (used - {c}) + {c};
    }
  }

  /** A holder that is still active is joined by a newcomer from the expiry of its record on. */
  lemma OverrunHolderIsJoined(s: State, c: nat, d: nat, until: int)
    requires OwnsRow(s) && c in s.clients && Active(s.clients[c]) && d !in s.clients
    requires s.clock <= until && s.clients[c].q.expiresAt <= until
    ensures var t := Run(s, [Tick(until)] + ClaimOf(d, s.clients[c].q.key, ""));
            t.clock == until && BothHold(t, c, d)
  {
    var later, q := s.(clock := until), s.clients[c].q;
    assert Run(s, [Tick(until)]) == later by {
      assert [Tick(until)][1..] == [];
      assert Run(later, []) == later;
    }
    RunSplit(s, [Tick(until)], ClaimOf(d, q.key, ""));
    hide Run, Apply;
    NewcomerClaims(later, d, q, Request(q.key, "", until, until + IDEMPOTENCY_TTL_MS));
  }

  /**
   A key has one holder exactly until the holder's record expires, whoever else
   claims it and however the statements are interleaved.
   */
  lemma AloneUntilIffBeforeExpiry(s: State, c: nat, until: int)
    requires ClientsOk(s) && OwnsRow(s) && Exclusive(s)
    requires c in s.clients && Active(s.clients[c]) && s.clock <= until
    ensures AloneUntil(s, c, until) <==> until < s.clients[c].q.expiresAt
  {
    if until < s.clients[c].q.expiresAt {
      forall steps, d | Run(s, steps).clock <= until
        ensures !BothHold(Run(s, steps), c, d)
      {
        RunKeepsHolderAlone(s, steps, c);
      }
    } else {
      var d := AbsentClient(s.clients.Keys);
      OverrunHolderIsJoined(s, c, d, until);
    }
  }

  lemma FirstClaim() returns (s: State)
    ensures s == Run(Start(0), FIRST_CLAIM) && s.clock == IDEMPOTENCY_TTL_MS
    ensures var q := Request(K, "f", 0, IDEMPOTENCY_TTL_MS);
            s.clients == map[0 := Client(q, Running)] && s.rows == map[K := FreshRow(q)]
  {
    var q := Request(K, "f", 0, IDEMPOTENCY_TTL_MS);
    var s1 := Apply(Start(0), FIRST_CLAIM[0]);
    assert s1.clients == map[0 := Client(q, Claiming(Inserting))];
    var s2 := Apply(s1, FIRST_CLAIM[1]);
    assert s2.clients == map[0 := Client(q, Running)] && s2.rows == map[K := FreshRow(q)];
    s := Apply(s2, FIRST_CLAIM[2]);
    RunThree(Start(0), FIRST_CLAIM[0], FIRST_CLAIM[1], FIRST_CLAIM[2]);
  }

  lemma SecondClaim(s: State) returns (t: State)
    requires s.clock == IDEMPOTENCY_TTL_MS
    requires var q := Request(K, "f", 0, IDEMPOTENCY_TTL_MS);
             s.clients == map[0 := Client(q, Running)] && s.rows == map[K := FreshRow(q)]
    ensures t == Run(s, SECOND_CLAIM)
    ensures var q := Request(K, "g", IDEMPOTENCY_TTL_MS, 2 * IDEMPOTENCY_TTL_MS);
            t.clients == s.clients[1 := Client(q, Running)] && t.rows == map[K := FreshRow(q)]
  {
    var q := Request(K, "g", IDEMPOTENCY_TTL_MS, 2 * IDEMPOTENCY_TTL_MS);
    var s1 := Apply(s, SECOND_CLAIM[0]);
    assert s1 == s.(clients := s.clients[1 := Client(q, Claiming(Inserting))]);
    var s2 := Apply(s1, SECOND_CLAIM[1]);
    assert s2 == s.(clients := s.clients[1 := Client(q, Claiming(Selecting(0)))]);
    var s3 := Apply(s2, SECOND_CLAIM[2]);
    assert s3 == s.(clients := s.clients[1 := Client(q, Claiming(Reclaiming(0)))]);
    t := Apply(s3, SECOND_CLAIM[3]);
    RunFour(s, SECOND_CLAIM[0], SECOND_CLAIM[1], SECOND_CLAIM[2], SECOND_CLAIM[3]);
  }

  /** An operation that outlives its own record runs beside a second execution of its key. */
  lemma OverrunBreaksExclusion() returns (s: State)
    ensures s == Run(Start(0), OVERRUN)
    ensures s.clients.Keys == {0, 1} && s.clients[0].phase == Running && s.clients[1].phase == Running
    ensures s.clients[0].q == Request(K, "f", 0, IDEMPOTENCY_TTL_MS)
    ensures s.rows == map[K := FreshRow(s.clients[1].q)] && s.clients[1].q.fingerprint == "g"
    ensures !Exclusive(s) && !TimelyRun(Start(0), OVERRUN)
  {
    var first := FirstClaim();
    s := SecondClaim(first);
    RunSplit(Start(0), FIRST_CLAIM, SECOND_CLAIM);
    if TimelyRun(Start(0), OVERRUN) {
      AtMostOneHolder(0, OVERRUN);
    }
  }

  /**
   `complete` is not fenced by owner: the overrunning client then completes the
   other client's row, and its response is recorded under the other fingerprint.
   */
  lemma LateCompletionRecordsForeignResponse() returns (s: State)
    ensures s == Run(Start(0), OVERRUN + [Respond(0, 200, "answer to f"), Settle(0)])
    ensures K in s.rows && s.rows[K].status == Completed && s.rows[K].fingerprint == "g"
    ensures s.rows[K].body == "answer to f"
    ensures !RowsBacked(s)
  {
    var o := OverrunBreaksExclusion();
    var tail := [Respond(0, 200, "answer to f"), Settle(0)];
    RunSplit(Start(0), OVERRUN, tail);
    RunTwo(o, tail[0], tail[1]);
    s := Apply(Apply(o, tail[0]), tail[1]);
    assert forall d | d in s.clients :: d == 0 || d == 1;
  }

  // ---------------------------------------------------------- replay and conflict

  ghost predicate RecordedUntil(s: State, k: Key, row: Row) {
    k in s.rows && s.rows[k] == row && row.status == Completed && s.clock < row.expiresAt
  }

  lemma ClockNeverGoesBack(s: State, step: Step)
    ensures s.clock <= Apply(s, step).clock
  {
  }

  /** A recorded response stays exactly as it is until its row expires. */
  lemma RecordedStays(s: State, step: Step, k: Key, row: Row)
    requires ClientsOk(s) && RecordedUntil(s, k, row)
    requires Apply(s, step).clock < row.expiresAt
    ensures RecordedUntil(Apply(s, step), k, row)
  {
    if step.Statement? && step.c in s.clients && s.clients[step.c].phase.Claiming? {
      ClaimedMeansTakenOver(s.clients[step.c].phase.pc, s.clients[step.c].q, s.rows);
    }
  }

  /** What a claim for `fingerprint` must be told about the recorded row. */
  function Answer(row: Row, fingerprint: string): ClaimResult {
    if row.fingerprint == fingerprint
    then Replay(if row.statusCode.Some? then row.statusCode.value else 200, row.body)
    else Conflict
  }

  /** The client has seen nothing but the recorded row. */
  ghost predicate OnlySaw(c: Client, k: Key, row: Row) {
    c.q.key == k ==>
      || c.phase == Claiming(Inserting)
      || c.phase == Claiming(Selecting(0))
      || c.phase == Rejected(Answer(row, c.q.fingerprint))
  }

  lemma LaterClaimStep(s: State, step: Step, k: Key, row: Row, c: nat)
    requires ClientsOk(s) && RecordedUntil(s, k, row)
    requires c in s.clients ==> OnlySaw(s.clients[c], k, row)
    requires s.clock < row.expiresAt
    ensures c in Apply(s, step).clients ==> OnlySaw(Apply(s, step).clients[c], k, row)
  {
  }

  lemma {:induction false} ClockAlongRun(s: State, steps: seq<Step>)
    ensures s.clock <= Run(s, steps).clock
    decreases |steps|
  {
    if steps == [] {
    } else {
      ClockNeverGoesBack(s, steps[0]);
      ClockAlongRun(Apply(s, steps[0]), steps[1..]);
    }
  }

  /**
   Once a response is recorded, every claim on the key that arrives later and
   ends before the row expires gets exactly that response, or `conflict` when
   its fingerprint differs; it never executes.  No timeliness is assumed.
   */
  lemma {:induction false} RecordedResponseIsFinal(s: State, steps: seq<Step>, k: Key, row: Row, c: nat)
    requires ClientsOk(s) && RecordedUntil(s, k, row)
    requires c in s.clients ==> OnlySaw(s.clients[c], k, row)
    requires Run(s, steps).clock < row.expiresAt
    ensures RecordedUntil(Run(s, steps), k, row)
    ensures c in Run(s, steps).clients ==> OnlySaw(Run(s, steps).clients[c], k, row)
    decreases |steps|
  {
    if steps == [] {
    } else {
      var t := Apply(s, steps[0]);
      ClockAlongRun(t, steps[1..]);
      RecordedStays(s, steps[0], k, row);
      LaterClaimStep(s, steps[0], k, row, c);
      StepKeepsClientsOk(s, steps[0]);
      RecordedResponseIsFinal(t, steps[1..], k, row, c);
    }
  }

  /** The recorded row is there, unchanged, before and after every step. */
  ghost predicate StandsAlong(s: State, steps: seq<Step>, k: Key, row: Row)
    decreases |steps|
  {
    && k in s.rows && s.rows[k] == row
    && (steps != [] ==> StandsAlong(Apply(s, steps[0]), steps[1..], k, row))
  }

  lemma LateStepIsAnswered(s: State, step: Step, k: Key, row: Row, c: nat)
    requires k in s.rows && s.rows[k] == row && row.status == Completed
    requires c in s.clients && OnlySaw(s.clients[c], k, row)
    requires s.clients[c].q.key == k && s.clients[c].q.now < row.expiresAt
    ensures var t := Apply(s, step);
            c in t.clients && t.clients[c].q == s.clients[c].q && OnlySaw(t.clients[c], k, row)
  {
  }

  /**
   A claim that arrived before the recorded row expires is answered by that row
   however late its statements meet it: they compare with the time of the claim.
   */
  lemma {:induction false} AnsweredWhileRowStands(s: State, steps: seq<Step>, k: Key, row: Row, c: nat)
    requires StandsAlong(s, steps, k, row) && row.status == Completed
    requires c in s.clients && OnlySaw(s.clients[c], k, row)
    requires s.clients[c].q.key == k && s.clients[c].q.now < row.expiresAt
    ensures c in Run(s, steps).clients && OnlySaw(Run(s, steps).clients[c], k, row)
    decreases |steps|
  {
    if steps == [] {
    } else {
      LateStepIsAnswered(s, steps[0], k, row, c);
      AnsweredWhileRowStands(Apply(s, steps[0]), steps[1..], k, row, c);
    }
  }

  /** A claim that arrives now and sends its INSERT at `later`, after the row was swept. */
  function Straddle(d: nat, k: Key, fingerprint: string, later: int): seq<Step> {
    [Arrive(d, k, fingerprint), Tick(later), Cleanup(later), Statement(d)]
  }

  lemma SweepRemoves(s: State, k: Key)
    requires k in s.rows ==> s.rows[k].expiresAt <= s.clock
    ensures var t := Apply(s, Cleanup(s.clock)); t == s.(rows := t.rows) && k !in t.rows
  {
  }

  lemma InsertWins(s: State, d: nat)
    requires d in s.clients && s.clients[d].phase == Claiming(Inserting) && s.clients[d].q.key !in s.rows
    ensures Apply(s, Statement(d)).clients == SetPhase(s, d, Running).clients
    ensures Apply(s, Statement(d)).clock == s.clock
  {
  }

  /** However the row was recorded, a claim that straddles its expiry and the sweep executes again. */
  lemma StraddlingClaimExecutes(s: State, k: Key, row: Row, d: nat, fingerprint: string, later: int)
    requires RecordedUntil(s, k, row) && d !in s.clients && row.expiresAt <= later
    ensures var t := Run(s, Straddle(d, k, fingerprint, later));
            && t.clock == later && d in t.clients && t.clients[d].phase == Running
            && t.clients[d].q == Request(k, fingerprint, s.clock, s.clock + IDEMPOTENCY_TTL_MS)
            && s.clock < row.expiresAt
  {
    var q := Request(k, fingerprint, s.clock, s.clock + IDEMPOTENCY_TTL_MS);
    RunFour(s, Arrive(d, k, fingerprint), Tick(later), Cleanup(later), Statement(d));
    ArrivalWaits(s, d, q);
    var waiting := WithNewcomer(s, d, q, Claiming(Inserting));
    var late := waiting.(clock := later);
    assert Apply(waiting, Tick(later)) == late;
    hide Run, Apply;
    SweepRemoves(late, k);
    InsertWins(Apply(late, Cleanup(later)), d);
  }

  /** What every claim on `k` that is new since `s` is told, as long as the clock is at most `until`. */
  ghost predicate AnswersUntil(s: State, k: Key, row: Row, d: nat, until: int) {
    forall steps | Run(s, steps).clock <= until ::
      d in Run(s, steps).clients ==> OnlySaw(Run(s, steps).clients[d], k, row)
  }

  /** The recorded response is final exactly up to the last moment before its row expires. */
  lemma AnswersUntilIffBeforeExpiry(s: State, k: Key, row: Row, d: nat, until: int)
    requires ClientsOk(s) && RecordedUntil(s, k, row) && d !in s.clients && s.clock <= until
    ensures AnswersUntil(s, k, row, d, until) <==> until < row.expiresAt
  {
    if until < row.expiresAt {
      forall steps | Run(s, steps).clock <= until
        ensures d in Run(s, steps).clients ==> OnlySaw(Run(s, steps).clients[d], k, row)
      {
        RecordedResponseIsFinal(s, steps, k, row, d);
      }
    } else {
      StraddlingClaimExecutes(s, k, row, d, "", until);
      assert !OnlySaw(Run(s, Straddle(d, k, "", until)).clients[d], k, row);
    }
  }

  /** One request that claims, answers and is recorded. */
  function OneRequest(k: Key, fingerprint: string, statusCode: int, body: string): seq<Step> {
    [Arrive(0, k, fingerprint), Statement(0), Respond(0, statusCode, body), Settle(0)]
  }

  /** Every answer below 500 to every request is recorded so, starting from the empty store. */
  lemma RequestIsRecorded(clock: int, k: Key, fingerprint: string, statusCode: int, body: string)
    requires statusCode < 500
    ensures var s := Run(Start(clock), OneRequest(k, fingerprint, statusCode, body));
            var q := Request(k, fingerprint, clock, clock + IDEMPOTENCY_TTL_MS);
            && s.clock == clock && s.clients.Keys == {0} && ClientsOk(s)
            && RecordedUntil(s, k, FreshRow(q).(status := Completed, statusCode := Some(statusCode), body := body))
  {
    var q := Request(k, fingerprint, clock, clock + IDEMPOTENCY_TTL_MS);
    var steps := OneRequest(k, fingerprint, statusCode, body);
    RunFour(Start(clock), steps[0], steps[1], steps[2], steps[3]);
    var s1 := Apply(Start(clock), steps[0]);
    assert s1.clients == map[0 := Client(q, Claiming(Inserting))];
    var s2 := Apply(s1, steps[1]);
    assert s2.clients == map[0 := Client(q, Running)] && s2.rows == map[k := FreshRow(q)];
  }

  /** So a run from the empty store executes a request twice although the first was recorded in time. */
  lemma RecordedThenExecutedAgain(clock: int, k: Key, fingerprint: string, statusCode: int, body: string)
    requires statusCode < 500
    ensures var later := clock + IDEMPOTENCY_TTL_MS;
            var t := Run(Start(clock), OneRequest(k, fingerprint, statusCode, body) + Straddle(1, k, fingerprint, later));
            && 1 in t.clients && t.clients[1].phase == Running
            && t.clients[1].q.key == k && t.clients[1].q.fingerprint == fingerprint && t.clients[1].q.now < later
  {
    var later := clock + IDEMPOTENCY_TTL_MS;
    var first, second := OneRequest(k, fingerprint, statusCode, body), Straddle(1, k, fingerprint, later);
    var q := Request(k, fingerprint, clock, later);
    RunSplit(Start(clock), first, second);
    RequestIsRecorded(clock, k, fingerprint, statusCode, body);
    var row := FreshRow(q).(status := Completed, statusCode := Some(statusCode), body := body);
    StraddlingClaimExecutes(Run(Start(clock), first), k, row, 1, fingerprint, later);
  }

  // ------------------------------------------------------ what a claim is answered

  /** The row that a successful claim leaves. */
  function Taken(fingerprint: string, expiresAt: int): Row {
    Row(fingerprint, InProgress, None, "{}", expiresAt)
  }

  /** A free key: the INSERT wins. */
  lemma FreeKeyIsTaken(s: State, k: Key, d: nat, fingerprint: string)
    requires k !in s.rows && d !in s.clients
    ensures var t := Run(s, ClaimOf(d, k, fingerprint));
            && d in t.clients && t.clients[d].phase == Running
            && t.rows == s.rows[k := Taken(fingerprint, s.clock + 86_400_000)]
  {
    var q := Request(k, fingerprint, s.clock, s.clock + IDEMPOTENCY_TTL_MS);
    RunFour(s, Arrive(d, k, fingerprint), Statement(d), Statement(d), Statement(d));
    ArrivalWaits(s, d, q);
    var s1 := WithNewcomer(s, d, q, Claiming(Inserting));
    var s2 := Apply(s1, Statement(d));
    assert s2.clients[d].phase == Running && Apply(s2, Statement(d)) == s2;
  }

  /** After the INSERT that loses and the SELECT: what remains is the UPDATE, or nothing. */
  lemma ClaimMeetsRow(s: State, k: Key, d: nat, fingerprint: string)
    requires k in s.rows && d !in s.clients
    ensures var q := Request(k, fingerprint, s.clock, s.clock + IDEMPOTENCY_TTL_MS);
            var selected := Apply(WithNewcomer(s, d, q, Claiming(Selecting(0))), Statement(d));
            Run(s, ClaimOf(d, k, fingerprint)) == Apply(selected, Statement(d))
  {
    var q := Request(k, fingerprint, s.clock, s.clock + IDEMPOTENCY_TTL_MS);
    RunFour(s, Arrive(d, k, fingerprint), Statement(d), Statement(d), Statement(d));
    ArrivalWaits(s, d, q);
    hide Run, Apply;
    InsertLoses(WithNewcomer(s, d, q, Claiming(Inserting)), d);
    assert SetPhase(WithNewcomer(s, d, q, Claiming(Inserting)), d, Claiming(Selecting(0)))
        == WithNewcomer(s, d, q, Claiming(Selecting(0)));
  }

  /**
   A key with a row, and a claim whose statements come in a row: it is taken exactly
   when the row has failed or has expired; otherwise a completed row gives its recorded
   response, or a conflict for another fingerprint, and a row in progress says so.
   */
  lemma RowDecidesClaim(s: State, k: Key, d: nat, fingerprint: string)
    requires k in s.rows && d !in s.clients
    ensures var t, row := Run(s, ClaimOf(d, k, fingerprint)), s.rows[k];
            && d in t.clients
            && t.clients[d].phase == (
                 if row.status == Failed || row.expiresAt <= s.clock then Running
                 else if row.status == Completed then Rejected(Answer(row, fingerprint))
                 else Rejected(InProgressResult))
            && t.rows == (if row.status == Failed || row.expiresAt <= s.clock
                          then s.rows[k := Taken(fingerprint, s.clock + 86_400_000)] else s.rows)
  {
    hide Run;
    var q, row := Request(k, fingerprint, s.clock, s.clock + IDEMPOTENCY_TTL_MS), s.rows[k];
    ClaimMeetsRow(s, k, d, fingerprint);
    var selected := Apply(WithNewcomer(s, d, q, Claiming(Selecting(0))), Statement(d));
    if row.status == Failed || row.expiresAt <= s.clock {
      assert selected == WithNewcomer(s, d, q, Claiming(Reclaiming(0)));
    } else {
      assert selected.clients[d].phase.Rejected? && selected.rows == s.rows;
    }
  }

  /** The client running the operation answers, its response is written, and the next claim of the key follows. */
  function AnswerThenClaim(c: nat, statusCode: int, body: string, d: nat, k: Key, fingerprint: string): seq<Step> {
    [Respond(c, statusCode, body), Settle(c)] + ClaimOf(d, k, fingerprint)
  }

  /**
   What a response means for the next claim of its key: after a 5xx it executes, whatever
   the clock says; after anything else it gets that response or a conflict, until the
   row expires.
   */
  lemma ResponseDecidesNextClaim(s: State, c: nat, statusCode: int, body: string, d: nat, fingerprint: string)
    requires OwnsRow(s) && c in s.clients && s.clients[c].phase == Running && d !in s.clients
    ensures var q := s.clients[c].q;
            var t := Run(s, AnswerThenClaim(c, statusCode, body, d, q.key, fingerprint));
            && d in t.clients
            && t.clients[d].phase == (
                 if statusCode >= 500 || q.expiresAt <= s.clock then Running
                 else Rejected(if q.fingerprint == fingerprint then Replay(statusCode, body) else Conflict))
  {
    var q := s.clients[c].q;
    RunSplit(s, [Respond(c, statusCode, body), Settle(c)], ClaimOf(d, q.key, fingerprint));
    RunTwo(s, Respond(c, statusCode, body), Settle(c));
    var u := Apply(Apply(s, Respond(c, statusCode, body)), Settle(c));
    assert u.clock == s.clock && q.key in u.rows && d !in u.clients;
    assert u.rows[q.key] == if statusCode >= 500
                            then Row(q.fingerprint, Failed, None, EMPTY_BODY, q.expiresAt)
                            else Row(q.fingerprint, Completed, Some(statusCode), body, q.expiresAt);
    hide Run, Apply;
    RowDecidesClaim(u, q.key, d, fingerprint);
  }

  // ---------------------------------------- what lies between two executions of a key

  /** A client that begins to run in this step. */
  ghost predicate Begins(s: State, t: State, c: nat) {
    c in t.clients && t.clients[c].phase == Running && !(c in s.clients && s.clients[c].phase == Running)
  }

  /** A row that turns from in progress to failed in this step. */
  ghost predicate Fails(s: State, t: State, k: Key) {
    && k in s.rows && s.rows[k].status == InProgress
    && k in t.rows && t.rows[k] == s.rows[k].(status := Failed, statusCode := None)
  }

  /** The log is what happened: a claim for each client that begins to run, a failure for each row that fails. */
  lemma LogIsWhatHappened(s: State, step: Step)
    ensures var t := Apply(s, step);
            && s.log <= t.log && |t.log| <= |s.log| + 1
            && (forall c | Begins(s, t, c) ::
                  t.log == s.log + [ClaimEvent(c, t.clients[c].q.key, s.clock, t.clients[c].q.expiresAt)])
            && (forall k | Fails(s, t, k) :: t.log == s.log + [FailEvent(k)])
            && (t.log != s.log ==>
                  match t.log[|s.log|]
                  case ClaimEvent(c, k, at, expiresAt) => Begins(s, t, c) && t.clients[c].q.key == k
                  case FailEvent(k) => Fails(s, t, k))
  {
    if step.Statement? && step.c in s.clients && s.clients[step.c].phase.Claiming? && !s.clients[step.c].phase.pc.Done? {
      ClaimedMeansTakenOver(s.clients[step.c].phase.pc, s.clients[step.c].q, s.rows);
    }
  }

  /** Claim `i` has been followed by a recorded failure of its key. */
  ghost predicate FailedBetween(log: seq<Event>, i: int, j: int)
    requires 0 <= i < |log| && log[i].ClaimEvent?
  {
    exists m | i < m < j && m < |log| :: log[m] == FailEvent(log[i].key)
  }

  /** Two claims of one key are separated by a recorded failure or the first one's expiry. */
  ghost predicate Separated(log: seq<Event>) {
    forall i, j | 0 <= i < j < |log| && log[i].ClaimEvent? && log[j].ClaimEvent? && log[i].key == log[j].key ::
      log[i].expiresAt <= log[j].at || FailedBetween(log, i, j)
  }

  /** A claim that neither failed nor expired still has its row. */
  ghost predicate ClaimsGuarded(s: State) {
    forall i | 0 <= i < |s.log| && s.log[i].ClaimEvent? && !FailedBetween(s.log, i, |s.log|) ::
      || s.log[i].expiresAt <= s.clock
      || (s.log[i].key in s.rows && s.rows[s.log[i].key].status != Failed
          && s.rows[s.log[i].key].expiresAt == s.log[i].expiresAt)
  }

  lemma FailuresPersist(log: seq<Event>, e: Event, i: int)
    requires 0 <= i < |log| && log[i].ClaimEvent?
    ensures FailedBetween(log, i, |log|) ==> FailedBetween(log + [e], i, |log| + 1)
    ensures forall j | i < j <= |log| :: FailedBetween(log, i, j) ==> FailedBetween(log + [e], i, j)
    ensures e == FailEvent(log[i].key) ==> FailedBetween(log + [e], i, |log| + 1)
  {
    var l := log + [e];
    forall j | i < j <= |log| && FailedBetween(log, i, j) ensures FailedBetween(l, i, j) {
      var m :| i < m < j && m < |log| && log[m] == FailEvent(log[i].key);
      assert l[m] == FailEvent(l[i].key);
    }
    if FailedBetween(log, i, |log|) {
      var m :| i < m < |log| && log[m] == FailEvent(log[i].key);
      assert l[m] == FailEvent(l[i].key);
    }
    assert l[|log|] == e;
  }

  lemma QuietStepKeepsGuards(s: State, step: Step)
    requires ClientsOk(s) && ClaimsGuarded(s)
    requires Apply(s, step).log == s.log
    ensures ClaimsGuarded(Apply(s, step))
  {
    if step.Statement? && step.c in s.clients && s.clients[step.c].phase.Claiming? {
      ClaimedMeansTakenOver(s.clients[step.c].phase.pc, s.clients[step.c].q, s.rows);
    }
  }

  lemma LoggedStepKeepsGuards(s: State, step: Step)
    requires ClientsOk(s) && ClaimsGuarded(s) && Separated(s.log)
    requires Apply(s, step).log != s.log
    ensures ClaimsGuarded(Apply(s, step)) && Separated(Apply(s, step).log)
  {
    var t := Apply(s, step);
    assert step.Statement? || step.Settle?;
    var e := t.log[|s.log|];
    assert t.log == s.log + [e];
    forall i | 0 <= i < |s.log| && s.log[i].ClaimEvent?
      ensures FailedBetween(s.log, i, |s.log|) ==> FailedBetween(t.log, i, |t.log|)
      ensures forall j | i < j <= |s.log| :: FailedBetween(s.log, i, j) ==> FailedBetween(t.log, i, j)
      ensures e == FailEvent(s.log[i].key) ==> FailedBetween(t.log, i, |t.log|)
    {
      FailuresPersist(s.log, e, i);
    }
    if step.Statement? {
      ClaimedMeansTakenOver(s.clients[step.c].phase.pc, s.clients[step.c].q, s.rows);
    }
  }

  lemma {:induction false} RunKeepsSeparation(s: State, steps: seq<Step>)
    requires ClientsOk(s) && ClaimsGuarded(s) && Separated(s.log)
    ensures Separated(Run(s, steps).log)
    decreases |steps|
  {
    if steps == [] {
    } else {
      var t := Apply(s, steps[0]);
      if t.log == s.log {
        QuietStepKeepsGuards(s, steps[0]);
      } else {
        LoggedStepKeepsGuards(s, steps[0]);
      }
      StepKeepsClientsOk(s, steps[0]);
      RunKeepsSeparation(t, steps[1..]);
    }
  }

  /** Only a 5xx or an expiry leads to re-execution; this holds of every run, timely or not. */
  lemma ReexecutionNeedsFailureOrExpiry(clock: int, steps: seq<Step>)
    ensures Separated(Run(Start(clock), steps).log)
  {
    RunKeepsSeparation(Start(clock), steps);
  }
}
