/**
 The `/auth/verify` handler (src/routes/auth.ts) joined with the challenge store:
 any number of verifications, interleaved at their awaits with challenge
 requests, reads, clears and the passing of time.

 `valid(r, address, nonce)` is the verdict of the signature check on request `r`.
 Nonces are fresh; a database write that fails may have taken effect.
 */
module VerifyProtocol {
  import opened Common
  import opened ChallengeStore

  type Verdict = (nat, Address, string) -> bool

  /** Where a verification stands; the record it consumed travels with it. */
  datatype Phase =
    | CheckingLockout
    | Holding(rec: Record)            // awaiting network info and signature check
    | SignatureValid(rec: Record)     // awaiting clearFailures
    | IssuingSession(rec: Record)     // awaiting createSession
    | Succeeded(rec: Record)          // session in the response
    | SignatureRejected(rec: Record)
    | Abandoned(rec: Record)          // an await threw; the record is gone
    | Returned(rec: Record)           // 500 after session failure; restore was tried
    | Denied                          // locked out or no active challenge

  datatype Request = Request(address: Address, phase: Phase)

  /** What became of `createSession` and of sending the response. */
  datatype SessionOutcome = SessionSent | SessionFailed | SendFailed

  datatype Issue = Issue(address: Address, expiresAtMs: int)

  datatype State = State(clock: int, store: Store, requests: map<nat, Request>, issued: map<string, Issue>)

  datatype Step =
    | Tick(to: int)
    | ChallengeRequest(address: Option<Address>, nonce: string, order: seq<Address>)
    | StoreAccess(op: Op)
    | Arrive(r: nat, wallet: Address)
    | LockoutAnswered(r: nat, locked: bool)
    | SignatureChecked(r: nat)
    | FailuresCleared(r: nat)
    | SessionAnswered(r: nat, outcome: SessionOutcome)
    | AwaitThrew(r: nat)

  function SetPhase(s: State, r: nat, phase: Phase): State
    requires r in s.requests
  {
    s.(requests := s.requests[r := s.requests[r].(phase := phase)])
  }

  function ApplyChallenge(s: State, address: Option<Address>, nonce: string, order: seq<Address>): State {
    if nonce in s.issued then s
    else
      var (store, result) := Create(s.store, address, s.clock, nonce, order);
      if result == Issued(nonce, CHALLENGE_TTL_MS)
      then s.(store := store, issued := s.issued[nonce := Issue(address.value, s.clock + CHALLENGE_TTL_MS)])
      else s.(store := store)
  }

  /** After the lockout check: consume in the same synchronous block. */
  function ApplyLockout(s: State, r: nat, locked: bool): State
    requires r in s.requests
  {
    if locked then SetPhase(s, r, Denied)
    else
      var (store, rec) := Consume(s.store, Some(s.requests[r].address), s.clock);
      SetPhase(s, r, if rec.Some? then Holding(rec.value) else Denied).(store := store)
  }

  function ApplySession(s: State, r: nat, outcome: SessionOutcome): State
    requires r in s.requests && s.requests[r].phase.IssuingSession?
  {
    var rec := s.requests[r].phase.rec;
    if outcome == SessionSent then SetPhase(s, r, Succeeded(rec))
    else SetPhase(s, r, Returned(rec)).(store := Restore(s.store, Some(s.requests[r].address), rec, s.clock).0)
  }

  function Apply(valid: Verdict, s: State, step: Step): State {
    match step
    case Tick(to) => if to >= s.clock then s.(clock := to) else s
    case ChallengeRequest(address, nonce, order) => ApplyChallenge(s, address, nonce, order)
    case StoreAccess(op) =>
      if op.GetOp? || op.VerifyOp? || op.ClearOp? then s.(store := ApplyOp(s.store, op, s.clock)) else s
    case Arrive(r, wallet) =>
      if r in s.requests then s else s.(requests := s.requests[r := Request(wallet, CheckingLockout)])
    case LockoutAnswered(r, locked) =>
      if r in s.requests && s.requests[r].phase.CheckingLockout? then ApplyLockout(s, r, locked) else s
    case SignatureChecked(r) =>
      if r in s.requests && s.requests[r].phase.Holding? then
        var rec := s.requests[r].phase.rec;
        SetPhase(s, r, if valid(r, s.requests[r].address, rec.nonce) then SignatureValid(rec) else SignatureRejected(rec))
      else s
    case FailuresCleared(r) =>
      if r in s.requests && s.requests[r].phase.SignatureValid?
      then SetPhase(s, r, IssuingSession(s.requests[r].phase.rec)) else s
    case SessionAnswered(r, outcome) =>
      if r in s.requests && s.requests[r].phase.IssuingSession? then ApplySession(s, r, outcome) else s
    case AwaitThrew(r) =>
      if r !in s.requests then s
      else if s.requests[r].phase.CheckingLockout? then SetPhase(s, r, Denied)
      else if s.requests[r].phase.Holding? || s.requests[r].phase.SignatureValid?
      then SetPhase(s, r, Abandoned(s.requests[r].phase.rec))
      else s
  }

  function Run(valid: Verdict, s: State, steps: seq<Step>): State
    decreases |steps|
  {
    if steps == [] then s else Run(valid, Apply(valid, s, steps[0]), steps[1..])
  }

  function Start(clock: int): State {
    State(clock, EMPTY_STORE, map[], map[])
  }

  // -------------------------------------------------------------- the handler

  datatype Response = LockedOut | NoChallenge | BadSignature | SessionError | SessionGranted | Thrown

  /** A step of the handler's request, with its phase and the store around it. */
  datatype Move = Move(clock: int, store: Store, phase: Phase, step: Step, nextStore: Store, next: Phase)

  /** The state in which request `r` is the only one. */
  function Alone(clock: int, store: Store, r: nat, address: Address, phase: Phase): State {
    State(clock, store, map[r := Request(address, phase)], map[])
  }

  /** The move is what the step does in the machine. */
  ghost predicate IsMove(valid: Verdict, r: nat, address: Address, m: Move) {
    && (m.step == SignatureChecked(r) || m.step == FailuresCleared(r) || m.step == AwaitThrew(r)
        || (m.step.LockoutAnswered? && m.step.r == r) || (m.step.SessionAnswered? && m.step.r == r))
    && m.next != m.phase
    && Apply(valid, Alone(m.clock, m.store, r, address, m.phase), m.step) == Alone(m.clock, m.nextStore, r, address, m.next)
  }

  /** Whatever the other requests are, such a step does just that. */
  lemma MovesAreSteps(valid: Verdict, r: nat, address: Address, m: Move, s: State)
    requires IsMove(valid, r, address, m)
    requires s.clock == m.clock && s.store == m.store && r in s.requests && s.requests[r] == Request(address, m.phase)
    ensures Apply(valid, s, m.step) == SetPhase(s, r, m.next).(store := m.nextStore)
  {
    var alone := Apply(valid, Alone(m.clock, m.store, r, address, m.phase), m.step);
    assert alone.requests[r].phase == m.next && alone.store == m.nextStore;
  }

  /** A walk of the request from its arrival, with the session answered at `later` and all else at `now`. */
  ghost predicate IsWalk(valid: Verdict, r: nat, address: Address, now: int, later: int, trace: seq<Move>) {
    && trace != [] && trace[0].phase == CheckingLockout
    && (forall i | 0 <= i < |trace| :: IsMove(valid, r, address, trace[i]))
    && (forall i | 0 <= i < |trace| :: trace[i].clock == if trace[i].step.SessionAnswered? then later else now)
    && (forall i | 0 < i < |trace| :: trace[i].phase == trace[i - 1].next)
  }

  lemma FirstMove(valid: Verdict, r: nat, address: Address, now: int, later: int, m: Move)
    requires IsMove(valid, r, address, m) && m.phase == CheckingLockout && m.clock == now && !m.step.SessionAnswered?
    ensures IsWalk(valid, r, address, now, later, [m])
  {
    hide IsMove;
  }

  lemma NextMove(valid: Verdict, r: nat, address: Address, now: int, later: int, trace: seq<Move>, m: Move)
    requires IsWalk(valid, r, address, now, later, trace) && IsMove(valid, r, address, m)
    requires trace != [] && m.phase == trace[|trace| - 1].next
    requires m.clock == if m.step.SessionAnswered? then later else now
    ensures IsWalk(valid, r, address, now, later, trace + [m])
  {
    hide IsMove;
  }

  /**
   What the awaits of a request are answered: the lockout check (None stands for an
   error), whether each of the other three throws, and what became of the session.
   */
  datatype Awaits = Awaits(lockout: Option<bool>, checkThrows: bool, recordThrows: bool, clearThrows: bool,
                           session: SessionOutcome)

  /** The store has a record of the address that is still active. */
  ghost predicate HasActive(st: Store, address: Address, now: int) {
    address in st.challenges && now <= st.challenges[address].expiresAtMs
  }

  /** The request gets as far as the signature check. */
  ghost predicate Checks(met: Store, address: Address, now: int, awaits: Awaits) {
    awaits.lockout == Some(false) && HasActive(met, address, now) && !awaits.checkThrows
  }

  /** The record met carries a nonce that the request has signed. */
  ghost predicate Signed(valid: Verdict, r: nat, address: Address, met: Store) {
    address in met.challenges && valid(r, address, met.challenges[address].nonce)
  }

  /** The response, from what the awaits answered and the store that the consuming step met. */
  ghost predicate Answers(valid: Verdict, r: nat, address: Address, now: int, awaits: Awaits, met: Store, response: Response) {
    && (response == LockedOut <==> awaits.lockout == Some(true))
    && (response == NoChallenge <==> awaits.lockout == Some(false) && !HasActive(met, address, now))
    && (response == BadSignature <==>
          Checks(met, address, now, awaits) && !Signed(valid, r, address, met) && !awaits.recordThrows)
    && (response == SessionGranted || response == SessionError <==>
          Checks(met, address, now, awaits) && Signed(valid, r, address, met) && !awaits.clearThrows)
    && (response == SessionGranted ==> awaits.session == SessionSent)
    && (response == SessionError ==> awaits.session != SessionSent)
  }

  /** The step that the walk ends with, for each response. */
  ghost predicate EndsWith(r: nat, response: Response, last: Step, awaits: Awaits) {
    match last
    case LockoutAnswered(r', locked) => r' == r && response == if locked then LockedOut else NoChallenge
    case SignatureChecked(r') => r' == r && response == if awaits.recordThrows then Thrown else BadSignature
    case SessionAnswered(r', outcome) =>
      r' == r && outcome == awaits.session && response == if outcome == SessionSent then SessionGranted else SessionError
    case AwaitThrew(r') => r' == r && response == Thrown
    case _ => false
  }

  lemma LockedOutMoves(valid: Verdict, r: nat, address: Address, clock: int, st: Store)
    ensures IsMove(valid, r, address, Move(clock, st, CheckingLockout, LockoutAnswered(r, true), st, Denied))
  {
  }

  lemma ConsumingMoves(valid: Verdict, r: nat, address: Address, clock: int, st: Store)
    ensures var (t, taken) := Consume(st, Some(address), clock);
            IsMove(valid, r, address, Move(clock, st, CheckingLockout, LockoutAnswered(r, false), t,
                                           if taken.Some? then Holding(taken.value) else Denied))
  {
  }

  lemma ThrowingMoves(valid: Verdict, r: nat, address: Address, clock: int, st: Store, phase: Phase)
    requires phase.CheckingLockout? || phase.Holding? || phase.SignatureValid?
    ensures IsMove(valid, r, address, Move(clock, st, phase, AwaitThrew(r), st,
                                           if phase.CheckingLockout? then Denied else Abandoned(phase.rec)))
  {
  }

  lemma CheckingMoves(valid: Verdict, r: nat, address: Address, clock: int, st: Store, rec: Record)
    ensures IsMove(valid, r, address, Move(clock, st, Holding(rec), SignatureChecked(r), st,
                                           if valid(r, address, rec.nonce) then SignatureValid(rec) else SignatureRejected(rec)))
  {
  }

  lemma ClearingMoves(valid: Verdict, r: nat, address: Address, clock: int, st: Store, rec: Record)
    ensures IsMove(valid, r, address, Move(clock, st, SignatureValid(rec), FailuresCleared(r), st, IssuingSession(rec)))
  {
  }

  lemma SessionMoves(valid: Verdict, r: nat, address: Address, clock: int, st: Store, rec: Record, outcome: SessionOutcome)
    ensures IsMove(valid, r, address, Move(clock, st, IssuingSession(rec), SessionAnswered(r, outcome),
                                           if outcome == SessionSent then st else Restore(st, Some(address), rec, clock).0,
                                           if outcome == SessionSent then Succeeded(rec) else Returned(rec)))
  {
  }

  /** Other requests run while the handler awaits: the store becomes anything. */
  method Await(ch: Challenges)
    modifies ch
  {
    ch.challenges, ch.creationsSinceSweep, ch.sweepKeysSnapshot, ch.sweepOffset := *, *, *, *;
  }

  /**
   `/auth/verify` for request `r`, which consumes at `now` and would restore at
   `later`: a walk of the step machine, whose last move leaves the store as it is, and
   whose first move met the store that decides the response.
   */
  method HandleVerify(ch: Challenges, valid: Verdict, r: nat, address: Address, now: int, later: int, awaits: Awaits)
    returns (response: Response, ghost trace: seq<Move>)
    modifies ch
    ensures IsWalk(valid, r, address, now, later, trace) && trace != []
    ensures Answers(valid, r, address, now, awaits, trace[0].store, response)
    ensures EndsWith(r, response, trace[|trace| - 1].step, awaits)
    ensures response == NoChallenge || response == SessionError ==> ch.Contents() == trace[|trace| - 1].nextStore
  {
    hide IsMove, IsWalk, Restore;
    Await(ch);
    ghost var here := ch.Contents();
    if awaits.lockout == None {
      trace := [Move(now, here, CheckingLockout, AwaitThrew(r), here, Denied)];
      ThrowingMoves(valid, r, address, now, here, CheckingLockout);
      FirstMove(valid, r, address, now, later, trace[0]);
      return Thrown, trace;
    }
    if awaits.lockout.value {
      trace := [Move(now, here, CheckingLockout, LockoutAnswered(r, true), here, Denied)];
      LockedOutMoves(valid, r, address, now, here);
      FirstMove(valid, r, address, now, later, trace[0]);
      return LockedOut, trace;
    }
    var taken := ch.ConsumeChallenge(Some(address), now);
    ghost var first := Move(now, here, CheckingLockout, LockoutAnswered(r, false), ch.Contents(),
                            if taken.Some? then Holding(taken.value) else Denied);
    ConsumingMoves(valid, r, address, now, here);
    FirstMove(valid, r, address, now, later, first);
    trace := [first];
    if taken == None {
      return NoChallenge, trace;
    }
    response, trace := VerifyHolding(ch, valid, r, address, now, later, awaits, taken.value, trace);
  }

  /** The rest of the handler, once the record `rec` is in its hands. */
  method VerifyHolding(ch: Challenges, valid: Verdict, r: nat, address: Address, now: int, later: int, awaits: Awaits,
                       rec: Record, ghost before: seq<Move>)
    returns (response: Response, ghost trace: seq<Move>)
    requires IsWalk(valid, r, address, now, later, before) && before != [] && before[|before| - 1].next == Holding(rec)
    modifies ch
    ensures IsWalk(valid, r, address, now, later, trace) && before <= trace
    ensures response != NoChallenge && response != LockedOut
    ensures response == BadSignature <==> !awaits.checkThrows && !valid(r, address, rec.nonce) && !awaits.recordThrows
    ensures response == SessionGranted || response == SessionError <==>
              !awaits.checkThrows && valid(r, address, rec.nonce) && !awaits.clearThrows
    ensures EndsWith(r, response, trace[|trace| - 1].step, awaits)
    ensures response == SessionError ==> ch.Contents() == trace[|trace| - 1].nextStore
  {
    hide IsMove, IsWalk, Restore;
    Await(ch);
    ghost var here := ch.Contents();
    if awaits.checkThrows {
      ghost var m := Move(now, here, Holding(rec), AwaitThrew(r), here, Abandoned(rec));
      ThrowingMoves(valid, r, address, now, here, Holding(rec));
      NextMove(valid, r, address, now, later, before, m);
      return Thrown, before + [m];
    }
    ghost var m := Move(now, here, Holding(rec), SignatureChecked(r), here,
                        if valid(r, address, rec.nonce) then SignatureValid(rec) else SignatureRejected(rec));
    CheckingMoves(valid, r, address, now, here, rec);
    NextMove(valid, r, address, now, later, before, m);
    trace := before + [m];
    Await(ch);
    if !valid(r, address, rec.nonce) {
      return if awaits.recordThrows then Thrown else BadSignature, trace;
    }
    here := ch.Contents();
    if awaits.clearThrows {
      m := Move(now, here, SignatureValid(rec), AwaitThrew(r), here, Abandoned(rec));
      ThrowingMoves(valid, r, address, now, here, SignatureValid(rec));
      NextMove(valid, r, address, now, later, trace, m);
      return Thrown, trace + [m];
    }
    m := Move(now, here, SignatureValid(rec), FailuresCleared(r), here, IssuingSession(rec));
    ClearingMoves(valid, r, address, now, here, rec);
    NextMove(valid, r, address, now, later, trace, m);
    trace := trace + [m];
    Await(ch);
    here := ch.Contents();
    if awaits.session != SessionSent {
      var restored := ch.RestoreChallenge(Some(address), rec, later);
    }
    m := Move(later, here, IssuingSession(rec), SessionAnswered(r, awaits.session), ch.Contents(),
              if awaits.session == SessionSent then Succeeded(rec) else Returned(rec));
    SessionMoves(valid, r, address, later, here, rec, awaits.session);
    NextMove(valid, r, address, now, later, trace, m);
    trace := trace + [m];
    response := if awaits.session == SessionSent then SessionGranted else SessionError;
  }

  // ---------------------------------------------------------- where a nonce is

  /** The request holds the record in flight. */
  predicate InFlight(q: Request) {
    q.phase.Holding? || q.phase.SignatureValid? || q.phase.IssuingSession?
  }

  /** The request ended with the record for good. */
  predicate Buried(q: Request) {
    q.phase.Succeeded? || q.phase.SignatureRejected? || q.phase.Abandoned?
  }

  predicate Keeps(q: Request) {
    InFlight(q) || Buried(q)
  }

  /** The record of the nonce is with this request, alive or buried. */
  predicate Has(q: Request, nonce: string) {
    Keeps(q) && q.phase.rec.nonce == nonce
  }

  /** Records in the store and in requests are the ones that were issued: same address, same expiry. */
  ghost predicate Genuine(s: State) {
    && (forall key | key in s.store.challenges ::
          var rec := s.store.challenges[key];
          rec.nonce in s.issued && s.issued[rec.nonce] == Issue(key, rec.expiresAtMs))
    && (forall r | r in s.requests && Keeps(s.requests[r]) ::
          var rec := s.requests[r].phase.rec;
          rec.nonce in s.issued && s.issued[rec.nonce] == Issue(s.requests[r].address, rec.expiresAtMs))
  }

  /** A nonce is in at most one place: the store, or one request. */
  ghost predicate Linear(s: State) {
    && (forall key, r | key in s.store.challenges && r in s.requests ::
          !Has(s.requests[r], s.store.challenges[key].nonce))
    && (forall q, r | q in s.requests && r in s.requests && Keeps(s.requests[q])
                   && Has(s.requests[r], s.requests[q].phase.rec.nonce) :: q == r)
  }

  /** Nobody is past the signature check without a valid signature. */
  ghost predicate SignaturesChecked(valid: Verdict, s: State) {
    forall r | r in s.requests && (s.requests[r].phase.SignatureValid? || s.requests[r].phase.IssuingSession?
                                   || s.requests[r].phase.Succeeded? || s.requests[r].phase.Returned?) ::
      valid(r, s.requests[r].address, s.requests[r].phase.rec.nonce)
  }

  ghost predicate Inv(valid: Verdict, s: State) {
    Genuine(s) && Linear(s) && SignaturesChecked(valid, s)
  }

  /** A creation adds at most the fresh nonce it issues, and changes no other record. */
  lemma CreateAddsOnlyFresh(st: Store, address: Option<Address>, now: int, nonce: string, order: seq<Address>)
    ensures var (t, result) := Create(st, address, now, nonce, order);
            forall key | key in t.challenges ::
              || (key in st.challenges && t.challenges[key] == st.challenges[key])
              || (address == Some(key) && t.challenges[key] == Record(nonce, now + CHALLENGE_TTL_MS)
                  && result == Issued(nonce, CHALLENGE_TTL_MS))
  {
    hide BeforeCreate, IssueFor;
    if address.Some? {
      BeforeCreateOnlyRemoves(st, now, order);
      IssueForAddsOnlyFresh(BeforeCreate(st, now, order), address.value, now, nonce, order);
    }
  }

  /** Records may go, but none changes and none comes. */
  ghost predicate OnlyRemoves(t: Table, u: Table) {
    u.Keys <= t.Keys && forall key | key in u :: u[key] == t[key]
  }

  lemma BeforeCreateOnlyRemoves(st: Store, now: int, order: seq<Address>)
    ensures OnlyRemoves(st.challenges, BeforeCreate(st, now, order).challenges)
  {
    hide Sweep;
    SweepsOnlyExpired(st.(creationsSinceSweep := 0), now, false, order);
  }

  lemma IssueForAddsOnlyFresh(st: Store, key: Address, now: int, nonce: string, order: seq<Address>)
    ensures var (t, result) := IssueFor(st, key, now, nonce, order);
            forall k | k in t.challenges ::
              || (k in st.challenges && t.challenges[k] == st.challenges[k])
              || (k == key && t.challenges[k] == Record(nonce, now + CHALLENGE_TTL_MS)
                  && result == Issued(nonce, CHALLENGE_TTL_MS))
  {
    hide Sweep;
    SweepsOnlyExpired(st.(challenges := st.challenges - {key}), now, true, order);
  }

  /** Losing stored records keeps the invariant. */
  lemma ShrinkKeepsInv(valid: Verdict, s: State, store: Store)
    requires Inv(valid, s)
    requires forall key | key in store.challenges ::
               key in s.store.challenges && store.challenges[key] == s.store.challenges[key]
    ensures Inv(valid, s.(store := store))
  {
  }

  /** So does storing one record with a fresh nonce. */
  lemma FreshKeepsInv(valid: Verdict, s: State, store: Store, address: Address, nonce: string, expiresAtMs: int)
    requires Inv(valid, s) && nonce !in s.issued
    requires forall key | key in store.challenges ::
               || (key in s.store.challenges && store.challenges[key] == s.store.challenges[key])
               || (key == address && store.challenges[key] == Record(nonce, expiresAtMs))
    ensures Inv(valid, s.(store := store, issued := s.issued[nonce := Issue(address, expiresAtMs)]))
  {
  }

  lemma ChallengeKeepsInv(valid: Verdict, s: State, address: Option<Address>, nonce: string, order: seq<Address>)
    requires Inv(valid, s)
    ensures Inv(valid, ApplyChallenge(s, address, nonce, order))
  {
    hide Inv, BeforeCreate, IssueFor;
    if nonce !in s.issued {
      var (store, result) := Create(s.store, address, s.clock, nonce, order);
      CreateAddsOnlyFresh(s.store, address, s.clock, nonce, order);
      if result == Issued(nonce, CHALLENGE_TTL_MS) {
        FreshKeepsInv(valid, s, store, address.value, nonce, s.clock + CHALLENGE_TTL_MS);
      } else {
        ShrinkKeepsInv(valid, s, store);
      }
    }
  }

  /** A request may move on with the record it has, or let go of it. */
  lemma MoveKeepsInv(valid: Verdict, s: State, r: nat, phase: Phase)
    requires Inv(valid, s) && r in s.requests
    requires var q := s.requests[r].(phase := phase);
             && (Keeps(q) ==> Keeps(s.requests[r]) && phase.rec == s.requests[r].phase.rec)
             && (phase.SignatureValid? || phase.IssuingSession? || phase.Succeeded? || phase.Returned? ==>
                   valid(r, q.address, phase.rec.nonce))
    ensures Inv(valid, SetPhase(s, r, phase))
  {
  }

  /** A stored record moves into a request that has none. */
  lemma TakeKeepsInv(valid: Verdict, s: State, r: nat)
    requires Inv(valid, s) && r in s.requests && s.requests[r].phase.CheckingLockout?
    requires s.requests[r].address in s.store.challenges
    ensures var address := s.requests[r].address;
            var store := s.store.(challenges := s.store.challenges - {address});
            Inv(valid, SetPhase(s, r, Holding(s.store.challenges[address])).(store := store))
  {
    var address := s.requests[r].address;
    var t := SetPhase(s, r, Holding(s.store.challenges[address])).(
               store := s.store.(challenges := s.store.challenges - {address}));
    assert Genuine(t) && SignaturesChecked(valid, t);
    forall key, q | key in t.store.challenges && q in t.requests
      ensures !Has(t.requests[q], t.store.challenges[key].nonce)
    {
      assert key in s.store.challenges && key != address;
    }
  }

  lemma LockoutKeepsInv(valid: Verdict, s: State, r: nat, locked: bool)
    requires Inv(valid, s) && r in s.requests && s.requests[r].phase.CheckingLockout?
    ensures Inv(valid, ApplyLockout(s, r, locked))
  {
    if locked {
      MoveKeepsInv(valid, s, r, Denied);
    } else {
      var (store, rec) := Consume(s.store, Some(s.requests[r].address), s.clock);
      if rec.Some? {
        TakeKeepsInv(valid, s, r);
      } else {
        ShrinkKeepsInv(valid, s, store);
        MoveKeepsInv(valid, s.(store := store), r, Denied);
      }
    }
  }

  lemma SessionKeepsInv(valid: Verdict, s: State, r: nat, outcome: SessionOutcome)
    requires Inv(valid, s) && r in s.requests && s.requests[r].phase.IssuingSession?
    ensures Inv(valid, ApplySession(s, r, outcome))
  {
  }

  lemma AccessKeepsInv(valid: Verdict, s: State, op: Op)
    requires Inv(valid, s) && (op.GetOp? || op.VerifyOp? || op.ClearOp?)
    ensures Inv(valid, s.(store := ApplyOp(s.store, op, s.clock)))
  {
    ShrinkKeepsInv(valid, s, ApplyOp(s.store, op, s.clock));
  }

  lemma StepKeepsInv(valid: Verdict, s: State, step: Step)
    requires Inv(valid, s)
    ensures Inv(valid, Apply(valid, s, step))
  {
    hide Inv, ApplyChallenge, ApplyLockout, ApplySession, ApplyOp;
    match step
    case ChallengeRequest(address, nonce, order) => ChallengeKeepsInv(valid, s, address, nonce, order);
    case LockoutAnswered(r, locked) =>
      if r in s.requests && s.requests[r].phase.CheckingLockout? { LockoutKeepsInv(valid, s, r, locked); }
    case SessionAnswered(r, outcome) =>
      if r in s.requests && s.requests[r].phase.IssuingSession? { SessionKeepsInv(valid, s, r, outcome); }
    case StoreAccess(op) =>
      if op.GetOp? || op.VerifyOp? || op.ClearOp? { AccessKeepsInv(valid, s, op); }
    case Tick(to) => TickKeepsInv(valid, s, to);
    case Arrive(r, wallet) => ArrivalKeepsInv(valid, s, r, wallet);
    case _ =>
      if step.r in s.requests && Apply(valid, s, step) != s {
        CheckedIsValid(valid, s, step.r);
        MoveKeepsInv(valid, s, step.r, Apply(valid, s, step).requests[step.r].phase);
      }
  }

  lemma CheckedIsValid(valid: Verdict, s: State, r: nat)
    requires Inv(valid, s) && r in s.requests
    ensures s.requests[r].phase.SignatureValid? ==> valid(r, s.requests[r].address, s.requests[r].phase.rec.nonce)
  {
  }

  lemma TickKeepsInv(valid: Verdict, s: State, to: int)
    requires Inv(valid, s)
    ensures Inv(valid, s.(clock := to))
  {
  }

  lemma ArrivalKeepsInv(valid: Verdict, s: State, r: nat, wallet: Address)
    requires Inv(valid, s)
    ensures r !in s.requests ==> Inv(valid, s.(requests := s.requests[r := Request(wallet, CheckingLockout)]))
  {
  }

  lemma {:induction false} RunKeepsInv(valid: Verdict, s: State, steps: seq<Step>)
    requires Inv(valid, s)
    ensures Inv(valid, Run(valid, s, steps))
    decreases |steps|
  {
    if steps == [] {
    } else {
      StepKeepsInv(valid, s, steps[0]);
      RunKeepsInv(valid, Apply(valid, s, steps[0]), steps[1..]);
    }
  }

  /**
   Under every interleaving a nonce yields at most one successful response, and
   only to a request whose signature over that nonce is valid; a nonce whose
   verification succeeded or was rejected is nowhere else, in flight or stored.
   */
  lemma OneSuccessPerNonce(valid: Verdict, clock: int, steps: seq<Step>)
    ensures var s := Run(valid, Start(clock), steps);
            && Genuine(s) && Linear(s)
            && forall r | r in s.requests && s.requests[r].phase.Succeeded? ::
                 var nonce := s.requests[r].phase.rec.nonce;
                 && valid(r, s.requests[r].address, nonce)
                 && forall q | q in s.requests && q != r :: !Has(s.requests[q], nonce)
  {
    RunKeepsInv(valid, Start(clock), steps);
  }

  // ----------------------------------------------------------- buried for good

  ghost predicate BuriedNonce(s: State, nonce: string) {
    && nonce in s.issued
    && (forall key | key in s.store.challenges :: s.store.challenges[key].nonce != nonce)
    && (forall r | r in s.requests && InFlight(s.requests[r]) :: s.requests[r].phase.rec.nonce != nonce)
  }

  lemma BuriedStays(valid: Verdict, s: State, step: Step, nonce: string)
    requires BuriedNonce(s, nonce)
    ensures BuriedNonce(Apply(valid, s, step), nonce)
  {
    if step.ChallengeRequest? {
      CreateAddsOnlyFresh(s.store, step.address, s.clock, step.nonce, step.order);
    }
  }

  /** Nothing brings a nonce back after a rejected signature, a success or a lost verification. */
  lemma {:induction false} BuriedForever(valid: Verdict, s: State, steps: seq<Step>, r: nat)
    requires Inv(valid, s) && r in s.requests && Buried(s.requests[r])
    ensures BuriedNonce(Run(valid, s, steps), s.requests[r].phase.rec.nonce)
  {
    var nonce := s.requests[r].phase.rec.nonce;
    assert forall q | q in s.requests && InFlight(s.requests[q]) && s.requests[q].phase.rec.nonce == nonce :: q == r;
    BuriedAlongRun(valid, s, steps, nonce);
  }

  lemma {:induction false} BuriedAlongRun(valid: Verdict, s: State, steps: seq<Step>, nonce: string)
    requires BuriedNonce(s, nonce)
    ensures BuriedNonce(Run(valid, s, steps), nonce)
    decreases |steps|
  {
    if steps == [] {
    } else {
      BuriedStays(valid, s, steps[0], nonce);
      BuriedAlongRun(valid, Apply(valid, s, steps[0]), steps[1..], nonce);
    }
  }

  /** A failed session issue puts back exactly its own record, and only into an empty slot before its expiry. */
  lemma RestoreIsConservative(s: State, r: nat, outcome: SessionOutcome)
    requires r in s.requests && s.requests[r].phase.IssuingSession? && outcome != SessionSent
    ensures var t := ApplySession(s, r, outcome).store.challenges;
            var address, rec := s.requests[r].address, s.requests[r].phase.rec;
            && (forall key | key in s.store.challenges :: key in t && t[key] == s.store.challenges[key])
            && (forall key | key in t && key !in s.store.challenges :: key == address && t[key] == rec)
            && (address in t && address !in s.store.challenges <==>
                  address !in s.store.challenges && s.clock <= rec.expiresAtMs)
  {
  }

  // ------------------------------------------------------------------ the size

  ghost function Flying(s: State): set<nat> {
    set r | r in s.requests && InFlight(s.requests[r])
  }

  ghost predicate SizeBounded(s: State, k: nat) {
    |s.store.challenges| + |Flying(s)| <= MAX_CHALLENGES + k
  }

  /** At most `k` verifications are in flight at every moment of the run. */
  ghost predicate AtMostInFlight(valid: Verdict, s: State, steps: seq<Step>, k: nat)
    decreases |steps|
  {
    |Flying(s)| <= k && (steps != [] ==> AtMostInFlight(valid, Apply(valid, s, steps[0]), steps[1..], k))
  }

  lemma StepKeepsSize(valid: Verdict, s: State, step: Step, k: nat)
    requires SizeBounded(s, k) && |Flying(s)| <= k
    ensures SizeBounded(Apply(valid, s, step), k)
  {
    match step
    case ChallengeRequest(address, nonce, order) =>
      assert Flying(ApplyChallenge(s, address, nonce, order)) == Flying(s);
      CreateSize(s.store, address, s.clock, nonce, order);
    case LockoutAnswered(r, locked) =>
      if r in s.requests && s.requests[r].phase.CheckingLockout? { LockoutKeepsSize(s, r, locked); }
    case SessionAnswered(r, outcome) =>
      if r in s.requests && s.requests[r].phase.IssuingSession? { SessionKeepsSize(s, r, outcome); }
    case _ => OtherStepsKeepSize(valid, s, step);
  }

  lemma LockoutKeepsSize(s: State, r: nat, locked: bool)
    requires r in s.requests && s.requests[r].phase.CheckingLockout?
    ensures var t := ApplyLockout(s, r, locked);
            |t.store.challenges| + |Flying(t)| <= |s.store.challenges| + |Flying(s)|
  {
    hide Consume;
    var address := s.requests[r].address;
    ConsumeTakes(s.store, address, s.clock);
    if locked {
      FlyingAfter(s, r, Denied);
    } else {
      var (store, rec) := Consume(s.store, Some(address), s.clock);
      FlyingAfter(s, r, if rec.Some? then Holding(rec.value) else Denied);
    }
  }

  lemma ConsumeTakes(st: Store, address: Address, now: int)
    ensures var (t, rec) := Consume(st, Some(address), now);
            |t.challenges| + (if rec.Some? then 1 else 0) <= |st.challenges|
  {
    var (t, rec) := Consume(st, Some(address), now);
    SmallerTable(t.challenges, st.challenges);
    if rec.Some? {
      assert st.challenges.Keys == t.challenges.Keys + {address};
    }
  }

  /** Moving one request on adds at most itself to those in flight. */
  lemma FlyingAfter(s: State, r: nat, phase: Phase)
    requires r in s.requests
    ensures var t := SetPhase(s, r, phase);
            |Flying(t)| == |Flying(s)| - (if InFlight(s.requests[r]) then 1 else 0) + (if InFlight(t.requests[r]) then 1 else 0)
  {
    var t := SetPhase(s, r, phase);
    var others := Flying(s) - {r};
    assert Flying(s) == if InFlight(s.requests[r]) then others + {r} else others;
    assert Flying(t) == if InFlight(t.requests[r]) then others + {r} else others;
  }

  lemma SessionKeepsSize(s: State, r: nat, outcome: SessionOutcome)
    requires r in s.requests && s.requests[r].phase.IssuingSession?
    ensures var t := ApplySession(s, r, outcome);
            |t.store.challenges| + |Flying(t)| <= |s.store.challenges| + |Flying(s)|
  {
    hide Restore;
    var rec := s.requests[r].phase.rec;
    RestoreAddsOne(s.store, s.requests[r].address, rec, s.clock);
    FlyingAfter(s, r, if outcome == SessionSent then Succeeded(rec) else Returned(rec));
  }

  lemma RestoreAddsOne(st: Store, address: Address, rec: Record, now: int)
    ensures |Restore(st, Some(address), rec, now).0.challenges| <= |st.challenges| + 1
  {
    var t := Restore(st, Some(address), rec, now).0;
    SubsetIsSmaller(t.challenges.Keys, st.challenges.Keys + {address});
  }

  lemma OtherStepsKeepSize(valid: Verdict, s: State, step: Step)
    requires !step.ChallengeRequest? && !step.LockoutAnswered? && !step.SessionAnswered?
    ensures var t := Apply(valid, s, step);
            |t.store.challenges| + |Flying(t)| <= |s.store.challenges| + |Flying(s)|
  {
    var t := Apply(valid, s, step);
    assert Flying(t) <= Flying(s);
    SubsetIsSmaller(Flying(t), Flying(s));
    assert t.store.challenges.Keys <= s.store.challenges.Keys;
    SmallerTable(t.store.challenges, s.store.challenges);
  }

  lemma SmallerTable(t: Table, u: Table)
    requires t.Keys <= u.Keys
    ensures |t| <= |u|
  {
    SubsetIsSmaller(t.Keys, u.Keys);
  }

  /** A creation never takes a store past the cap. */
  lemma CreateSize(st: Store, address: Option<Address>, now: int, nonce: string, order: seq<Address>)
    ensures |Create(st, address, now, nonce, order).0.challenges| <= Max(|st.challenges|, MAX_CHALLENGES)
  {
    hide BeforeCreate, IssueFor;
    if address.Some? {
      var st1 := BeforeCreate(st, now, order);
      BeforeCreateOnlyRemoves(st, now, order);
      SmallerTable(st1.challenges, st.challenges);
      IssueSize(st1, address.value, now, nonce, order);
    }
  }

  lemma IssueSize(st: Store, key: Address, now: int, nonce: string, order: seq<Address>)
    ensures |IssueFor(st, key, now, nonce, order).0.challenges| <= Max(|st.challenges|, MAX_CHALLENGES)
  {
    hide Admit;
    var st1 := st.(challenges := st.challenges - {key});
    SmallerTable(st1.challenges, st.challenges);
    AdmitSize(st1, key, now, nonce, order);
  }

  lemma AdmitSize(st: Store, key: Address, now: int, nonce: string, order: seq<Address>)
    ensures |Admit(st, key, now, nonce, order).0.challenges| <= Max(|st.challenges|, MAX_CHALLENGES)
  {
    hide Sweep;
    var swept := Sweep(st, now, true, order);
    SweepsOnlyExpired(st, now, true, order);
    SmallerTable(swept.challenges, st.challenges);
  }

  /** With at most `k` verifications in flight, stored and in-flight challenges together stay within the cap plus `k`. */
  lemma {:induction false} StoreStaysBounded(valid: Verdict, s: State, steps: seq<Step>, k: nat)
    requires SizeBounded(s, k) && AtMostInFlight(valid, s, steps, k)
    ensures SizeBounded(Run(valid, s, steps), k)
    decreases |steps|
  {
    if steps == [] {
    } else {
      StepKeepsSize(valid, s, steps[0], k);
      StoreStaysBounded(valid, Apply(valid, s, steps[0]), steps[1..], k);
    }
  }

  /** The cap is not hard: a restore does not check it, and exceeds it exactly when the store is full. */
  lemma RestoreOvershootsIffFull(st: Store, address: Address, rec: Record, now: int)
    ensures var (t, restored) := Restore(st, Some(address), rec, now);
            |t.challenges| > MAX_CHALLENGES <==>
              || |st.challenges| > MAX_CHALLENGES
              || (|st.challenges| == MAX_CHALLENGES && now <= rec.expiresAtMs && address !in st.challenges)
  {
    var (t, restored) := Restore(st, Some(address), rec, now);
    if restored {
      assert t.challenges.Keys == st.challenges.Keys + {address};
    }
  }
}
