/**
 Whom a token serves, and for how long: only the wallet that logged in, from its
 issue to the end of its lifetime, whatever happens to other tokens meanwhile.
 */
module SessionAccess {
  import opened Common
  import opened SessionTable
  import opened SessionSteps
  import opened SessionRuns

  // ---------------------------------------------------------------- the owner

  /** Every row carries the address that its family's login was made for. */
  ghost predicate Owned(s: State) {
    && s.owner.Keys <= s.used
    && forall h | h in s.rows ::
         FamilyOf(h, s.rows[h]) in s.owner && s.rows[h].address == s.owner[FamilyOf(h, s.rows[h])]
  }

  lemma StepKeepsOwned(cfg: Config, s: State, step: Step)
    requires Owned(s) && NamesUsed(s)
    ensures Owned(Apply(cfg, s, step))
    ensures forall f | f in s.owner :: f in Apply(cfg, s, step).owner && Apply(cfg, s, step).owner[f] == s.owner[f]
  {
  }

  lemma {:induction false} RunKeepsOwned(cfg: Config, s: State, steps: seq<Step>)
    requires Owned(s) && Inv(cfg, s)
    ensures Owned(Run(cfg, s, steps))
    ensures forall f | f in s.owner :: f in Run(cfg, s, steps).owner && Run(cfg, s, steps).owner[f] == s.owner[f]
    decreases |steps|
  {
    if steps == [] {
    } else {
      StepKeepsOwned(cfg, s, steps[0]);
      StepKeepsInv(cfg, s, steps[0]);
      RunKeepsOwned(cfg, Apply(cfg, s, steps[0]), steps[1..]);
    }
  }

  lemma InitialOwned(cfg: Config, init: State, steps: seq<Step>)
    requires Initial(init)
    ensures Owned(Run(cfg, init, steps)) && Inv(cfg, Run(cfg, init, steps))
  {
    assert Owned(init);
    hide Owned, Inv, Run;
    InitialInv(cfg, init);
    RunKeepsInv(cfg, init, steps);
    RunKeepsOwned(cfg, init, steps);
  }

  /** The address a token was issued to: that of the login its family began with. */
  ghost predicate IssuedTo(s: State, h: Hash, address: string) {
    h in s.rows && FamilyOf(h, s.rows[h]) in s.owner && s.owner[FamilyOf(h, s.rows[h])] == address
  }

  /** In every reachable state a token authenticates, rotates and reports reuse for its own wallet only. */
  lemma OnlyTheOwnerIsServed(cfg: Config, init: State, steps: seq<Step>, address: string, h: Hash, newHash: Hash, now: int)
    requires Initial(init)
    ensures var s := Run(cfg, init, steps);
            && (Accepts(s.rows, address, h, now) ==> IssuedTo(s, h, address))
            && (RotateTransaction(cfg, s.rows, address, h, newHash, now).1 != Invalid ==> IssuedTo(s, h, address))
            && (RotateTransaction(cfg, s.rows, address, h, newHash, now).0 != s.rows ==> IssuedTo(s, h, address))
  {
    hide Run, Inv, Initial;
    InitialOwned(cfg, init, steps);
  }

  /** Logins never change hands. */
  lemma OwnersStay(cfg: Config, init: State, before: seq<Step>, after: seq<Step>, family: string)
    requires Initial(init) && family in Run(cfg, init, before).owner
    ensures var s := Run(cfg, init, before);
            && family in Run(cfg, s, after).owner
            && Run(cfg, s, after).owner[family] == s.owner[family]
  {
    hide Owned, Inv, Run, Initial;
    InitialOwned(cfg, init, before);
    RunKeepsOwned(cfg, Run(cfg, init, before), after);
  }

  // ------------------------------------------------- steps that spare a token

  /** The step neither writes, revokes nor deletes the row of `h`, nor rotates a token of its family. */
  ghost predicate Spares(s: State, step: Step, h: Hash) {
    match step
    case WriteSession(req) => req in s.pending ==> s.pending[req].hash != h
    case Rotate(_, k, _, _) => !SameFamily(s.rows, k, h)
    case Revoke(hashes, _) => h !in hashes
    case Delete(hashes) => h !in hashes
    case _ => true
  }

  ghost predicate SparesAlong(cfg: Config, s: State, steps: seq<Step>, h: Hash)
    decreases |steps|
  {
    steps != [] ==> Spares(s, steps[0], h) && SparesAlong(cfg, Apply(cfg, s, steps[0]), steps[1..], h)
  }

  lemma SparedRowStays(cfg: Config, s: State, step: Step, h: Hash)
    requires NamesUsed(s) && h in s.rows && Spares(s, step, h)
    ensures h in Apply(cfg, s, step).rows && Apply(cfg, s, step).rows[h] == s.rows[h]
  {
  }

  lemma {:induction false} SparedAlong(cfg: Config, s: State, steps: seq<Step>, h: Hash)
    requires Inv(cfg, s) && h in s.rows && SparesAlong(cfg, s, steps, h)
    ensures h in Run(cfg, s, steps).rows && Run(cfg, s, steps).rows[h] == s.rows[h]
    decreases |steps|
  {
    if steps == [] {
    } else {
      SparedRowStays(cfg, s, steps[0], h);
      StepKeepsInv(cfg, s, steps[0]);
      SparedAlong(cfg, Apply(cfg, s, steps[0]), steps[1..], h);
    }
  }

  /** The token serves its address up to `last`, for validation and for rotation, and nobody else or later. */
  ghost predicate Serves(cfg: Config, t: Table, h: Hash, address: string, last: int) {
    && (forall a, now :: Accepts(t, a, h, now) <==> a == address && now <= last)
    && (forall a, next, now | next !in t ::
          RotateTransaction(cfg, t, a, h, next, now).1.Rotated? <==> a == address && now <= last)
    && (forall a, next, now | !(a == address && now <= last) :: RotateTransaction(cfg, t, a, h, next, now) == (t, Invalid))
  }

  lemma UnusedRowServes(cfg: Config, t: Table, h: Hash, last: int)
    requires h in t && t[h].revokedAt == None && t[h].rotatedAt == None
    requires last == Min(t[h].expiresAt, t[h].absoluteExpiresAt)
    ensures Serves(cfg, t, h, t[h].address, last)
  {
  }

  // -------------------------------------------------------------- lifetimes

  /** The step neither writes, rotates, revokes nor deletes the token. */
  ghost predicate LeavesAlone(s: State, step: Step, h: Hash) {
    match step
    case WriteSession(req) => req in s.pending ==> s.pending[req].hash != h
    case Rotate(_, k, _, _) => k != h
    case Revoke(hashes, _) => h !in hashes
    case Delete(hashes) => h !in hashes
    case _ => true
  }

  ghost predicate LeftAlone(cfg: Config, s: State, steps: seq<Step>, h: Hash)
    decreases |steps|
  {
    steps != [] ==> LeavesAlone(s, steps[0], h) && LeftAlone(cfg, Apply(cfg, s, steps[0]), steps[1..], h)
  }

  /** The only token of its family. */
  ghost predicate Single(s: State, h: Hash) {
    && h in s.rows && s.rows[h].familyId.Some?
    && forall k | k in s.rows && FamilyOf(k, s.rows[k]) == FamilyOf(h, s.rows[h]) :: k == h
  }

  lemma SingleStays(cfg: Config, s: State, step: Step, h: Hash)
    requires NamesUsed(s) && Single(s, h) && LeavesAlone(s, step, h)
    ensures Spares(s, step, h) && Single(Apply(cfg, s, step), h)
  {
    SparedRowStays(cfg, s, step, h);
  }

  lemma {:induction false} SingleIsSpared(cfg: Config, s: State, steps: seq<Step>, h: Hash)
    requires Inv(cfg, s) && Single(s, h) && LeftAlone(cfg, s, steps, h)
    ensures SparesAlong(cfg, s, steps, h)
    decreases |steps|
  {
    if steps == [] {
    } else {
      SingleStays(cfg, s, steps[0], h);
      StepKeepsInv(cfg, s, steps[0]);
      SingleIsSpared(cfg, Apply(cfg, s, steps[0]), steps[1..], h);
    }
  }

  /** A login serves its wallet for the shorter of the two lifetimes, as long as nobody touches its token. */
  lemma LoginLastsItsLifetime(cfg: Config, s: State, address: string, h: Hash, family: string, at: int, steps: seq<Step>)
    requires Inv(cfg, s) && at <= s.clock && h !in s.used && family !in s.used && h != family
    requires LeftAlone(cfg, Apply(cfg, s, Create(address, h, family, at)), steps, h)
    ensures var t := Run(cfg, Apply(cfg, s, Create(address, h, family, at)), steps);
            Serves(cfg, t.rows, h, address, at + Min(cfg.ttl, cfg.maxTtl))
  {
    var u := Apply(cfg, s, Create(address, h, family, at));
    StepKeepsInv(cfg, s, Create(address, h, family, at));
    assert Single(u, h);
    SingleIsSpared(cfg, u, steps, h);
    SparedAlong(cfg, u, steps, h);
    UnusedRowServes(cfg, Run(cfg, u, steps).rows, h, at + Min(cfg.ttl, cfg.maxTtl));
  }

  /** A rotation hands over to a token that serves the same wallet for a lifetime, but not past the login's. */
  lemma SuccessorLastsItsLifetime(
    cfg: Config, s: State, address: string, h: Hash, newHash: Hash, at: int, steps: seq<Step>)
    requires Inv(cfg, s) && at <= s.clock && newHash !in s.used
    requires RotateTransaction(cfg, s.rows, address, h, newHash, at).1.Rotated?
    requires SparesAlong(cfg, Apply(cfg, s, Rotate(address, h, newHash, at)), steps, newHash)
    ensures var t := Run(cfg, Apply(cfg, s, Rotate(address, h, newHash, at)), steps);
            var last := Min(at + cfg.ttl, s.rows[h].absoluteExpiresAt);
            && Serves(cfg, t.rows, newHash, address, last)
            && newHash in t.rows && t.rows[newHash].absoluteExpiresAt == s.rows[h].absoluteExpiresAt
            && RotateTransaction(cfg, s.rows, address, h, newHash, at).1 == Rotated(newHash, last - at)
  {
    var u := Apply(cfg, s, Rotate(address, h, newHash, at));
    StepKeepsInv(cfg, s, Rotate(address, h, newHash, at));
    SparedAlong(cfg, u, steps, newHash);
    UnusedRowServes(cfg, Run(cfg, u, steps).rows, newHash, Min(at + cfg.ttl, s.rows[h].absoluteExpiresAt));
  }

  /** The validation at `at`, its read and its write, with `between` in between. */
  function Validation(req: nat, address: string, h: Hash, at: int, between: seq<Step>): seq<Step> {
    [ReadSession(req, address, h, at)] + between + [WriteSession(req)]
  }

  lemma {:induction false} RunSplit(cfg: Config, s: State, a: seq<Step>, b: seq<Step>)
    ensures Run(cfg, s, a + b) == Run(cfg, Run(cfg, s, a), b)
    decreases |a|
  {
    if a == [] {
      assert a + b == b;
    } else {
      assert (a + b)[1..] == a[1..] + b;
      RunSplit(cfg, Apply(cfg, s, a[0]), a[1..], b);
    }
  }

  lemma ValidationIs(cfg: Config, s: State, req: nat, address: string, h: Hash, at: int, between: seq<Step>)
    ensures Run(cfg, s, Validation(req, address, h, at, between))
         == Apply(cfg, Run(cfg, Apply(cfg, s, ReadSession(req, address, h, at)), between), WriteSession(req))
  {
    var first, last := [ReadSession(req, address, h, at)], [WriteSession(req)];
    RunSplit(cfg, s, first + between, last);
    RunSplit(cfg, s, first, between);
    assert first[1..] == [] && last[1..] == [];
    var waited := Run(cfg, Run(cfg, s, first), between);
    assert Run(cfg, s, first) == Run(cfg, Apply(cfg, s, first[0]), []);
    assert Run(cfg, waited, last) == Run(cfg, Apply(cfg, waited, last[0]), []);
  }

  /** Other steps than those of request `req`. */
  ghost predicate OfOthers(steps: seq<Step>, req: nat) {
    forall i | 0 <= i < |steps| :: steps[i] != WriteSession(req) && !(steps[i].ReadSession? && steps[i].req == req)
  }

  lemma {:induction false} SlideWaits(cfg: Config, s: State, steps: seq<Step>, req: nat)
    requires OfOthers(steps, req)
    ensures req in Run(cfg, s, steps).pending <==> req in s.pending
    ensures req in s.pending ==> Run(cfg, s, steps).pending[req] == s.pending[req]
    decreases |steps|
  {
    if steps == [] {
    } else {
      var t := Apply(cfg, s, steps[0]);
      assert req in t.pending <==> req in s.pending;
      SlideWaits(cfg, t, steps[1..], req);
    }
  }

  /** What the two steps of a validation leave of the row, if nothing in between touches it. */
  lemma RowAfterValidation(
    cfg: Config, s: State, req: nat, address: string, h: Hash, at: int, between: seq<Step>)
    requires Inv(cfg, s) && at <= s.clock && req !in s.pending
    requires h in s.rows && s.rows[h].revokedAt == None && s.rows[h].rotatedAt == None
    requires s.rows[h].address == address && at <= Min(s.rows[h].expiresAt, s.rows[h].absoluteExpiresAt)
    requires OfOthers(between, req)
    requires SparesAlong(cfg, Apply(cfg, s, ReadSession(req, address, h, at)), between, h)
    ensures var t, row := Run(cfg, s, Validation(req, address, h, at, between)), s.rows[h];
            && Inv(cfg, t) && h in t.rows
            && t.rows[h] == if row.lastSeen == None || at - row.lastSeen.value >= 60_000
                            then row.(lastSeen := Some(at), expiresAt := Min(at + cfg.ttl, row.absoluteExpiresAt))
                            else row
  {
    hide Run, Inv, SparesAlong, OfOthers;
    var read := Apply(cfg, s, ReadSession(req, address, h, at));
    var waited := Run(cfg, read, between);
    ValidationIs(cfg, s, req, address, h, at, between);
    StepKeepsInv(cfg, s, ReadSession(req, address, h, at));
    SparedAlong(cfg, read, between, h);
    RunKeepsInv(cfg, read, between);
    SlideWaits(cfg, read, between, req);
    StepKeepsInv(cfg, waited, WriteSession(req));
  }

  /**
   A validation that writes prolongs the token by a lifetime from its own time, but not
   past the login's absolute one; one within a minute of the last write changes nothing.
   */
  lemma ValidationProlongs(
    cfg: Config, s: State, req: nat, address: string, h: Hash, at: int, between: seq<Step>, steps: seq<Step>)
    requires Inv(cfg, s) && at <= s.clock && req !in s.pending
    requires h in s.rows && s.rows[h].revokedAt == None && s.rows[h].rotatedAt == None
    requires s.rows[h].address == address && at <= Min(s.rows[h].expiresAt, s.rows[h].absoluteExpiresAt)
    requires OfOthers(between, req)
    requires SparesAlong(cfg, Apply(cfg, s, ReadSession(req, address, h, at)), between, h)
    requires SparesAlong(cfg, Run(cfg, s, Validation(req, address, h, at, between)), steps, h)
    ensures var t := Run(cfg, Run(cfg, s, Validation(req, address, h, at, between)), steps);
            var seen := s.rows[h].lastSeen;
            Serves(cfg, t.rows, h, address,
                   if seen == None || at - seen.value >= 60_000
                   then Min(at + cfg.ttl, s.rows[h].absoluteExpiresAt)
                   else Min(s.rows[h].expiresAt, s.rows[h].absoluteExpiresAt))
  {
    hide Run, Inv, SparesAlong, Serves, Apply;
    RowAfterValidation(cfg, s, req, address, h, at, between);
    var written := Run(cfg, s, Validation(req, address, h, at, between));
    SparedAlong(cfg, written, steps, h);
    var t := Run(cfg, written, steps);
    UnusedRowServes(cfg, t.rows, h, Min(t.rows[h].expiresAt, t.rows[h].absoluteExpiresAt));
  }

  // ------------------------------------------------------- dead tokens and sweeps

  /** After a logout the owner's token is reported as reused when it is presented for rotation. */
  lemma RevokedIsReuse(cfg: Config, s: State, hashes: set<Hash>, at: int, h: Hash, next: Hash, now: int)
    requires h in s.rows && h in hashes
    ensures var t := Apply(cfg, s, Revoke(hashes, at)).rows;
            && RotateTransaction(cfg, t, s.rows[h].address, h, next, now).1 == Reused(FamilyOf(h, s.rows[h]))
            && forall address :: !Accepts(t, address, h, now)
  {
  }

  /** The rows a sweep at `now` is for: revoked ones, and those whose time is over. */
  ghost predicate Spent(row: Row, now: int) {
    row.revokedAt.Some? || Min(row.expiresAt, row.absoluteExpiresAt) < now
  }

  /** A sweep removes exactly the spent rows; it changes no verdict, and no report of reuse for a token that was not spent. */
  lemma SweepIsUnseen(cfg: Config, t: Table, now: int)
    ensures var u := DeleteStatement(t, SweepableHashes(t, now));
            && (forall h :: h in u <==> h in t && !Spent(t[h], now))
            && (forall h | h in u :: u[h] == t[h])
            && (forall address, h, later | now <= later :: Accepts(u, address, h, later) <==> Accepts(t, address, h, later))
            && (forall address, h, next, later | h in u ::
                  RotateTransaction(cfg, u, address, h, next, later).1.Reused?
                  <==> RotateTransaction(cfg, t, address, h, next, later).1.Reused?)
  {
    var u := DeleteStatement(t, SweepableHashes(t, now));
    forall h
      ensures h in u <==> h in t && !Spent(t[h], now)
    {
      assert h in SweepableHashes(t, now) <==> h in t && Sweepable(t[h], now);
    }
  }
}
