/**
 Theorems about whole runs of the session store: the invariant of `SessionSteps`,
 the lifetime cap, and that dead tokens and families stay dead.
 */
module SessionRuns {
  import opened Common
  import opened SessionTable
  import opened SessionSteps

  lemma {:induction false} RunKeepsInv(cfg: Config, s: State, steps: seq<Step>)
    requires Inv(cfg, s)
    ensures Inv(cfg, Run(cfg, s, steps))
    decreases |steps|
  {
    if steps == [] {
    } else {
      StepKeepsInv(cfg, s, steps[0]);
      RunKeepsInv(cfg, Apply(cfg, s, steps[0]), steps[1..]);
    }
  }

  lemma InitialInv(cfg: Config, s: State)
    requires Initial(s)
    ensures Inv(cfg, s)
  {
    assert forall h | h in s.rows :: FamilyOf(h, s.rows[h]) == h;
    assert NamesUsed(s);
    assert FamiliesAgree(cfg, s);
    assert OneLiveToken(s);
  }

  /**
   In every reachable table a family has at most one token that is neither
   rotated nor revoked, one address and one absolute expiry; and no token of a
   family is accepted later than its login plus the maximum lifetime, however
   often it was slid or rotated.
   */
  lemma FamilySafety(cfg: Config, s: State, steps: seq<Step>)
    requires Initial(s)
    ensures OneLiveToken(Run(cfg, s, steps)) && FamiliesAgree(cfg, Run(cfg, s, steps))
    ensures LifetimeBounded(cfg, Run(cfg, s, steps))
  {
    InitialInv(cfg, s);
    RunKeepsInv(cfg, s, steps);
  }

  ghost predicate LifetimeBounded(cfg: Config, s: State) {
    forall h, address, now | Accepts(s.rows, address, h, now) && FamilyOf(h, s.rows[h]) in s.born ::
      now <= s.born[FamilyOf(h, s.rows[h])] + cfg.maxTtl
  }

  // ------------------------------------------------------------ the expiry cap

  /** No row, and no write under way, reaches past its absolute expiry. */
  ghost predicate Capped(s: State) {
    && (forall h | h in s.rows :: s.rows[h].expiresAt <= s.rows[h].absoluteExpiresAt)
    && (forall req | req in s.pending && s.pending[req].hash in s.rows ::
          s.pending[req].expiresAt <= s.rows[s.pending[req].hash].absoluteExpiresAt)
  }

  lemma CreateKeepsCap(cfg: Config, s: State, address: string, hash: Hash, family: string, now: int)
    requires Inv(cfg, s) && Capped(s) && cfg.ttl <= cfg.maxTtl
    ensures Capped(ApplyCreate(cfg, s, address, hash, family, now))
  {
  }

  lemma RotateKeepsCap(cfg: Config, s: State, address: string, hash: Hash, newHash: Hash, now: int)
    requires NamesUsed(s) && Capped(s)
    ensures Capped(ApplyRotate(cfg, s, address, hash, newHash, now))
  {
  }

  lemma OtherStepsKeepCap(cfg: Config, s: State, step: Step)
    requires Capped(s) && !step.Create? && !step.Rotate?
    ensures Capped(Apply(cfg, s, step))
  {
  }

  lemma {:induction false} RunKeepsCap(cfg: Config, s: State, steps: seq<Step>)
    requires Inv(cfg, s) && Capped(s) && cfg.ttl <= cfg.maxTtl
    ensures Capped(Run(cfg, s, steps))
    decreases |steps|
  {
    if steps == [] {
    } else {
      var step := steps[0];
      StepKeepsInv(cfg, s, step);
      if step.Create? {
        CreateKeepsCap(cfg, s, step.address, step.hash, step.family, step.now);
      } else if step.Rotate? {
        RotateKeepsCap(cfg, s, step.address, step.hash, step.newHash, step.now);
      } else {
        OtherStepsKeepCap(cfg, s, step);
      }
      RunKeepsCap(cfg, Apply(cfg, s, step), steps[1..]);
    }
  }

  /**
   `createSession` does not clamp: the sliding expiry stays under the absolute one
   in every run exactly when the configured lifetimes are in order.
   */
  lemma CapHoldsIffConfigured(cfg: Config, s: State)
    requires Initial(s) && Capped(s)
    ensures AlwaysCapped(cfg, s) <==> cfg.ttl <= cfg.maxTtl
  {
    if cfg.ttl <= cfg.maxTtl {
      InitialInv(cfg, s);
      forall steps ensures Capped(Run(cfg, s, steps)) {
        RunKeepsCap(cfg, s, steps);
      }
    } else {
      var step := UncappedLogin(cfg, s);
      assert !Capped(Run(cfg, s, [step]));
    }
  }

  ghost predicate AlwaysCapped(cfg: Config, s: State) {
    forall steps :: Capped(Run(cfg, s, steps))
  }

  lemma UncappedLogin(cfg: Config, s: State) returns (step: Step)
    requires cfg.ttl > cfg.maxTtl
    ensures !Capped(Run(cfg, s, [step]))
  {
    var hash, family := FreshNames(s.used);
    step := Create("0x1", hash, family, s.clock);
    var t := ApplyCreate(cfg, s, "0x1", hash, family, s.clock);
    assert hash in t.rows && t.rows[hash].expiresAt > t.rows[hash].absoluteExpiresAt;
    assert Run(cfg, s, [step]) == t;
  }

  lemma FreshNames(used: set<string>) returns (hash: string, family: string)
    ensures hash !in used && family !in used && hash != family
  {
    var n := LongerThan(used);
    hash, family := seq(n, _ => 'h'), seq(n + 1, _ => 'f');
  }

  lemma {:induction false} LongerThan(used: set<string>) returns (n: nat)
    ensures forall name <- used :: |name| < n
  {
    if used == {} {
      n := 0;
    } else {
      var name :| name in used;
      var m := LongerThan(used - {name});
      n := if |name| < m then m else |name| + 1;
      forall other | other in used ensures |other| < n {
        assert other == name || other in used - {name};
      }
    }
  }

  // ---------------------------------------------------------------- no revival

  /** The token exists no more, or is rotated or revoked. */
  ghost predicate Dead(s: State, h: Hash) {
    h in s.used && (h in s.rows ==> !Live(s.rows[h]))
  }

  lemma DeadStays(cfg: Config, s: State, step: Step, h: Hash)
    requires Dead(s, h)
    ensures Dead(Apply(cfg, s, step), h)
  {
  }

  /**
   A token once rotated, revoked or swept never authenticates and never rotates
   again, whatever happens in between.
   */
  lemma {:induction false} DeadForever(cfg: Config, s: State, steps: seq<Step>, h: Hash)
    requires Dead(s, h)
    ensures var t := Run(cfg, s, steps);
            && Dead(t, h)
            && (forall address, now :: !Accepts(t.rows, address, h, now))
            && (forall address, newHash, now :: !RotateTransaction(cfg, t.rows, address, h, newHash, now).1.Rotated?)
    decreases |steps|
  {
    if steps == [] {
    } else {
      DeadStays(cfg, s, steps[0], h);
      DeadForever(cfg, Apply(cfg, s, steps[0]), steps[1..], h);
    }
  }

  /** Rotation, revocation and deletion are what kills a token; a rotation leaves exactly its successor alive. */
  lemma KillingSteps(cfg: Config, s: State, step: Step, h: Hash)
    requires Inv(cfg, s) && h in s.rows
    ensures (step.Revoke? || step.Delete?) && h in step.hashes ==> Dead(Apply(cfg, s, step), h)
    ensures step.Rotate? && step.now <= s.clock && step.newHash !in s.used && step.hash == h
            && RotateTransaction(cfg, s.rows, step.address, h, step.newHash, step.now).1.Rotated? ==>
              var t := Apply(cfg, s, step);
              && Dead(t, h)
              && step.newHash in t.rows && Live(t.rows[step.newHash])
              && FamilyOf(step.newHash, t.rows[step.newHash]) == FamilyOf(h, s.rows[h])
  {
  }

  /** No token of the family is alive. */
  ghost predicate FamilyDead(s: State, family: string) {
    family in s.used && forall h | h in s.rows && FamilyOf(h, s.rows[h]) == family :: !Live(s.rows[h])
  }

  /** No token of the family authenticates or rotates. */
  ghost predicate NeverSucceeds(cfg: Config, s: State, family: string) {
    forall h | h in s.rows && FamilyOf(h, s.rows[h]) == family ::
      && (forall address, now :: !Accepts(s.rows, address, h, now))
      && (forall address, next, now :: !RotateTransaction(cfg, s.rows, address, h, next, now).1.Rotated?)
  }

  lemma ReuseKillsFamily(cfg: Config, s: State, address: string, h: Hash, newHash: Hash, now: int)
    requires Inv(cfg, s) && now <= s.clock && newHash !in s.used
    requires RotateTransaction(cfg, s.rows, address, h, newHash, now).1.Reused?
    ensures FamilyDead(ApplyRotate(cfg, s, address, h, newHash, now),
                       RotateTransaction(cfg, s.rows, address, h, newHash, now).1.familyId)
  {
    var family := RotateTransaction(cfg, s.rows, address, h, newHash, now).1.familyId;
    var t := ApplyRotate(cfg, s, address, h, newHash, now);
    forall k | k in t.rows && FamilyOf(k, t.rows[k]) == family ensures !Live(t.rows[k]) {
      assert SameFamily(s.rows, k, h);
    }
  }

  lemma FamilyDeadStays(cfg: Config, s: State, step: Step, family: string)
    requires NamesUsed(s) && FamilyDead(s, family)
    ensures FamilyDead(Apply(cfg, s, step), family)
  {
  }

  lemma {:induction false} FamilyDeadForever(cfg: Config, s: State, steps: seq<Step>, family: string)
    requires Inv(cfg, s) && FamilyDead(s, family)
    ensures FamilyDead(Run(cfg, s, steps), family)
    decreases |steps|
  {
    if steps == [] {
    } else {
      FamilyDeadStays(cfg, s, steps[0], family);
      StepKeepsInv(cfg, s, steps[0]);
      FamilyDeadForever(cfg, Apply(cfg, s, steps[0]), steps[1..], family);
    }
  }

  /**
   Once `rotateSession` reports `reused`, no token of that family authenticates or
   rotates ever again; legacy families with a null `familyId` included.
   */
  lemma ReusedFamilyNeverSucceeds(
    cfg: Config, init: State, before: seq<Step>, address: string, h: Hash, newHash: Hash, now: int, after: seq<Step>)
    requires Initial(init)
    requires now <= Run(cfg, init, before).clock && newHash !in Run(cfg, init, before).used
    requires RotateTransaction(cfg, Run(cfg, init, before).rows, address, h, newHash, now).1.Reused?
    ensures NeverSucceeds(cfg,
              Run(cfg, ApplyRotate(cfg, Run(cfg, init, before), address, h, newHash, now), after),
              RotateTransaction(cfg, Run(cfg, init, before).rows, address, h, newHash, now).1.familyId)
  {
    var s := Run(cfg, init, before);
    InitialInv(cfg, init);
    RunKeepsInv(cfg, init, before);
    ReuseKillsFamily(cfg, s, address, h, newHash, now);
    RotateKeepsInv(cfg, s, address, h, newHash, now);
    var family := RotateTransaction(cfg, s.rows, address, h, newHash, now).1.familyId;
    FamilyDeadForever(cfg, ApplyRotate(cfg, s, address, h, newHash, now), after, family);
    DeadFamilyNeverSucceeds(cfg, Run(cfg, ApplyRotate(cfg, s, address, h, newHash, now), after), family);
  }

  lemma DeadFamilyNeverSucceeds(cfg: Config, s: State, family: string)
    requires FamilyDead(s, family)
    ensures NeverSucceeds(cfg, s, family)
  {
  }

  // ------------------------------------------------- a rotation whose reply is lost

  /** The token was rotated out, or its row is gone. */
  ghost predicate RotatedOut(s: State, h: Hash, address: string, family: string) {
    && h in s.used
    && (h in s.rows ==>
          s.rows[h].address == address && FamilyOf(h, s.rows[h]) == family && s.rows[h].rotatedAt.Some?)
  }

  lemma RotatedOutStays(cfg: Config, s: State, step: Step, h: Hash, address: string, family: string)
    requires RotatedOut(s, h, address, family)
    ensures RotatedOut(Apply(cfg, s, step), h, address, family)
  {
  }

  lemma {:induction false} RotatedOutForever(cfg: Config, s: State, steps: seq<Step>, h: Hash, address: string, family: string)
    requires RotatedOut(s, h, address, family)
    ensures RotatedOut(Run(cfg, s, steps), h, address, family)
    decreases |steps|
  {
    if steps == [] {
    } else {
      RotatedOutStays(cfg, s, steps[0], h, address, family);
      RotatedOutForever(cfg, Apply(cfg, s, steps[0]), steps[1..], h, address, family);
    }
  }

  /**
   A rotation that was committed but answered with `invalid` cannot be repeated: at
   any later time presenting the old token is reported as reuse exactly while its row
   stands, and then no token of the family, the unseen successor included, is left alive.
   */
  lemma RetryAfterLostReply(
    cfg: Config, s: State, address: string, h: Hash, newHash: Hash, now: int, between: seq<Step>, other: Hash, again: int)
    requires Inv(cfg, s) && now <= s.clock && newHash !in s.used
    requires RotateTransaction(cfg, s.rows, address, h, newHash, now).1.Rotated?
    requires var t := Run(cfg, ApplyRotate(cfg, s, address, h, newHash, now), between);
             again <= t.clock && other !in t.used
    ensures var t := Run(cfg, ApplyRotate(cfg, s, address, h, newHash, now), between);
            var family, r := FamilyOf(h, s.rows[h]), RotateTransaction(cfg, t.rows, address, h, other, again).1;
            && r == (if h in t.rows then Reused(family) else Invalid)
            && (r.Reused? ==> FamilyDead(ApplyRotate(cfg, t, address, h, other, again), family))
  {
    var rotated := ApplyRotate(cfg, s, address, h, newHash, now);
    var family := FamilyOf(h, s.rows[h]);
    RotateKeepsInv(cfg, s, address, h, newHash, now);
    RunKeepsInv(cfg, rotated, between);
    RotatedOutForever(cfg, rotated, between, h, address, family);
    var t := Run(cfg, rotated, between);
    if RotateTransaction(cfg, t.rows, address, h, other, again).1.Reused? {
      ReuseKillsFamily(cfg, t, address, h, other, again);
    }
  }

  // ------------------------------------------------- what a bulk revocation can miss

  /** Two logins of one address, the first of which is logged out. */
  function LogoutOfTwo(address: string, h: Hash, f: string, k: Hash, g: string, now: int): seq<Step> {
    [Create(address, h, f, now), Create(address, k, g, now), Revoke({h}, now)]
  }

  /** Revoking all sessions of the address may probe row `h`, and then changes nothing while token `k` is accepted. */
  ghost predicate Hides(t: Table, address: string, h: Hash, k: Hash, now: int) {
    && Probes(t, ByAddress(address), Some(h))
    && BulkRevokes(t, t, ByAddress(address), Some(h))
    && k in t && Live(t[k]) && Accepts(t, address, k, now)
  }

  /**
   From any table: after the logout of one of two sessions, revoking all sessions of
   the address may probe the revoked row, and then leaves the other token accepted.
   */
  lemma LogoutHidesSession(cfg: Config, s: State, address: string, h: Hash, f: string, k: Hash, g: string, now: int)
    requires cfg.ttl >= 0 && cfg.maxTtl >= 0 && now <= s.clock
    requires h != f && h != k && h != g && f != k && f != g && k != g
    requires h !in s.used && f !in s.used && k !in s.used && g !in s.used
    ensures Hides(Run(cfg, s, LogoutOfTwo(address, h, f, k, g, now)).rows, address, h, k, now)
  {
    var steps := LogoutOfTwo(address, h, f, k, g, now);
    var s1 := Apply(cfg, s, steps[0]);
    var s2 := Apply(cfg, s1, steps[1]);
    var s3 := Apply(cfg, s2, steps[2]);
    assert s2.rows[k] == NewRow(cfg, address, g, now) && s2.rows[h] == NewRow(cfg, address, f, now);
    assert Run(cfg, s, steps) == s3 by {
      assert steps[1..][1..] == [steps[2]];
      assert Run(cfg, s2, [steps[2]]) == s3;
    }
  }
}
