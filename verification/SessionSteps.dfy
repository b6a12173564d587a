/**
 The session store as a state machine: logins, validations whose read and write are
 separated by other steps, rotations, revocations, sweeps and the passing of
 time, in any order.

 `used` holds every token hash and family identifier that ever existed; new ones
 are taken outside it (fresh random tokens and UUIDs).  `born` remembers when a
 family's login happened and `owner` who logged in.  Revocation and deletion are
 allowed of any set of rows, which covers single, bulk and swept rows in batches of
 any size.
 */
module SessionSteps {
  import opened Common
  import opened SessionTable

  /** The UPDATE that a validation decided on when it read the row. */
  datatype Slide = Slide(hash: Hash, now: int, expiresAt: int)

  datatype State = State(
    clock: int,
    rows: Table,
    used: set<string>,
    born: map<string, int>,
    owner: map<string, string>,
    pending: map<nat, Slide>)

  datatype Step =
    | Tick(to: int)
    | Create(address: string, hash: Hash, family: string, now: int)
    | ReadSession(req: nat, address: string, hash: Hash, now: int)
    | WriteSession(req: nat)
    | Rotate(address: string, hash: Hash, newHash: Hash, now: int)
    | Revoke(hashes: set<Hash>, at: int)
    | Delete(hashes: set<Hash>)

  function ApplyCreate(cfg: Config, s: State, address: string, hash: Hash, family: string, now: int): State {
    if now <= s.clock && hash !in s.used && family !in s.used && hash != family
    then s.(rows := s.rows[hash := NewRow(cfg, address, family, now)],
            used := s.used + {hash, family},
            born := s.born[family := now],
            owner := s.owner[family := address])
    else s
  }

  function ApplyRead(cfg: Config, s: State, req: nat, address: string, hash: Hash, now: int): State {
    if req !in s.pending && now <= s.clock && Accepts(s.rows, address, hash, now) && SlideDue(s.rows[hash], now)
    then
      var slide := Slide(hash, now, NextSlidingExpiry(cfg, now, s.rows[hash].absoluteExpiresAt));
      s.(pending := s.pending[req := slide])
    else s
  }

  function ApplyWrite(s: State, req: nat): State {
    if req in s.pending
    then
      var slide := s.pending[req];
      s.(rows := SlideStatement(s.rows, slide.hash, slide.now, slide.expiresAt), pending := s.pending - {req})
    else s
  }

  function ApplyRotate(cfg: Config, s: State, address: string, hash: Hash, newHash: Hash, now: int): State {
    if now <= s.clock && newHash !in s.used
    then
      var (rows, r) := RotateTransaction(cfg, s.rows, address, hash, newHash, now);
      s.(rows := rows, used := if r.Rotated? then s.used + {newHash} else s.used)
    else s
  }

  function Apply(cfg: Config, s: State, step: Step): State {
    match step
    case Tick(to) => if to >= s.clock then s.(clock := to) else s
    case Create(address, hash, family, now) => ApplyCreate(cfg, s, address, hash, family, now)
    case ReadSession(req, address, hash, now) => ApplyRead(cfg, s, req, address, hash, now)
    case WriteSession(req) => ApplyWrite(s, req)
    case Rotate(address, hash, newHash, now) => ApplyRotate(cfg, s, address, hash, newHash, now)
    case Revoke(hashes, at) => s.(rows := MarkRevoked(s.rows, hashes, at))
    case Delete(hashes) => s.(rows := DeleteStatement(s.rows, hashes))
  }

  function Run(cfg: Config, s: State, steps: seq<Step>): State
    decreases |steps|
  {
    if steps == [] then s else Run(cfg, Apply(cfg, s, steps[0]), steps[1..])
  }

  /** Before the first step there may be rows of the time before families and rotation. */
  ghost predicate Initial(s: State) {
    && s.used == s.rows.Keys && s.born == map[] && s.pending == map[]
    && s.owner == (map h | h in s.rows :: s.rows[h].address)
    && forall h | h in s.rows ::
         s.rows[h].familyId == None && s.rows[h].rotatedAt == None
  }

  // ----------------------------------------------------------------- families

  ghost predicate NamesUsed(s: State) {
    && (forall h | h in s.rows :: h in s.used && FamilyOf(h, s.rows[h]) in s.used)
    && (forall req | req in s.pending :: s.pending[req].hash in s.used)
    && s.born.Keys <= s.used
  }

  predicate SameFamily(t: Table, h: Hash, k: Hash) {
    h in t && k in t && FamilyOf(h, t[h]) == FamilyOf(k, t[k])
  }

  /** One address and one absolute expiry per family, set by the login. */
  ghost predicate FamiliesAgree(cfg: Config, s: State) {
    && (forall h, k {:trigger SameFamily(s.rows, h, k)} | SameFamily(s.rows, h, k) ::
          && s.rows[h].address == s.rows[k].address
          && s.rows[h].absoluteExpiresAt == s.rows[k].absoluteExpiresAt)
    && (forall h | h in s.rows && FamilyOf(h, s.rows[h]) in s.born ::
          s.rows[h].absoluteExpiresAt == s.born[FamilyOf(h, s.rows[h])] + cfg.maxTtl)
  }

  ghost predicate OneLiveToken(s: State) {
    forall h, k {:trigger SameFamily(s.rows, h, k)} | SameFamily(s.rows, h, k) ::
      Live(s.rows[h]) && Live(s.rows[k]) ==> h == k
  }

  /** A legacy row that heads a family has been rotated. */
  ghost predicate LegacyRootsRotated(s: State) {
    forall h, k {:trigger SameFamily(s.rows, h, k)} | SameFamily(s.rows, h, k) ::
      s.rows[h].familyId == None && s.rows[k].familyId.Some? ==> s.rows[h].rotatedAt.Some?
  }

  ghost predicate Inv(cfg: Config, s: State) {
    NamesUsed(s) && FamiliesAgree(cfg, s) && OneLiveToken(s) && LegacyRootsRotated(s)
  }

  /**
   What every step but a login and a successful rotation does to the table: rows
   may go, tokens may die, nothing else that identifies a row changes.
   */
  ghost predicate Weakens(was: Table, t: Table) {
    && t.Keys <= was.Keys
    && forall h | h in t ::
         && t[h].address == was[h].address
         && t[h].familyId == was[h].familyId
         && t[h].absoluteExpiresAt == was[h].absoluteExpiresAt
         && (Live(t[h]) ==> Live(was[h]))
         && (was[h].rotatedAt.Some? ==> t[h].rotatedAt.Some?)
  }

  lemma WeakeningKeepsInv(cfg: Config, s: State, t: State)
    requires Inv(cfg, s) && Weakens(s.rows, t.rows)
    requires t.used == s.used && t.born == s.born
    requires forall req | req in t.pending :: t.pending[req].hash in s.used
    ensures Inv(cfg, t)
  {
    assert forall h | h in t.rows :: h in s.rows && FamilyOf(h, t.rows[h]) == FamilyOf(h, s.rows[h]);
    assert forall h, k | SameFamily(t.rows, h, k) :: SameFamily(s.rows, h, k);
  }

  /** Adds the row of a fresh token, to a family without a live token. */
  ghost predicate Joins(cfg: Config, s: State, h: Hash, row: Row) {
    && h !in s.used && row.familyId.Some? && row.familyId.value in s.used
    && (row.familyId.value in s.born ==>
          row.absoluteExpiresAt == s.born[row.familyId.value] + cfg.maxTtl)
    && forall k | k in s.rows && FamilyOf(k, s.rows[k]) == row.familyId.value ::
         && !Live(s.rows[k])
         && s.rows[k].address == row.address
         && s.rows[k].absoluteExpiresAt == row.absoluteExpiresAt
         && (s.rows[k].familyId == None ==> s.rows[k].rotatedAt.Some?)
  }

  lemma JoiningKeepsInv(cfg: Config, s: State, h: Hash, row: Row)
    requires Inv(cfg, s) && Joins(cfg, s, h, row)
    ensures Inv(cfg, s.(rows := s.rows[h := row], used := s.used + {h}))
  {
    hide OneLiveToken, LegacyRootsRotated, NamesUsed, FamiliesAgree, Joins;
    JoiningKeepsNames(cfg, s, h, row);
    JoiningKeepsFamilies(cfg, s, h, row);
    JoiningKeepsOneLive(cfg, s, h, row);
    JoiningKeepsRoots(cfg, s, h, row);
  }

  lemma JoiningKeepsNames(cfg: Config, s: State, h: Hash, row: Row)
    requires NamesUsed(s) && Joins(cfg, s, h, row)
    ensures NamesUsed(s.(rows := s.rows[h := row], used := s.used + {h}))
  {
  }

  /** Rows other than the new one are of one family exactly when they were. */
  lemma OtherFamiliesStay(cfg: Config, s: State, h: Hash, row: Row, j: Hash, k: Hash)
    requires NamesUsed(s) && Joins(cfg, s, h, row)
    requires SameFamily(s.rows[h := row], j, k) && j != k
    ensures if j == h then k in s.rows && FamilyOf(k, s.rows[k]) == row.familyId.value
            else if k == h then j in s.rows && FamilyOf(j, s.rows[j]) == row.familyId.value
            else SameFamily(s.rows, j, k)
  {
  }

  lemma JoiningKeepsFamilies(cfg: Config, s: State, h: Hash, row: Row)
    requires NamesUsed(s) && FamiliesAgree(cfg, s) && Joins(cfg, s, h, row)
    ensures FamiliesAgree(cfg, s.(rows := s.rows[h := row], used := s.used + {h}))
  {
    hide NamesUsed;
    var u := s.rows[h := row];
    forall j, k | SameFamily(u, j, k) && j != k
      ensures u[j].address == u[k].address
      ensures u[j].absoluteExpiresAt == u[k].absoluteExpiresAt
    {
      OtherFamiliesStay(cfg, s, h, row, j, k);
    }
  }

  lemma JoiningKeepsOneLive(cfg: Config, s: State, h: Hash, row: Row)
    requires NamesUsed(s) && OneLiveToken(s) && Joins(cfg, s, h, row)
    ensures OneLiveToken(s.(rows := s.rows[h := row], used := s.used + {h}))
  {
    hide NamesUsed;
    var u := s.rows[h := row];
    forall j, k | SameFamily(u, j, k) && j != k
      ensures !(Live(u[j]) && Live(u[k]))
    {
      OtherFamiliesStay(cfg, s, h, row, j, k);
    }
  }

  lemma JoiningKeepsRoots(cfg: Config, s: State, h: Hash, row: Row)
    requires NamesUsed(s) && LegacyRootsRotated(s) && Joins(cfg, s, h, row)
    ensures LegacyRootsRotated(s.(rows := s.rows[h := row], used := s.used + {h}))
  {
    hide NamesUsed;
    var u := s.rows[h := row];
    forall j, k | SameFamily(u, j, k) && j != k
      ensures u[j].familyId == None && u[k].familyId.Some? ==> u[j].rotatedAt.Some?
    {
      OtherFamiliesStay(cfg, s, h, row, j, k);
    }
  }

  lemma CreateKeepsInv(cfg: Config, s: State, address: string, hash: Hash, family: string, now: int)
    requires Inv(cfg, s)
    ensures Inv(cfg, ApplyCreate(cfg, s, address, hash, family, now))
  {
    if now <= s.clock && hash !in s.used && family !in s.used && hash != family {
      var named := s.(used := s.used + {family}, born := s.born[family := now], owner := s.owner[family := address]);
      assert forall k | k in s.rows :: FamilyOf(k, s.rows[k]) != family;
      assert Inv(cfg, named);
      JoiningKeepsInv(cfg, named, hash, NewRow(cfg, address, family, now));
      assert s.used + {family} + {hash} == s.used + {hash, family};
    }
  }

  lemma RotateKeepsInv(cfg: Config, s: State, address: string, hash: Hash, newHash: Hash, now: int)
    requires Inv(cfg, s)
    ensures Inv(cfg, ApplyRotate(cfg, s, address, hash, newHash, now))
  {
    if now <= s.clock && newHash !in s.used {
      if RotateTransaction(cfg, s.rows, address, hash, newHash, now).1.Rotated? {
        SuccessKeepsInv(cfg, s, address, hash, newHash, now);
      } else {
        RefusalWeakens(cfg, s.rows, address, hash, newHash, now);
        WeakeningKeepsInv(cfg, s, ApplyRotate(cfg, s, address, hash, newHash, now));
      }
    }
  }

  lemma RefusalWeakens(cfg: Config, t: Table, address: string, hash: Hash, newHash: Hash, now: int)
    requires !RotateTransaction(cfg, t, address, hash, newHash, now).1.Rotated?
    ensures Weakens(t, RotateTransaction(cfg, t, address, hash, newHash, now).0)
  {
  }

  lemma SuccessKeepsInv(cfg: Config, s: State, address: string, hash: Hash, newHash: Hash, now: int)
    requires Inv(cfg, s) && now <= s.clock && newHash !in s.used
    requires RotateTransaction(cfg, s.rows, address, hash, newHash, now).1.Rotated?
    ensures Inv(cfg, ApplyRotate(cfg, s, address, hash, newHash, now))
  {
    var rows := RotateTransaction(cfg, s.rows, address, hash, newHash, now).0;
    var spentRow := s.rows[hash].(rotatedAt := Some(now));
    var spent := s.(rows := s.rows[hash := spentRow]);
    WeakeningKeepsInv(cfg, s, spent);
    SuccessorJoins(cfg, s, hash, newHash, rows[newHash], spent, spentRow);
    JoiningKeepsInv(cfg, spent, newHash, rows[newHash]);
    assert rows == spent.rows[newHash := rows[newHash]];
  }

  lemma SuccessorJoins(cfg: Config, s: State, hash: Hash, newHash: Hash, next: Row, spent: State, spentRow: Row)
    requires Inv(cfg, s) && hash in s.rows && Live(s.rows[hash]) && newHash !in s.used
    requires next.address == s.rows[hash].address && next.familyId == Some(FamilyOf(hash, s.rows[hash]))
    requires next.absoluteExpiresAt == s.rows[hash].absoluteExpiresAt
    requires spentRow == s.rows[hash].(rotatedAt := spentRow.rotatedAt) && spentRow.rotatedAt.Some?
    requires spent == s.(rows := s.rows[hash := spentRow])
    ensures Joins(cfg, spent, newHash, next)
  {
    forall k | k in spent.rows && FamilyOf(k, spent.rows[k]) == next.familyId.value
      ensures !Live(spent.rows[k])
      ensures spent.rows[k].address == next.address
      ensures spent.rows[k].absoluteExpiresAt == next.absoluteExpiresAt
      ensures spent.rows[k].familyId == None ==> spent.rows[k].rotatedAt.Some?
    {
      assert SameFamily(s.rows, k, hash);
    }
  }

  lemma OtherStepsKeepInv(cfg: Config, s: State, step: Step)
    requires Inv(cfg, s) && !step.Create? && !step.Rotate?
    ensures Inv(cfg, Apply(cfg, s, step))
  {
    OtherStepsWeaken(cfg, s, step);
    WeakeningKeepsInv(cfg, s, Apply(cfg, s, step));
  }

  lemma OtherStepsWeaken(cfg: Config, s: State, step: Step)
    requires !step.Create? && !step.Rotate?
    ensures Weakens(s.rows, Apply(cfg, s, step).rows)
  {
  }

  lemma StepKeepsInv(cfg: Config, s: State, step: Step)
    requires Inv(cfg, s)
    ensures Inv(cfg, Apply(cfg, s, step))
  {
    match step
    case Create(address, hash, family, now) => CreateKeepsInv(cfg, s, address, hash, family, now);
    case Rotate(address, hash, newHash, now) => RotateKeepsInv(cfg, s, address, hash, newHash, now);
    case _ => OtherStepsKeepInv(cfg, s, step);
  }
}
