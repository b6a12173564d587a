/**
 The session store (src/auth/session.ts): the `sessions` table and the functions
 that change it.

 A token is identified with its SHA-256 hash, and addresses are already trimmed
 and lower-cased.  Every SQL statement, and the transaction of `rotateSession`,
 is one atomic step; the bulk operations are the code's batch loops, run without
 a concurrent writer.
 */
module SessionTable {
  import opened Common

  const SESSION_UPDATE_THRESHOLD_MS: int := 60_000
  const SESSION_SWEEP_BATCH_SIZE: nat := 500
  const SESSION_REVOKE_BATCH_SIZE: nat := 100
  const MAX_ATTEMPTS: nat := 3

  type Hash = string

  /** SESSION_TTL_MS and SESSION_MAX_TTL_MS; nothing relates them in the configuration. */
  datatype Config = Config(ttl: int, maxTtl: int)

  datatype Row = Row(
    address: string,
    familyId: Option<string>,
    expiresAt: int,
    absoluteExpiresAt: int,
    revokedAt: Option<int>,
    lastSeen: Option<int>,
    rotatedAt: Option<int>)

  type Table = map<Hash, Row>

  /** A row that can still authenticate or rotate. */
  predicate Live(row: Row) {
    row.revokedAt == None && row.rotatedAt == None
  }

  /** The family of a token: rows older than the `family_id` column root their own. */
  function FamilyOf(h: Hash, row: Row): string {
    if row.familyId.Some? then row.familyId.value else h
  }

  function NextSlidingExpiry(cfg: Config, now: int, absoluteExpiresAt: int): int {
    Min(now + cfg.ttl, absoluteExpiresAt)
  }

  // ---------------------------------------------------------------- statements

  function NewRow(cfg: Config, address: string, family: string, now: int): Row {
    Row(address, Some(family), now + cfg.ttl, now + cfg.maxTtl, None, None, None)
  }

  predicate AcceptsRow(row: Row, address: string, now: int) {
    && Live(row)
    && !(row.expiresAt < now)
    && !(row.absoluteExpiresAt < now)
    && row.address == address
  }

  /** Whether `requireSession`, reading this table, returns true. */
  predicate Accepts(t: Table, address: string, h: Hash, now: int) {
    h in t && AcceptsRow(t[h], address, now)
  }

  predicate SlideDue(row: Row, now: int) {
    row.lastSeen == None || now - row.lastSeen.value >= SESSION_UPDATE_THRESHOLD_MS
  }

  /** UPDATE ... SET last_seen, expires_at WHERE token_hash = h. */
  function SlideStatement(t: Table, h: Hash, now: int, expiresAt: int): Table {
    if h in t then t[h := t[h].(lastSeen := Some(now), expiresAt := expiresAt)] else t
  }

  function MarkRevoked(t: Table, hashes: set<Hash>, at: int): Table {
    map h | h in t :: if h in hashes then t[h].(revokedAt := Some(at)) else t[h]
  }

  function DeleteStatement(t: Table, hashes: set<Hash>): Table {
    map h | h in t && h !in hashes :: t[h]
  }

  datatype RotateResult = Rotated(hash: Hash, expiresIn: int) | Invalid | Reused(familyId: string)

  /** UPDATE ... SET revoked_at WHERE family_id = familyId. */
  function RevokeFamilyStatement(t: Table, familyId: string, at: int): Table {
    map h | h in t :: if t[h].familyId == Some(familyId) then t[h].(revokedAt := Some(at)) else t[h]
  }

  /** The transaction of `rotateSession`; `newHash` belongs to the fresh token. */
  function RotateTransaction(cfg: Config, t: Table, address: string, h: Hash, newHash: Hash, now: int)
    : (Table, RotateResult)
  {
    if h !in t || t[h].address != address then (t, Invalid)
    else
      var session := t[h];
      var familyId := FamilyOf(h, session);
      if session.rotatedAt.Some? || session.revokedAt.Some? then
        (RevokeFamilyStatement(t, familyId, now), Reused(familyId))
      else if session.expiresAt < now || session.absoluteExpiresAt < now then (t, Invalid)
      else if newHash in t then (t, Invalid)
      else
        var expiresAt := Min(now + cfg.ttl, session.absoluteExpiresAt);
        var next := Row(session.address, Some(familyId), expiresAt, session.absoluteExpiresAt, None, None, None);
        (t[newHash := next][h := session.(rotatedAt := Some(now))], Rotated(newHash, expiresAt - now))
  }

  // ---------------------------------------------------------- bulk operations

  datatype Selector = ByAddress(address: string) | ByFamily(familyId: string)

  predicate Blank(sel: Selector) {
    match sel
    case ByAddress(address) => address == ""
    case ByFamily(familyId) => familyId == ""
  }

  predicate Matches(sel: Selector, row: Row) {
    match sel
    case ByAddress(address) => row.address == address
    case ByFamily(familyId) => row.familyId == Some(familyId)
  }

  function Selected(t: Table, sel: Selector): set<Hash> {
    set h | h in t && Matches(sel, t[h])
  }

  function Unrevoked(t: Table, sel: Selector): set<Hash> {
    set h | h in t && Matches(sel, t[h]) && t[h].revokedAt == None
  }

  predicate Sweepable(row: Row, now: int) {
    row.expiresAt < now || row.absoluteExpiresAt < now || row.revokedAt.Some?
  }

  function SweepableHashes(t: Table, now: int): set<Hash> {
    set h | h in t && Sweepable(t[h], now)
  }

  /** The rows of `hashes` may have become revoked (at whatever moment); nothing else has changed. */
  ghost predicate MayRevoke(was: Table, t: Table, hashes: set<Hash>) {
    && t.Keys == was.Keys
    && (forall h | h in was && h !in hashes :: t[h] == was[h])
    && (forall h | h in was && h in hashes ::
          t[h] == was[h] || (t[h].revokedAt.Some? && t[h] == was[h].(revokedAt := t[h].revokedAt)))
  }

  /** Exactly the rows of `hashes` are now revoked on top of what `was` held. */
  ghost predicate Revokes(was: Table, t: Table, hashes: set<Hash>) {
    MayRevoke(was, t, hashes) && forall h | h in was && h in hashes :: t[h].revokedAt.Some?
  }

  /** What `LIMIT 1` over the selected rows may return: some selected row, or none if there is none. */
  ghost predicate Probes(t: Table, sel: Selector, probe: Option<Hash>) {
    if probe.Some? then probe.value in Selected(t, sel) else Selected(t, sel) == {}
  }

  /** The call stops before its loop: nothing was asked for, or the probed row is revoked already. */
  predicate StopsEarly(t: Table, sel: Selector, probe: Option<Hash>) {
    Blank(sel) || (probe.Some? && probe.value in t && t[probe.value].revokedAt.Some?)
  }

  /** The tables a bulk revocation that does not fail can leave, given what its probe returned. */
  ghost predicate BulkRevokes(t: Table, u: Table, sel: Selector, probe: Option<Hash>) {
    if StopsEarly(t, sel, probe) then u == t else Revokes(t, u, Unrevoked(t, sel))
  }

  /** Whatever row the probe returns, no selected row is left unrevoked. */
  ghost predicate AlwaysTotal(t: Table, sel: Selector) {
    forall u, probe | Probes(t, sel, probe) && BulkRevokes(t, u, sel, probe) :: Unrevoked(u, sel) == {}
  }

  /** How one attempt of a retried write ends. */
  datatype Attempt = Succeeds | Throws(applied: bool, retryable: bool)

  /** How a statement or a transaction ends: an error may come before or after it took effect. */
  datatype Reply = Answered | Failed(applied: bool)

  /** One of the first three attempts succeeds, and all before it fail in a way that is retried. */
  predicate ThreeAttemptsSucceed(ends: nat -> Attempt) {
    exists i: nat :: i < 3 && ends(i).Succeeds? && forall j: nat | j < i :: ends(j).Throws? && ends(j).retryable
  }

  datatype BulkOutcome = BulkDone | AlreadyRevoked | Threw | MissingInput

  class Sessions {
    var rows: Table
    const cfg: Config

    constructor (cfg: Config)
      ensures rows == map[] && this.cfg == cfg
    {
      this.cfg := cfg;
      rows := map[];
    }

    /** Other processes run: the table becomes anything. */
    method Interfere()
      modifies this`rows
    {
      rows := *;
    }

    /** Returns the token lifetime; None stands for the thrown error. */
    method CreateSession(address: string, newHash: Hash, newFamily: string, now: int)
      returns (r: Option<int>, ghost reply: Reply)
      modifies this`rows
      ensures var inserted := address != "" && newHash !in old(rows) && reply != Failed(false);
              && rows == (if inserted then old(rows)[newHash := NewRow(cfg, address, newFamily, now)] else old(rows))
              && r == if inserted && reply.Answered? then Some(cfg.ttl) else None
    {
      var insert: Reply := *;
      if address == "" || newHash in rows || insert == Failed(false) {
        return None, insert;
      }
      rows := rows[newHash := Row(address, Some(newFamily), now + cfg.ttl, now + cfg.maxTtl, None, None, None)];
      return if insert.Answered? then Some(cfg.ttl) else None, insert;
    }

    /**
     A SELECT and, when due, an UPDATE; anything may happen to the table between
     them.  `atRead` and `atWrite` are the tables the two statements met; an error
     of either is answered with false, even if the UPDATE took effect.
     */
    method RequireSession(address: string, h: Hash, now: int)
      returns (ok: bool, ghost atRead: Table, ghost atWrite: Table, ghost readFailed: bool, ghost write: Reply)
      modifies this`rows
      ensures ok <==> && !readFailed && address != "" && h != "" && Accepts(atRead, address, h, now)
                      && (SlideDue(atRead[h], now) ==> write.Answered?)
      ensures rows ==
              if && !readFailed && address != "" && h != "" && Accepts(atRead, address, h, now)
                 && SlideDue(atRead[h], now) && write != Failed(false)
              then SlideStatement(atWrite, h, now, NextSlidingExpiry(cfg, now, atRead[h].absoluteExpiresAt))
              else atWrite
    {
      var selectThrows: bool := *;
      var update: Reply := *;
      atRead, atWrite, readFailed, write := rows, rows, selectThrows, update;
      if h == "" || address == "" || selectThrows {
        return false, atRead, atWrite, readFailed, write;
      }
      if h !in rows {
        return false, atRead, atWrite, readFailed, write;
      }
      var session := rows[h];
      if session.revokedAt != None || session.rotatedAt != None {
        return false, atRead, atWrite, readFailed, write;
      }
      if session.expiresAt < now || session.absoluteExpiresAt < now || session.address != address {
        return false, atRead, atWrite, readFailed, write;
      }
      var slidingExpiry := now + cfg.ttl;
      var nextExpiry := if slidingExpiry <= session.absoluteExpiresAt then slidingExpiry else session.absoluteExpiresAt;
      Interfere();
      atWrite := rows;
      if session.lastSeen == None || now - session.lastSeen.value >= SESSION_UPDATE_THRESHOLD_MS {
        if h in rows && update != Failed(false) {
          rows := rows[h := rows[h].(lastSeen := Some(now), expiresAt := nextExpiry)];
        }
        return update.Answered?, atRead, atWrite, readFailed, write;
      }
      return true, atRead, atWrite, readFailed, write;
    }

    /** The statements of the rotation, if its transaction commits. */
    method RotateInTransaction(address: string, h: Hash, newHash: Hash, now: int) returns (r: RotateResult)
      modifies this`rows
      ensures (rows, r) == RotateTransaction(cfg, old(rows), address, h, newHash, now)
    {
      if h !in rows || rows[h].address != address {
        return Invalid;
      }
      var session := rows[h];
      var familyId := if session.familyId.Some? then session.familyId.value else h;
      if session.rotatedAt != None || session.revokedAt != None {
        rows := map k | k in rows :: if rows[k].familyId == Some(familyId) then rows[k].(revokedAt := Some(now)) else rows[k];
        return Reused(familyId);
      }
      if session.expiresAt < now || session.absoluteExpiresAt < now || newHash in rows {
        return Invalid;
      }
      var expiresAt := now + cfg.ttl;
      if expiresAt > session.absoluteExpiresAt {
        expiresAt := session.absoluteExpiresAt;
      }
      rows := rows[newHash := Row(session.address, Some(familyId), expiresAt, session.absoluteExpiresAt, None, None, None)];
      rows := rows[h := session.(rotatedAt := Some(now))];
      return Rotated(newHash, expiresAt - now);
    }

    /** A failed transaction is answered with `invalid`, whether it was rolled back or only its reply was lost. */
    method RotateSession(address: string, h: Hash, newHash: Hash, now: int) returns (r: RotateResult, ghost reply: Reply)
      modifies this`rows
      ensures address == "" || h == "" ==> r == Invalid && rows == old(rows)
      ensures address != "" && h != "" ==>
                var (t, result) := RotateTransaction(cfg, old(rows), address, h, newHash, now);
                && rows == (if reply == Failed(false) then old(rows) else t)
                && r == if reply.Answered? then result else Invalid
    {
      var commit: Reply := *;
      reply := commit;
      if address == "" || h == "" {
        return Invalid, reply;
      }
      var before := rows;
      r := RotateInTransaction(address, h, newHash, now);
      if commit.Failed? {
        r := Invalid;
        if !commit.applied {
          rows := before;
        }
      }
    }

    /** SELECT ... LIMIT: some of the matching rows, as many as the limit allows. */
    method SelectPage(matching: set<Hash>, limit: nat) returns (page: set<Hash>)
      ensures page <= matching
      ensures if |matching| <= limit then page == matching else |page| == limit
    {
      page := {};
      var rest := matching;
      while |page| < limit && rest != {}
        invariant page !! rest && page + rest == matching && |page| <= limit
        decreases rest
      {
        var h :| h in rest;
        page, rest := page + {h}, rest - {h};
      }
      assert |page + rest| == |page| + |rest|;
    }

    /** UPDATE ... SET revoked_at WHERE token_hash IN hashes, under `withBoundedRetry`; attempt `i` ends as `ends(i)`. */
    method RevokeWithRetry(hashes: set<Hash>, ends: nat -> Attempt) returns (ok: bool)
      modifies this`rows
      ensures MayRevoke(old(rows), rows, hashes)
      ensures ok <==> ThreeAttemptsSucceed(ends)
      ensures ok ==> Revokes(old(rows), rows, hashes)
      ensures !ok && (forall i: nat | i < 3 :: ends(i).Throws? && !ends(i).applied) ==> rows == old(rows)
    {
      var attempt := 1;
      while true
        invariant 1 <= attempt <= MAX_ATTEMPTS
        invariant MayRevoke(old(rows), rows, hashes)
        invariant forall i: nat | i < attempt - 1 :: ends(i).Throws? && ends(i).retryable
        invariant (forall i: nat | i < attempt - 1 :: ends(i).Throws? && !ends(i).applied) ==> rows == old(rows)
        decreases MAX_ATTEMPTS - attempt
      {
        var at: int := *;
        match ends(attempt - 1) {
          case Succeeds =>
            rows := MarkRevoked(rows, hashes, at);
            return true;
          case Throws(applied, retryable) =>
            if applied {
              rows := MarkRevoked(rows, hashes, at);
            }
            if attempt == MAX_ATTEMPTS || !retryable {
              return false;
            }
        }
        attempt := attempt + 1;
      }
    }

    /** The loop shared by `revokeFamily` and `revokeAllSessionsForAddress`. */
    method RevokeInBatches(sel: Selector) returns (done: bool)
      modifies this`rows
      ensures MayRevoke(old(rows), rows, Unrevoked(old(rows), sel))
      ensures done ==> Revokes(old(rows), rows, Unrevoked(old(rows), sel))
    {
      hide MayRevoke, Unrevoked;
      NothingRevokedYet(rows, sel);
      while true
        invariant MayRevoke(old(rows), rows, Unrevoked(old(rows), sel))
        decreases |Unrevoked(rows, sel)|
      {
        var selectThrows: bool := *;
        if selectThrows {
          return false;
        }
        ghost var before := rows;
        var hashes := SelectPage(Unrevoked(rows, sel), SESSION_REVOKE_BATCH_SIZE);
        if |hashes| == 0 {
          NothingUnrevoked(old(rows), rows, sel);
          return true;
        }
        var ends: nat -> Attempt := *;
        var ok := RevokeWithRetry(hashes, ends);
        BatchesCompose(old(rows), before, rows, sel, hashes);
        if !ok {
          return false;
        }
        BatchRevoked(before, rows, sel, hashes);
        if |hashes| < SESSION_REVOKE_BATCH_SIZE {
          NothingUnrevoked(old(rows), rows, sel);
          return true;
        }
      }
    }

    /** `revokeFamily` and `revokeAllSessionsForAddress`: a one-row probe, then the loop. */
    method RevokeSelected(sel: Selector) returns (outcome: BulkOutcome, ghost probe: Option<Hash>)
      modifies this`rows
      ensures Probes(old(rows), sel, probe)
      ensures outcome == MissingInput <==> Blank(sel)
      ensures outcome == MissingInput || outcome == AlreadyRevoked <==> StopsEarly(old(rows), sel, probe)
      ensures outcome != Threw ==> BulkRevokes(old(rows), rows, sel, probe)
      ensures MayRevoke(old(rows), rows, Unrevoked(old(rows), sel))
    {
      if Blank(sel) {
        probe := if h :| h in Selected(rows, sel) then Some(h) else None;
        return MissingInput, probe;
      }
      probe := None;
      var existing := SelectPage(Selected(rows, sel), 1);
      if h :| h in existing {
        probe := Some(h);
        if rows[h].revokedAt.Some? {
          return AlreadyRevoked, probe;
        }
      }
      var done := RevokeInBatches(sel);
      outcome := if done then BulkDone else Threw;
    }

    /** `revokeSession` and `revokeSessionByHash`: false stands for the rethrown error. */
    method RevokeSession(h: Hash) returns (ok: bool)
      modifies this`rows
      ensures MayRevoke(old(rows), rows, {h})
      ensures ok && h != "" ==> Revokes(old(rows), rows, {h})
      ensures h == "" || (h in old(rows) && old(rows)[h].revokedAt.Some?) ==> rows == old(rows)
    {
      if h == "" {
        return true;
      }
      if h in rows && rows[h].revokedAt.Some? {
        return true;
      }
      var ends: nat -> Attempt := *;
      ok := RevokeWithRetry({h}, ends);
    }

    /**
     `sweepExpiredSessions`.  `lostReply` tells that an attempt of some batch deleted
     its rows and then threw; then, and only then, the count falls short.
     */
    method SweepExpiredSessions(now: int) returns (totalDeleted: nat, completed: bool, ghost lostReply: bool)
      modifies this`rows
      ensures completed ==> rows == DeleteStatement(old(rows), SweepableHashes(old(rows), now))
      ensures OnlySweeps(old(rows), rows, now)
      ensures totalDeleted <= |old(rows)| - |rows|
      ensures totalDeleted == |old(rows)| - |rows| <==> !lostReply
    {
      hide OnlySweeps, DeleteStatement, SweepableHashes;
      NothingSweptYet(rows, now);
      totalDeleted, completed, lostReply := 0, true, false;
      while true
        invariant completed
        invariant OnlySweeps(old(rows), rows, now)
        invariant totalDeleted <= |old(rows)| - |rows|
        invariant totalDeleted == |old(rows)| - |rows| <==> !lostReply
        decreases |SweepableHashes(rows, now)|
      {
        var selectThrows: bool := *;
        if selectThrows {
          return totalDeleted, false, lostReply;
        }
        var hashes := SelectPage(SweepableHashes(rows, now), SESSION_SWEEP_BATCH_SIZE);
        if |hashes| == 0 {
          NothingSweepable(old(rows), rows, now);
          return;
        }
        BatchSwept(old(rows), rows, now, hashes);
        var ends: nat -> Attempt := *;
        var ok, deleted, lost := DeleteWithRetry(hashes, ends);
        lostReply := lostReply || lost;
        if !ok {
          return totalDeleted, false, lostReply;
        }
        totalDeleted := totalDeleted + deleted;
        if |hashes| < SESSION_SWEEP_BATCH_SIZE {
          NothingSweepable(old(rows), rows, now);
          return;
        }
      }
    }

    /**
     DELETE ... RETURNING under `withBoundedRetry`; attempt `i` ends as `ends(i)`, and `lost`
     tells that an attempt took effect and then threw.
     */
    method DeleteWithRetry(hashes: set<Hash>, ends: nat -> Attempt) returns (ok: bool, deleted: nat, ghost lost: bool)
      modifies this`rows
      ensures ok <==> ThreeAttemptsSucceed(ends)
      ensures lost ==> exists i: nat :: i < 3 && ends(i).Throws? && ends(i).applied
      ensures rows == if ok || lost then DeleteStatement(old(rows), hashes) else old(rows)
      ensures deleted == if lost || !ok then 0 else |old(rows)| - |rows|
    {
      hide DeleteStatement;
      var attempt := 1;
      lost := false;
      while true
        invariant 1 <= attempt <= MAX_ATTEMPTS
        invariant forall i: nat | i < attempt - 1 :: ends(i).Throws? && ends(i).retryable
        invariant lost ==> exists i: nat :: i < attempt - 1 && ends(i).Throws? && ends(i).applied
        invariant rows == if lost then DeleteStatement(old(rows), hashes) else old(rows)
        decreases MAX_ATTEMPTS - attempt
      {
        var left := DeleteStatement(rows, hashes);
        DeletedTwice(old(rows), hashes);
        match ends(attempt - 1) {
          case Succeeds =>
            deleted := |rows| - |left|;
            rows := left;
            return true, deleted, lost;
          case Throws(applied, retryable) =>
            if applied {
              rows, lost := left, true;
            }
            if attempt == MAX_ATTEMPTS || !retryable {
              return false, 0, lost;
            }
        }
        attempt := attempt + 1;
      }
    }
  }

  // --------------------------------------------------------- facts about batches

  /** Rows are only deleted, and only sweepable ones. */
  ghost predicate OnlySweeps(was: Table, t: Table, now: int) {
    && t.Keys <= was.Keys
    && (forall h | h in t :: t[h] == was[h])
    && (forall h | h in was && h !in t :: Sweepable(was[h], now))
  }

  lemma NothingRevokedYet(t: Table, sel: Selector)
    ensures MayRevoke(t, t, Unrevoked(t, sel))
  {
  }

  /** A batch of what is left to revoke is part of what was to be revoked. */
  lemma BatchesCompose(was: Table, before: Table, after: Table, sel: Selector, hashes: set<Hash>)
    requires MayRevoke(was, before, Unrevoked(was, sel)) && MayRevoke(before, after, hashes)
    requires hashes <= Unrevoked(before, sel)
    ensures MayRevoke(was, after, Unrevoked(was, sel))
  {
  }

  /** A revoked page makes the unrevoked rows fewer; a short page was all of them. */
  lemma BatchRevoked(before: Table, after: Table, sel: Selector, hashes: set<Hash>)
    requires hashes <= Unrevoked(before, sel) && Revokes(before, after, hashes)
    ensures Unrevoked(after, sel) == Unrevoked(before, sel) - hashes
    ensures |Unrevoked(after, sel)| == |Unrevoked(before, sel)| - |hashes|
  {
    assert |Unrevoked(before, sel) - hashes| == |Unrevoked(before, sel)| - |hashes|;
  }

  lemma NothingSweptYet(t: Table, now: int)
    ensures OnlySweeps(t, t, now)
  {
  }

  lemma DeletedTwice(t: Table, hashes: set<Hash>)
    ensures var left := DeleteStatement(t, hashes);
            DeleteStatement(left, hashes) == left && |left| <= |t|
  {
    SubsetIsSmaller(DeleteStatement(t, hashes).Keys, t.Keys);
  }

  lemma FewerRows(t: Table, hashes: set<Hash>)
    requires hashes <= t.Keys
    ensures |DeleteStatement(t, hashes)| == |t| - |hashes|
  {
    assert DeleteStatement(t, hashes).Keys == t.Keys - hashes;
  }

  /** Deleting a page of sweepable rows sweeps those rows and no others. */
  lemma BatchSwept(was: Table, before: Table, now: int, hashes: set<Hash>)
    requires OnlySweeps(was, before, now) && hashes <= SweepableHashes(before, now)
    ensures var after := DeleteStatement(before, hashes);
            && OnlySweeps(was, after, now)
            && |after| == |before| - |hashes|
            && SweepableHashes(after, now) == SweepableHashes(before, now) - hashes
            && |SweepableHashes(after, now)| == |SweepableHashes(before, now)| - |hashes|
  {
    FewerRows(before, hashes);
    assert |SweepableHashes(before, now) - hashes| == |SweepableHashes(before, now)| - |hashes|;
  }

  lemma NothingUnrevoked(was: Table, t: Table, sel: Selector)
    requires MayRevoke(was, t, Unrevoked(was, sel)) && Unrevoked(t, sel) == {}
    ensures Revokes(was, t, Unrevoked(was, sel))
  {
    forall h | h in Unrevoked(was, sel) ensures t[h].revokedAt.Some? {
      assert h !in Unrevoked(t, sel);
    }
  }

  lemma NothingSweepable(was: Table, t: Table, now: int)
    requires OnlySweeps(was, t, now) && SweepableHashes(t, now) == {}
    ensures t == DeleteStatement(was, SweepableHashes(was, now))
  {
    forall h | h in t ensures !Sweepable(was[h], now) {
      assert h !in SweepableHashes(t, now);
    }
  }

  /** The rows that a bulk revocation is asked for: those of an address, or those of a family. */
  ghost predicate Meant(sel: Selector, row: Row) {
    if sel.ByAddress? then row.address == sel.address else row.familyId == Some(sel.familyId)
  }

  /** Nothing but the time of revocation differs. */
  ghost predicate SameButRevoked(was: Row, row: Row) {
    row == was.(revokedAt := row.revokedAt) && (was.revokedAt.Some? ==> row.revokedAt == was.revokedAt)
  }

  /**
   What a bulk revocation does: it asks for nothing without an address or family; it
   probes a row that was meant, if there is one, and stops if that is revoked; otherwise
   exactly the rows that were meant are revoked, and every row stays.
   */
  lemma BulkRevocationMeans(t: Table, u: Table, sel: Selector, probe: Option<Hash>)
    requires Probes(t, sel, probe) && BulkRevokes(t, u, sel, probe)
    ensures probe.Some? ==> probe.value in t && Meant(sel, t[probe.value])
    ensures probe == None ==> forall h | h in t :: !Meant(sel, t[h])
    ensures sel == ByAddress("") || sel == ByFamily("") ==> u == t
    ensures probe.Some? && t[probe.value].revokedAt.Some? ==> u == t
    ensures u.Keys == t.Keys && forall h | h in t :: SameButRevoked(t[h], u[h])
    ensures sel != ByAddress("") && sel != ByFamily("") && !(probe.Some? && t[probe.value].revokedAt.Some?) ==>
              forall h | h in t :: u[h].revokedAt.Some? <==> t[h].revokedAt.Some? || Meant(sel, t[h])
  {
    forall h | h in t
      ensures h in Selected(t, sel) <==> Meant(sel, t[h])
    {
    }
  }

  /**
   A bulk revocation is total, whatever its probe returns, exactly when there is
   nothing left to revoke, or something was asked for and no selected row is revoked.
   */
  lemma BulkRevocationIsTotalIff(t: Table, sel: Selector)
    ensures AlwaysTotal(t, sel) <==>
              || Unrevoked(t, sel) == {}
              || (!Blank(sel) && forall h | h in Selected(t, sel) :: t[h].revokedAt == None)
  {
    if Unrevoked(t, sel) == {} {
      forall u, probe | Probes(t, sel, probe) && BulkRevokes(t, u, sel, probe)
        ensures Unrevoked(u, sel) == {}
      {
        assert u == t;
      }
    } else {
      if h :| h in Selected(t, sel) && t[h].revokedAt.Some? {
        assert Probes(t, sel, Some(h)) && BulkRevokes(t, t, sel, Some(h));
      } else if Blank(sel) {
        var h :| h in Unrevoked(t, sel);
        assert Probes(t, sel, Some(h)) && BulkRevokes(t, t, sel, Some(h));
      }
    }
  }
}
