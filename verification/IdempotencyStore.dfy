/**
 The durable idempotency store (src/middleware/idempotency-store.ts).

 Every SQL statement is one atomic step on the `idempotency_keys` table.  The
 statements are given twice: as functions on the table, used by the runs in
 IdempotencyRuns, and as methods of a class that updates the table in place.
 `Claim` is the code of `claim`/`resolveExisting`, with other processes allowed
 to replace the table by anything at all between two of its statements.
 */
module IdempotencyStore {
  import opened Common

  const IDEMPOTENCY_TTL_MS: int := 86_400_000

  /** The primary key (route, key). */
  datatype Key = Key(route: string, key: string)

  datatype Status = InProgress | Completed | Failed

  const EMPTY_BODY: string := "{}"

  datatype Row = Row(
    fingerprint: string,
    status: Status,
    statusCode: Option<int>,
    body: string,
    expiresAt: int)

  type Table = map<Key, Row>

  datatype ClaimResult =
    | Claimed
    | Replay(statusCode: int, body: string)
    | Conflict
    | InProgressResult

  /** One call of `claim`: its arguments, with the clock value it captured. */
  datatype Request = Request(key: Key, fingerprint: string, now: int, expiresAt: int)

  // -------------------------------------------------------------- statements

  function FreshRow(q: Request): Row {
    Row(q.fingerprint, InProgress, None, EMPTY_BODY, q.expiresAt)
  }

  /** INSERT ... ON CONFLICT DO NOTHING: the new table and the row count. */
  function InsertStatement(t: Table, q: Request): (Table, nat) {
    if q.key in t then (t, 0) else (t[q.key := FreshRow(q)], 1)
  }

  predicate Reclaimable(row: Row, now: int) {
    || row.status == Failed
    || (row.status == InProgress && row.expiresAt <= now)
    || (row.status == Completed && row.expiresAt <= now)
  }

  /** The guarded UPDATE that re-claims a retryable row. */
  function ReclaimStatement(t: Table, q: Request): (Table, nat) {
    if q.key in t && Reclaimable(t[q.key], q.now) then (t[q.key := FreshRow(q)], 1) else (t, 0)
  }

  function CompleteStatement(t: Table, k: Key, statusCode: int, body: string): Table {
    if k in t && t[k].status == InProgress
    then t[k := t[k].(status := Completed, statusCode := Some(statusCode), body := body)]
    else t
  }

  function FailStatement(t: Table, k: Key): Table {
    if k in t && t[k].status == InProgress
    then t[k := t[k].(status := Failed, statusCode := None)]
    else t
  }

  /** The write of a captured response: a 5xx fails the record, anything else completes it. */
  function SettleStatement(t: Table, k: Key, statusCode: int, body: string): Table {
    if statusCode >= 500 then FailStatement(t, k) else CompleteStatement(t, k, statusCode, body)
  }

  function CleanupStatement(t: Table, now: int): Table {
    map k | k in t && !(t[k].expiresAt <= now) :: t[k]
  }

  // --------------------------------------------- the claim, statement by statement

  /** Where a claim stands: the statement it sends next, or its result. */
  datatype Pc =
    | Inserting
    | Selecting(attempts: nat)
    | Reinserting
    | Reclaiming(attempts: nat)
    | Done(result: ClaimResult)

  /** What the code does with the row that SELECT returned. */
  function Decide(row: Row, q: Request, attempts: nat): Pc {
    if row.status == Completed then
      if row.expiresAt <= q.now then Reclaiming(attempts)
      else if row.fingerprint == q.fingerprint then
        Done(Replay(if row.statusCode.Some? then row.statusCode.value else 200, row.body))
      else Done(Conflict)
    else if row.status == Failed then Reclaiming(attempts)
    else if row.expiresAt > q.now then Done(InProgressResult)
    else Reclaiming(attempts)
  }

  /** The state `resolveExisting(..., attempts)` starts in. */
  function Resolve(attempts: nat): Pc {
    if attempts > 3 then Done(InProgressResult) else Selecting(attempts)
  }

  /** One atomic statement of a claim. */
  function ClaimStep(pc: Pc, q: Request, t: Table): (Table, Pc) {
    match pc
    case Inserting =>
      var (t', count) := InsertStatement(t, q);
      (t', if count == 1 then Done(Claimed) else Resolve(0))
    case Selecting(attempts) =>
      (t, if q.key in t then Decide(t[q.key], q, attempts)
          else if attempts == 0 then Reinserting
          else Done(InProgressResult))
    case Reinserting =>
      var (t', count) := InsertStatement(t, q);
      (t', Done(if count == 1 then Claimed else InProgressResult))
    case Reclaiming(attempts) =>
      var (t', count) := ReclaimStatement(t, q);
      (t', if count == 1 then Done(Claimed) else Resolve(attempts + 1))
    case Done(_) => (t, pc)
  }

  /** How many more statements a claim can send. */
  function StatementsLeft(pc: Pc): int {
    match pc
    case Inserting => 9
    case Selecting(attempts) => 8 - 2 * attempts
    case Reclaiming(attempts) => 7 - 2 * attempts
    case Reinserting => 1
    case Done(_) => 0
  }

  predicate Bounded(pc: Pc) {
    match pc
    case Selecting(attempts) => attempts <= 3
    case Reclaiming(attempts) => attempts <= 3
    case _ => true
  }

  /** Whatever the other processes do, a claim ends after at most nine statements. */
  lemma ClaimStepProgress(pc: Pc, q: Request, t: Table)
    requires Bounded(pc) && !pc.Done?
    ensures Bounded(ClaimStep(pc, q, t).1)
    ensures 0 <= StatementsLeft(ClaimStep(pc, q, t).1) < StatementsLeft(pc) <= 9
  {
  }

  /** Only the statement that takes the key over ends in `Claimed`. */
  lemma ClaimedMeansTakenOver(pc: Pc, q: Request, t: Table)
    requires !pc.Done?
    ensures ClaimStep(pc, q, t).1 == Done(Claimed) ==>
              && ClaimStep(pc, q, t).0 == t[q.key := FreshRow(q)]
              && (q.key !in t || t[q.key].status == Failed || t[q.key].expiresAt <= q.now)
    ensures ClaimStep(pc, q, t).1 != Done(Claimed) ==> ClaimStep(pc, q, t).0 == t
  {
  }

  // -------------------------------------------------- a claim that keeps losing

  /** A row that a claim at `now` may take over: it failed or its time is over. */
  ghost predicate Retryable(row: Row, now: int) {
    row.status == Failed || row.expiresAt <= now
  }

  /**
   Where a claim stands after its INSERT has met `met` and then `rounds` times its SELECT
   has met `met` and its UPDATE has met `lost`.
   */
  ghost function AfterRounds(q: Request, met: Table, lost: Table, rounds: nat): Pc {
    if rounds == 0 then ClaimStep(Inserting, q, met).1
    else ClaimStep(ClaimStep(AfterRounds(q, met, lost, rounds - 1), q, met).1, q, lost).1
  }

  /**
   A claim that finds the key free to take and then loses it to another process every
   time gives up after the fourth loss.  If the row is gone instead, it inserts again
   when it has not lost yet, and gives up when it has.
   */
  lemma ClaimGivesUp(q: Request, met: Table, lost: Table, gone: Table, rounds: nat)
    requires q.key in met && Retryable(met[q.key], q.now)
    requires q.key in lost && !Retryable(lost[q.key], q.now)
    requires q.key !in gone && rounds <= 4
    ensures AfterRounds(q, met, lost, rounds) == Done(InProgressResult) <==> rounds == 4
    ensures rounds < 4 ==> ClaimStep(ClaimStep(AfterRounds(q, met, lost, rounds), q, met).1, q, met).1 == Done(Claimed)
    ensures rounds == 0 ==> ClaimStep(ClaimStep(AfterRounds(q, met, lost, 0), q, gone).1, q, gone).1 == Done(Claimed)
    ensures 0 < rounds ==> ClaimStep(AfterRounds(q, met, lost, rounds), q, gone).1 == Done(InProgressResult)
  {
    SelectingAfterRounds(q, met, lost, rounds);
  }

  lemma {:induction false} SelectingAfterRounds(q: Request, met: Table, lost: Table, rounds: nat)
    requires q.key in met && Retryable(met[q.key], q.now)
    requires q.key in lost && !Retryable(lost[q.key], q.now) && rounds <= 4
    ensures AfterRounds(q, met, lost, rounds) == if rounds == 4 then Done(InProgressResult) else Selecting(rounds)
  {
    if rounds == 0 {
    } else {
      SelectingAfterRounds(q, met, lost, rounds - 1);
    }
  }

  /** A statement sent by a claim, with the table and the state around it. */
  datatype Sent = Sent(before: Table, pc: Pc, after: Table, next: Pc)

  ghost predicate StatementsOf(q: Request, trace: seq<Sent>) {
    && (forall i | 0 <= i < |trace| ::
          ClaimStep(trace[i].pc, q, trace[i].before) == (trace[i].after, trace[i].next))
    && (forall i | 0 < i < |trace| :: trace[i].pc == trace[i - 1].next)
    && (forall i | 0 <= i < |trace| :: !trace[i].pc.Done?)
  }

  lemma OneStatement(q: Request, sent: Sent)
    requires ClaimStep(sent.pc, q, sent.before) == (sent.after, sent.next) && !sent.pc.Done?
    ensures StatementsOf(q, [sent])
  {
  }

  lemma StatementsJoin(q: Request, a: seq<Sent>, b: seq<Sent>)
    requires StatementsOf(q, a) && StatementsOf(q, b)
    requires a != [] && b != [] ==> b[0].pc == a[|a| - 1].next
    ensures StatementsOf(q, a + b)
  {
  }

  class IdempotencyTable {
    var rows: Table

    constructor ()
      ensures rows == map[]
    {
      rows := map[];
    }

    /** Other processes run: the table becomes anything. */
    method Interfere()
      modifies this
    {
      rows := *;
    }

    method InsertClaim(q: Request) returns (rowCount: nat)
      modifies this
      ensures (rows, rowCount) == InsertStatement(old(rows), q)
    {
      if q.key in rows {
        return 0;
      }
      rows := rows[q.key := Row(q.fingerprint, InProgress, None, EMPTY_BODY, q.expiresAt)];
      return 1;
    }

    method Select(k: Key) returns (row: Option<Row>)
      ensures row == if k in rows then Some(rows[k]) else None
    {
      row := if k in rows then Some(rows[k]) else None;
    }

    method Reclaim(q: Request) returns (rowCount: nat)
      modifies this
      ensures (rows, rowCount) == ReclaimStatement(old(rows), q)
    {
      if q.key in rows && Reclaimable(rows[q.key], q.now) {
        rows := rows[q.key := Row(q.fingerprint, InProgress, None, EMPTY_BODY, q.expiresAt)];
        return 1;
      }
      return 0;
    }

    method Complete(k: Key, statusCode: int, body: string)
      modifies this
      ensures rows == CompleteStatement(old(rows), k, statusCode, body)
    {
      if k in rows && rows[k].status == InProgress {
        var row := rows[k];
        rows := rows[k := Row(row.fingerprint, Completed, Some(statusCode), body, row.expiresAt)];
      }
    }

    method Fail(k: Key)
      modifies this
      ensures rows == FailStatement(old(rows), k)
    {
      if k in rows && rows[k].status == InProgress {
        var row := rows[k];
        rows := rows[k := Row(row.fingerprint, Failed, None, row.body, row.expiresAt)];
      }
    }

    /** Deletes expired rows; returns how many. */
    method CleanupExpired(now: int) returns (deleted: nat)
      modifies this
      ensures rows == CleanupStatement(old(rows), now)
      ensures deleted == |old(rows)| - |rows|
    {
      var kept := CleanupStatement(rows, now);
      assert kept.Keys <= rows.Keys;
      KeysShrink(kept, rows);
      deleted := |rows| - |kept|;
      rows := kept;
    }

    /**
     `claim`: the trace it leaves is a walk of `ClaimStep` from the first INSERT
     to the result, at most nine statements long.
     */
    method Claim(q: Request) returns (result: ClaimResult, ghost trace: seq<Sent>)
      modifies this
      ensures StatementsOf(q, trace) && 0 < |trace| <= 9
      ensures trace[0].pc == Inserting && trace[|trace| - 1].next == Done(result)
      ensures rows == trace[|trace| - 1].after
    {
      Interfere();
      ghost var before := rows;
      var inserted := InsertClaim(q);
      trace := [Sent(before, Inserting, rows, if inserted == 1 then Done(Claimed) else Resolve(0))];
      if inserted == 1 {
        return Claimed, trace;
      }
      ghost var rest;
      result, rest := ResolveExisting(q, 0);
      trace := trace + rest;
    }

    method ResolveExisting(q: Request, attempts: nat) returns (result: ClaimResult, ghost trace: seq<Sent>)
      requires attempts <= 4
      modifies this
      ensures StatementsOf(q, trace)
      ensures trace == [] ==> Resolve(attempts) == Done(result) && rows == old(rows)
      ensures trace != [] ==>
                && trace[0].pc == Resolve(attempts)
                && trace[|trace| - 1].next == Done(result)
                && rows == trace[|trace| - 1].after
      ensures |trace| <= 8 - 2 * attempts
      decreases 4 - attempts
    {
      if attempts > 3 {
        return InProgressResult, [];
      }
      hide StatementsOf;
      Interfere();
      var row := Select(q.key);
      trace := [Sent(rows, Selecting(attempts), rows, ClaimStep(Selecting(attempts), q, rows).1)];
      OneStatement(q, trace[0]);
      if row == None {
        if attempts == 0 {
          Interfere();
          ghost var before := rows;
          var inserted := InsertClaim(q);
          result := if inserted == 1 then Claimed else InProgressResult;
          OneStatement(q, Sent(before, Reinserting, rows, Done(result)));
          StatementsJoin(q, trace, [Sent(before, Reinserting, rows, Done(result))]);
          trace := trace + [Sent(before, Reinserting, rows, Done(result))];
          return;
        }
        return InProgressResult, trace;
      }
      if row.value.status == Completed && row.value.expiresAt > q.now {
        if row.value.fingerprint == q.fingerprint {
          result := Replay(if row.value.statusCode.Some? then row.value.statusCode.value else 200, row.value.body);
        } else {
          result := Conflict;
        }
        return;
      }
      if row.value.status == InProgress && row.value.expiresAt > q.now {
        return InProgressResult, trace;
      }
      Interfere();
      ghost var before := rows;
      var reclaimed := Reclaim(q);
      ghost var sent := Sent(before, Reclaiming(attempts), rows, if reclaimed == 1 then Done(Claimed) else Resolve(attempts + 1));
      OneStatement(q, sent);
      StatementsJoin(q, trace, [sent]);
      trace := trace + [sent];
      if reclaimed == 1 {
        return Claimed, trace;
      }
      ghost var rest;
      result, rest := ResolveExisting(q, attempts + 1);
      StatementsJoin(q, trace, rest);
      trace := trace + rest;
    }
  }

  /**
   The patched `res.json`/`res.send` of one claimed request
   (src/middleware/rate-limit.ts): the first response is captured and written,
   later ones are only sent.
   */
  class ResponseCapture {
    const key: Key
    var captured: bool

    constructor (key: Key)
      ensures this.key == key && !captured
    {
      this.key := key;
      captured := false;
    }

    /** `reachable` says whether the database takes the write. */
    method CaptureResponse(table: IdempotencyTable, statusCode: int, body: string, reachable: bool)
      modifies this`captured, table
      ensures captured
      ensures table.rows ==
              if old(captured) || !reachable then old(table.rows)
              else SettleStatement(old(table.rows), key, statusCode, body)
    {
      if captured {
        return;
      }
      captured := true;
      if reachable {
        if statusCode >= 500 {
          table.Fail(key);
        } else {
          table.Complete(key, statusCode, body);
        }
      }
    }
  }

  lemma KeysShrink(small: Table, big: Table)
    requires small.Keys <= big.Keys
    ensures |small| <= |big|
  {
    assert |small.Keys| <= |big.Keys| by { SubsetIsSmaller(small.Keys, big.Keys); }
  }
}
