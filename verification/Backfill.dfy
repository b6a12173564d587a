/**
 The resumable backfill of synthetic events (src/routes/backfill-events.ts): rows
 without an event are scanned newest first, inserted in batches, and every batch
 commits together with the checkpoint the next call resumes from.  The checkpoint
 keeps whole milliseconds, the rows are stamped in microseconds.
 */
module Backfill {
  import opened Common

  const BACKFILL_CHECKPOINT_BATCH_SIZE: nat := 100
  const BACKFILL_EVENT_INDEX: int := 0

  // ---------------------------------------------------------------------------
  // Rows, events and ids
  // ---------------------------------------------------------------------------

  /** A row of `employees` or `milestones`; `createdAt` is in microseconds. */
  datatype SourceRow = SourceRow(id: string, agreementId: string, contractAddress: string, blockNumber: int,
                                 transactionHash: string, createdAt: int)

  datatype Event = Event(id: string, agreementId: string, contractAddress: string, eventType: string, blockNumber: int,
                         transactionHash: string, eventIndex: int)

  datatype Job = Employees | Milestones

  function TypeName(job: Job): string {
    match job
    case Employees => "EmployeeAdded"
    case Milestones => "MilestoneAdded"
  }

  function BackfillEventId(transactionHash: string, eventType: string, rowId: string): string {
    transactionHash + "_backfill_" + eventType + "_" + rowId
  }

  function Built(job: Job, row: SourceRow): Event {
    Event(BackfillEventId(row.transactionHash, TypeName(job), row.id), row.agreementId, row.contractAddress,
          TypeName(job), row.blockNumber, row.transactionHash, BACKFILL_EVENT_INDEX)
  }

  /** `id` and `(transaction_hash, event_index)` are unique keys. */
  predicate Clash(a: Event, b: Event) {
    a.id == b.id || (a.transactionHash == b.transactionHash && a.eventIndex == b.eventIndex)
  }

  predicate Blocked(events: seq<Event>, e: Event) {
    exists x | x in events :: Clash(x, e)
  }

  /** `INSERT ... ON CONFLICT DO NOTHING`, row by row. */
  function InsertRows(events: seq<Event>, job: Job, rows: seq<SourceRow>): (r: seq<Event>)
    ensures |events| <= |r|
    decreases |rows|
  {
    if rows == [] then events else
      var sofar := InsertRows(events, job, rows[..|rows| - 1]);
      var e := Built(job, rows[|rows| - 1]);
      if Blocked(sofar, e) then sofar else sofar + [e]
  }

  predicate HasEvent(events: seq<Event>, transactionHash: string, eventType: string) {
    exists x | x in events :: x.transactionHash == transactionHash && x.eventType == eventType
  }

  /** The `WHERE` of the candidate query. */
  predicate IsCandidate(events: seq<Event>, job: Job, agreementId: Option<string>, before: Option<int>, row: SourceRow) {
    && !HasEvent(events, row.transactionHash, TypeName(job))
    && (agreementId.Some? ==> row.agreementId == agreementId.value)
    && (before.Some? ==> row.createdAt < before.value)
  }

  /** `rows` are in the order of the query, newest first. */
  function Candidates(rows: seq<SourceRow>, events: seq<Event>, job: Job, agreementId: Option<string>, before: Option<int>)
    : seq<SourceRow>
  {
    if rows == [] then [] else
      (if IsCandidate(events, job, agreementId, before, rows[0]) then [rows[0]] else [])
      + Candidates(rows[1..], events, job, agreementId, before)
  }

  // ---------------------------------------------------------------------------
  // The checkpoint row
  // ---------------------------------------------------------------------------

  datatype Status = Idle | Running | Completed

  datatype Progress = Progress(status: Status, lastCursor: Option<int>, totalScanned: int, totalCreated: int)

  /** The fields of one upsert; a missing field is left alone. */
  datatype Fields = Fields(status: Status, lastCursor: Option<int>, totalScanned: Option<int>, totalCreated: Option<int>)

  function OrElse<T>(o: Option<T>, otherwise: T): T {
    if o.Some? then o.value else otherwise
  }

  function Upsert(existing: Option<Progress>, fields: Fields): Progress {
    match existing
    case None => Progress(fields.status, fields.lastCursor, OrElse(fields.totalScanned, 0), OrElse(fields.totalCreated, 0))
    case Some(p) => Progress(fields.status, if fields.lastCursor.Some? then fields.lastCursor else p.lastCursor,
                             OrElse(fields.totalScanned, p.totalScanned), OrElse(fields.totalCreated, p.totalCreated))
  }

  // ---------------------------------------------------------------------------
  // One call
  // ---------------------------------------------------------------------------

  /** An explicit cursor takes precedence over the checkpoint. */
  datatype Params = Params(limit: nat, agreementId: Option<string>, cursor: Option<int>)

  datatype Response = Response(totalScanned: nat, created: nat, nextCursor: Option<int>, hasMore: bool)

  /** What is durable. */
  datatype Store = Store(events: seq<Event>, progress: Option<Progress>)

  function ResumeFrom(store: Store, params: Params): Option<int> {
    if params.cursor.Some? then params.cursor
    else if store.progress.Some? then store.progress.value.lastCursor
    else None
  }

  function Scan(store: Store, rows: seq<SourceRow>, job: Job, params: Params): (r: seq<SourceRow>)
    ensures |r| <= params.limit
  {
    var all := Candidates(rows, store.events, job, params.agreementId, ResumeFrom(store, params));
    all[..Min(params.limit, |all|)]
  }

  function BaseScanned(store: Store, params: Params): int {
    if params.cursor.None? && store.progress.Some? then store.progress.value.totalScanned else 0
  }

  function BaseCreated(store: Store, params: Params): int {
    if params.cursor.None? && store.progress.Some? then store.progress.value.totalCreated else 0
  }

  /** The rows whose batches are among the first `commits` transactions of a call. */
  function CommittedRows(commits: nat, scanned: nat): nat {
    if commits == 0 then 0 else Min(BACKFILL_CHECKPOINT_BATCH_SIZE * (commits - 1), scanned)
  }

  /** The transactions of a call: marking it running, its batches, its final status. */
  predicate RunsToEnd(commits: nat, scanned: nat) {
    2 <= commits && scanned <= BACKFILL_CHECKPOINT_BATCH_SIZE * (commits - 2)
  }

  /** The store once the call was marked running and `m` of the scanned rows are committed. */
  function Midway(store: Store, job: Job, params: Params, scanned: seq<SourceRow>, m: nat): (r: Store)
    requires m <= |scanned|
    ensures r.progress.Some?
  {
    var events := InsertRows(store.events, job, scanned[..m]);
    var marked := Upsert(store.progress, Fields(Running, None, None, None));
    if m == 0 then Store(store.events, Some(marked))
    else Store(events, Some(Progress(Running, Some(MillisecondOf(scanned[m - 1].createdAt)), BaseScanned(store, params) + m,
                                     BaseCreated(store, params) + |events| - |store.events|)))
  }

  /** What a call that scanned `scanned` leaves behind if it dies after `commits` transactions. */
  function AfterScan(store: Store, job: Job, params: Params, scanned: seq<SourceRow>, commits: nat): Store {
    if commits == 0 then store else
      var s := Midway(store, job, params, scanned, CommittedRows(commits, |scanned|));
      if RunsToEnd(commits, |scanned|)
      then s.(progress := Some(s.progress.value.(status := if |scanned| == params.limit then Idle else Completed)))
      else s
  }

  function After(store: Store, rows: seq<SourceRow>, job: Job, params: Params, commits: nat): Store {
    AfterScan(store, job, params, Scan(store, rows, job, params), commits)
  }

  // ---------------------------------------------------------------------------
  // What is scanned and what is inserted
  // ---------------------------------------------------------------------------

  /** The synthetic event of a row, field by field. */
  ghost predicate IsEventOf(x: Event, job: Job, row: SourceRow) {
    && x.eventType == (if job == Employees then "EmployeeAdded" else "MilestoneAdded")
    && x.id == row.transactionHash + "_backfill_" + x.eventType + "_" + row.id
    && x.eventIndex == 0
    && x.agreementId == row.agreementId && x.contractAddress == row.contractAddress
    && x.blockNumber == row.blockNumber && x.transactionHash == row.transactionHash
  }

  lemma {:induction false} InsertsEventsOf(events: seq<Event>, job: Job, rows: seq<SourceRow>)
    ensures events <= InsertRows(events, job, rows)
    ensures forall i | |events| <= i < |InsertRows(events, job, rows)| ::
      exists j :: 0 <= j < |rows| && IsEventOf(InsertRows(events, job, rows)[i], job, rows[j])
    decreases |rows|
  {
    if rows == [] {
    } else {
      var n := |rows| - 1;
      var sofar, now := InsertRows(events, job, rows[..n]), InsertRows(events, job, rows);
      InsertsEventsOf(events, job, rows[..n]);
      forall i | |events| <= i < |now|
        ensures exists j :: 0 <= j < |rows| && IsEventOf(now[i], job, rows[j])
      {
        if i < |sofar| {
          var j :| 0 <= j < |rows[..n]| && IsEventOf(sofar[i], job, rows[..n][j]);
          assert IsEventOf(now[i], job, rows[j]);
        } else {
          assert now[i] == Built(job, rows[n]);
          assert IsEventOf(now[i], job, rows[n]);
        }
      }
    }
  }

  /** The rows to backfill: no event of the job's own type in their transaction, of the agreement, and older than the cursor. */
  ghost predicate ToBackfill(events: seq<Event>, job: Job, agreementId: Option<string>, before: Option<int>, row: SourceRow) {
    && (agreementId == None || agreementId == Some(row.agreementId))
    && (before == None || row.createdAt < before.value)
    && forall x | x in events && x.transactionHash == row.transactionHash ::
         x.eventType != if job == Employees then "EmployeeAdded" else "MilestoneAdded"
  }

  ghost function Wanted(events: seq<Event>, job: Job, agreementId: Option<string>, before: Option<int>): SourceRow -> bool {
    row => ToBackfill(events, job, agreementId, before, row)
  }

  /** The rows of `c` are those of `rows` that `p` selects, in the same order. */
  ghost predicate Selects(c: seq<SourceRow>, rows: seq<SourceRow>, p: SourceRow -> bool)
    decreases |rows|
  {
    if rows == [] then c == []
    else if p(rows[0]) then c != [] && c[0] == rows[0] && Selects(c[1..], rows[1..], p)
    else Selects(c, rows[1..], p)
  }

  lemma CandidateIsToBackfill(events: seq<Event>, job: Job, agreementId: Option<string>, before: Option<int>, row: SourceRow)
    ensures IsCandidate(events, job, agreementId, before, row) <==> ToBackfill(events, job, agreementId, before, row)
  {
  }

  lemma {:induction false} CandidatesAreToBackfill(rows: seq<SourceRow>, events: seq<Event>, job: Job,
                                                   agreementId: Option<string>, before: Option<int>)
    ensures Selects(Candidates(rows, events, job, agreementId, before), rows, Wanted(events, job, agreementId, before))
    decreases |rows|
  {
    if rows == [] {
    } else {
      CandidatesAreToBackfill(rows[1..], events, job, agreementId, before);
      CandidateIsToBackfill(events, job, agreementId, before, rows[0]);
      var rest := Candidates(rows[1..], events, job, agreementId, before);
      assert ([rows[0]] + rest)[1..] == rest && [] + rest == rest;
    }
  }

  /** The rows a call scans: the first of those to backfill, as many as the limit allows. */
  ghost predicate IsScan(scanned: seq<SourceRow>, store: Store, rows: seq<SourceRow>, job: Job, params: Params) {
    var before := if params.cursor.Some? then params.cursor
                  else if store.progress.Some? then store.progress.value.lastCursor else None;
    exists all :: && Selects(all, rows, Wanted(store.events, job, params.agreementId, before))
                  && scanned == all[..Min(params.limit, |all|)]
  }

  lemma ScanIsScan(store: Store, rows: seq<SourceRow>, job: Job, params: Params)
    ensures IsScan(Scan(store, rows, job, params), store, rows, job, params)
  {
    CandidatesAreToBackfill(rows, store.events, job, params.agreementId, ResumeFrom(store, params));
  }

  /** The events added since are events of the scanned rows. */
  ghost predicate AddsEventsOf(was: seq<Event>, now: seq<Event>, job: Job, scanned: seq<SourceRow>) {
    && was <= now
    && forall i | |was| <= i < |now| :: exists j :: 0 <= j < |scanned| && IsEventOf(now[i], job, scanned[j])
  }

  lemma CallAddsEventsOf(store: Store, job: Job, params: Params, scanned: seq<SourceRow>, commits: nat)
    ensures AddsEventsOf(store.events, AfterScan(store, job, params, scanned, commits).events, job, scanned)
  {
    var done := scanned[..CommittedRows(commits, |scanned|)];
    InsertsEventsOf(store.events, job, done);
    assert InsertRows(store.events, job, []) == store.events;
    var now := InsertRows(store.events, job, done);
    forall i | |store.events| <= i < |now|
      ensures exists j :: 0 <= j < |scanned| && IsEventOf(now[i], job, scanned[j])
    {
      var j :| 0 <= j < |done| && IsEventOf(now[i], job, done[j]);
      assert IsEventOf(now[i], job, scanned[j]);
    }
  }

  /** The row of the checkpoint after a call, or after its death: what it counts, where it stops, and how it stands. */
  lemma CheckpointSays(store: Store, job: Job, params: Params, scanned: seq<SourceRow>, commits: nat)
    requires 0 < commits
    ensures var after, done := AfterScan(store, job, params, scanned, commits), Min(100 * (commits - 1), |scanned|);
            && after.progress.Some?
            && after.progress.value.status ==
                 (if commits < 2 || 100 * (commits - 2) < |scanned| then Running
                  else if |scanned| == params.limit then Idle else Completed)
            && (0 < done ==>
                  var p := after.progress.value;
                  && p.lastCursor == Some(MillisecondOf(scanned[done - 1].createdAt))
                  && p.totalScanned == BaseScanned(store, params) + done
                  && p.totalCreated == BaseCreated(store, params) + |after.events| - |store.events|)
            && (done == 0 && store.progress.Some? ==>
                  && after.events == store.events
                  && after.progress.value == store.progress.value.(status := after.progress.value.status))
  {
  }

  lemma {:induction false} InsertInTwoGoes(events: seq<Event>, job: Job, a: seq<SourceRow>, b: seq<SourceRow>)
    ensures InsertRows(InsertRows(events, job, a), job, b) == InsertRows(events, job, a + b)
  {
    if b == [] {
      assert a + b == a;
    } else {
      var c := a + b;
      assert c[..|c| - 1] == a + b[..|b| - 1];
      InsertInTwoGoes(events, job, a, b[..|b| - 1]);
    }
  }

  /** One batch and its checkpoint, in one transaction. */
  function BatchCommitted(s: Store, job: Job, batch: seq<SourceRow>, totalScanned: int, totalCreated: int): Store
    requires batch != []
  {
    var events := InsertRows(s.events, job, batch);
    Store(events, Some(Upsert(s.progress,
      Fields(Running, Some(MillisecondOf(batch[|batch| - 1].createdAt)), Some(totalScanned + |batch|),
             Some(totalCreated + |events| - |s.events|)))))
  }

  /** Committing the next batch takes the store from one midway point to the next. */
  lemma BatchAdvances(was: Store, job: Job, params: Params, scanned: seq<SourceRow>, i: nat, next: nat)
    requires i < next <= |scanned|
    ensures var s := Midway(was, job, params, scanned, i);
            BatchCommitted(s, job, scanned[i..next], BaseScanned(was, params) + i,
                           BaseCreated(was, params) + |s.events| - |was.events|)
            == Midway(was, job, params, scanned, next)
  {
    assert scanned[..i] + scanned[i..next] == scanned[..next];
    InsertInTwoGoes(was.events, job, scanned[..i], scanned[i..next]);
    assert InsertRows(was.events, job, []) == was.events;
    assert scanned[..0] == [];
  }

  lemma OneMoreBatch(done: nat, scanned: nat)
    requires 1 <= done && CommittedRows(done, scanned) < scanned
    ensures CommittedRows(done + 1, scanned) == Min(CommittedRows(done, scanned) + BACKFILL_CHECKPOINT_BATCH_SIZE, scanned)
    ensures !RunsToEnd(done + 1, scanned)
  {
  }

  lemma LastBatch(done: nat, commits: nat, scanned: nat)
    requires 1 <= done <= commits && scanned <= CommittedRows(done, scanned) && !RunsToEnd(done, scanned)
    ensures CommittedRows(commits, scanned) == CommittedRows(done, scanned)
    ensures RunsToEnd(commits, scanned) <==> done < commits
  {
  }

  /** The events table and the checkpoint row of one job. */
  class BackfillJob {
    const job: Job
    const rows: seq<SourceRow>
    var events: seq<Event>
    var progress: Option<Progress>

    constructor (job: Job, rows: seq<SourceRow>, events: seq<Event>)
      ensures this.job == job && this.rows == rows
      ensures Durable() == Store(events, None)
    {
      this.job, this.rows, this.events, this.progress := job, rows, events, None;
    }

    function Durable(): Store
      reads this
    {
      Store(events, progress)
    }

    method InsertBatch(batch: seq<SourceRow>) returns (created: nat)
      modifies this`events
      ensures events == InsertRows(old(events), job, batch)
      ensures created == |events| - |old(events)|
    {
      created := 0;
      for i := 0 to |batch|
        invariant events == InsertRows(old(events), job, batch[..i])
        invariant created == |events| - |old(events)|
      {
        assert batch[..i + 1][..i] == batch[..i];
        var e := Built(job, batch[i]);
        if !Blocked(events, e) {
          events := events + [e];
          created := created + 1;
        }
      }
      assert batch[..|batch|] == batch;
    }

    method CommitBatch(batch: seq<SourceRow>, totalScanned: int, totalCreated: int) returns (created: nat)
      requires batch != []
      modifies this
      ensures Durable() == BatchCommitted(old(Durable()), job, batch, totalScanned, totalCreated)
      ensures created == |events| - |old(events)|
    {
      created := InsertBatch(batch);
      var lastRow := batch[|batch| - 1];
      progress := Some(Upsert(progress,
        Fields(Running, Some(MillisecondOf(lastRow.createdAt)), Some(totalScanned + |batch|), Some(totalCreated + created))));
    }

    /** The batches of a call that survives `commits` transactions, one of which has marked it running. */
    method CommitBatches(scanned: seq<SourceRow>, batchTotalScanned: int, batchCreatedCount: int, commits: nat,
                         ghost was: Store, ghost params: Params)
      returns (survived: bool, createdCount: nat)
      requires 0 < commits && Durable() == Midway(was, job, params, scanned, 0)
      requires batchTotalScanned == BaseScanned(was, params) && batchCreatedCount == BaseCreated(was, params)
      modifies this
      ensures Durable() == Midway(was, job, params, scanned, CommittedRows(commits, |scanned|))
      ensures survived <==> RunsToEnd(commits, |scanned|)
      ensures createdCount == |events| - |was.events|
    {
      createdCount := 0;
      var done, i := 1, 0;
      while i < |scanned|
        invariant 0 <= i <= |scanned| && 1 <= done <= commits
        invariant i == CommittedRows(done, |scanned|)
        invariant !RunsToEnd(done, |scanned|)
        invariant Durable() == Midway(was, job, params, scanned, i)
        invariant createdCount == |events| - |was.events|
      {
        if done == commits {
          return false, createdCount;
        }
        var next := Min(i + BACKFILL_CHECKPOINT_BATCH_SIZE, |scanned|);
        var batch := scanned[i..next];
        BatchAdvances(was, job, params, scanned, i, next);
        OneMoreBatch(done, |scanned|);
        var created := CommitBatch(batch, batchTotalScanned + i, batchCreatedCount + createdCount);
        createdCount := createdCount + created;
        i, done := next, done + 1;
      }
      LastBatch(done, commits, |scanned|);
      survived := done < commits;
    }

    /** The candidate query, and the totals the call starts from. */
    method ScanRows(params: Params) returns (scanned: seq<SourceRow>, totalScanned: int, totalCreated: int)
      ensures scanned == Scan(Durable(), rows, job, params)
      ensures totalScanned == BaseScanned(Durable(), params) && totalCreated == BaseCreated(Durable(), params)
    {
      var resumeDate := params.cursor;
      totalScanned, totalCreated := 0, 0;
      if resumeDate.None? {
        if progress.Some? {
          resumeDate := progress.value.lastCursor;
          totalScanned, totalCreated := progress.value.totalScanned, progress.value.totalCreated;
        }
      }
      var all := Candidates(rows, events, job, params.agreementId, resumeDate);
      scanned := all[..Min(params.limit, |all|)];
    }

    /** The process dies once `commits` transactions are committed, if the call is not over by then. */
    method PerformBackfill(params: Params, commits: nat) returns (response: Option<Response>, ghost scannedRows: seq<SourceRow>)
      modifies this
      ensures IsScan(scannedRows, old(Durable()), rows, job, params)
      ensures AddsEventsOf(old(events), events, job, scannedRows)
      ensures Durable() == After(old(Durable()), rows, job, params, commits)
      ensures var n := |scannedRows|;
              response == if !RunsToEnd(commits, n) then None else
                Some(Response(n, |events| - |old(events)|,
                              if n == 0 then None else Some(MillisecondOf(scannedRows[n - 1].createdAt)),
                              n == params.limit))
    {
      hide IsScan, AddsEventsOf;
      ghost var was := Durable();
      var scanned, totalScanned, totalCreated := ScanRows(params);
      scannedRows := scanned;
      ScanIsScan(was, rows, job, params);
      CallAddsEventsOf(was, job, params, scanned, commits);
      if commits == 0 {
        return None, scanned;
      }
      progress := Some(Upsert(progress, Fields(Running, None, None, None)));
      var survived, createdCount := CommitBatches(scanned, totalScanned, totalCreated, commits, was, params);
      if !survived {
        return None, scanned;
      }
      var hasMore := |scanned| == params.limit;
      progress := Some(Upsert(progress, Fields(if hasMore then Idle else Completed, None, None, None)));
      response := Some(Response(|scanned|, createdCount,
                                if scanned == [] then None else Some(MillisecondOf(scanned[|scanned| - 1].createdAt)), hasMore));
    }
  }
}
