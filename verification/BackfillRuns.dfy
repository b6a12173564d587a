/**
 Whole runs of the backfill: any number of automatically resumed calls with any
 limits, each of which may die between two of its transactions.
 */
module BackfillRuns {
  import opened Common
  import opened Backfill

  /** One call: its limit, and how many of its transactions get committed. */
  datatype Attempt = Attempt(limit: nat, commits: nat)

  function Auto(limit: nat): Params {
    Params(limit, None, None)
  }

  function Run(events: seq<Event>, rows: seq<SourceRow>, job: Job, attempts: seq<Attempt>): Store
    decreases |attempts|
  {
    if attempts == [] then Store(events, None) else
      var last := attempts[|attempts| - 1];
      After(Run(events, rows, job, attempts[..|attempts| - 1]), rows, job, Auto(last.limit), last.commits)
  }

  /** The rows that have no event when the run starts, newest first. */
  function Missing(events: seq<Event>, rows: seq<SourceRow>, job: Job): seq<SourceRow> {
    Candidates(rows, events, job, None, None)
  }

  /** Newest first, and no two rows in one millisecond. */
  ghost predicate MillisecondsApart(rows: seq<SourceRow>) {
    forall i, j | 0 <= i < j < |rows| :: MillisecondOf(rows[i].createdAt) > MillisecondOf(rows[j].createdAt)
  }

  ghost predicate DistinctTransactions(rows: seq<SourceRow>) {
    forall i, j | 0 <= i < j < |rows| :: rows[i].transactionHash != rows[j].transactionHash
  }

  // ---------------------------------------------------------------------------
  // What a resumed call scans
  // ---------------------------------------------------------------------------

  function CursorAt(c: seq<SourceRow>, k: nat): Option<int>
    requires k <= |c|
  {
    if k == 0 then None else Some(MillisecondOf(c[k - 1].createdAt))
  }

  lemma {:induction false} InsertKeeps(events: seq<Event>, job: Job, rows: seq<SourceRow>)
    ensures events <= InsertRows(events, job, rows)
  {
    if rows == [] {
    } else {
      InsertKeeps(events, job, rows[..|rows| - 1]);
    }
  }

  lemma {:induction false} InsertedEvents(events: seq<Event>, job: Job, rows: seq<SourceRow>, x: Event)
    requires x in InsertRows(events, job, rows)
    ensures x in events || exists i | 0 <= i < |rows| :: x == Built(job, rows[i])
  {
    if rows == [] {
    } else {
      var n := |rows| - 1;
      if x in InsertRows(events, job, rows[..n]) {
        InsertedEvents(events, job, rows[..n], x);
        if x !in events {
          var i :| 0 <= i < n && x == Built(job, rows[..n][i]);
          assert x == Built(job, rows[i]);
        }
      } else {
        assert x == Built(job, rows[n]);
      }
    }
  }

  lemma {:induction false} CandidatesAre(rows: seq<SourceRow>, events: seq<Event>, job: Job, r: SourceRow)
    ensures r in Missing(events, rows, job) <==> r in rows && IsCandidate(events, job, None, None, r)
  {
    if rows == [] {
    } else {
      CandidatesAre(rows[1..], events, job, r);
      assert rows == [rows[0]] + rows[1..];
    }
  }

  lemma {:induction false} CandidatesKeepOrder(rows: seq<SourceRow>, events: seq<Event>, job: Job)
    requires MillisecondsApart(rows)
    ensures MillisecondsApart(Missing(events, rows, job))
  {
    if rows == [] {
    } else {
      hide IsCandidate;
      CandidatesKeepOrder(rows[1..], events, job);
      var rest := Missing(events, rows[1..], job);
      forall i | 0 <= i < |rest|
        ensures MillisecondOf(rows[0].createdAt) > MillisecondOf(rest[i].createdAt)
      {
        CandidatesAre(rows[1..], events, job, rest[i]);
        var j :| 0 <= j < |rows[1..]| && rows[1..][j] == rest[i];
        assert rows[j + 1] == rest[i];
      }
    }
  }

  /** Whether the first `k` rows of `c` are exactly what the query now leaves out. */
  ghost predicate CutAt(c: seq<SourceRow>, events: seq<Event>, job: Job, before: Option<int>, k: nat) {
    forall i | 0 <= i < |c| :: IsCandidate(events, job, None, before, c[i]) <==> k <= i
  }

  /** The work of a run: the missing rows, one per transaction. */
  ghost predicate Backlog(c: seq<SourceRow>, events: seq<Event>, rows: seq<SourceRow>, job: Job) {
    c == Missing(events, rows, job) && DistinctTransactions(c) && CutAt(c, events, job, None, 0)
  }

  /** The millisecond of row `k - 1` separates the first `k` rows from the rest. */
  ghost predicate Splits(c: seq<SourceRow>, k: int) {
    && 0 <= k <= |c|
    && (k > 0 ==>
          && (forall i | 0 <= i < k :: MillisecondOf(c[k - 1].createdAt) <= c[i].createdAt)
          && (forall i | k <= i < |c| :: c[i].createdAt < MillisecondOf(c[k - 1].createdAt)))
  }

  lemma ApartSplits(c: seq<SourceRow>, k: int)
    requires MillisecondsApart(c) && 0 <= k <= |c|
    ensures Splits(c, k)
  {
    hide MillisecondOf;
    if k > 0 {
      var last := c[k - 1].createdAt;
      forall i | 0 <= i < k
        ensures MillisecondOf(last) <= c[i].createdAt
      {
        MillisecondsInOrder(last, c[i].createdAt);
        MillisecondsInOrder(c[i].createdAt, c[i].createdAt);
        assert i < k - 1 ==> MillisecondOf(c[i].createdAt) > MillisecondOf(last);
      }
      forall i | k <= i < |c|
        ensures c[i].createdAt < MillisecondOf(last)
      {
        MillisecondsInOrder(c[i].createdAt, last);
      }
    }
  }

  lemma MissingIsBacklog(events: seq<Event>, rows: seq<SourceRow>, job: Job)
    requires DistinctTransactions(Missing(events, rows, job))
    ensures Backlog(Missing(events, rows, job), events, rows, job)
  {
    var c := Missing(events, rows, job);
    forall i | 0 <= i < |c|
      ensures IsCandidate(events, job, None, None, c[i])
    {
      CandidatesAre(rows, events, job, c[i]);
    }
  }

  lemma CheckpointCuts(events: seq<Event>, c: seq<SourceRow>, job: Job, k: nat)
    requires Splits(c, k) && DistinctTransactions(c) && CutAt(c, events, job, None, 0)
    ensures CutAt(c, InsertRows(events, job, c[..k]), job, CursorAt(c, k), k)
  {
    var now := InsertRows(events, job, c[..k]);
    forall i | k <= i < |c|
      ensures !HasEvent(now, c[i].transactionHash, TypeName(job))
    {
      forall x | x in now && x.transactionHash == c[i].transactionHash
        ensures x.eventType != TypeName(job)
      {
        InsertedEvents(events, job, c[..k], x);
        assert IsCandidate(events, job, None, None, c[i]);
      }
    }
  }

  lemma {:induction false} ScanResumes(rows: seq<SourceRow>, was: seq<Event>, now: seq<Event>, job: Job, before: Option<int>,
                                       c: seq<SourceRow>, o: nat, k: nat)
    requires was <= now && o <= |c| && k <= |c|
    requires Candidates(rows, was, job, None, None) == c[o..]
    requires CutAt(c, now, job, before, k)
    ensures Candidates(rows, now, job, None, before) == c[Max(o, k)..]
  {
    if rows == [] {
    } else {
      var r := rows[0];
      if IsCandidate(was, job, None, None, r) {
        assert c[o..][0] == r && c[o..][1..] == c[o + 1..];
        ScanResumes(rows[1..], was, now, job, before, c, o + 1, k);
        if k <= o {
          assert [r] + c[o + 1..] == c[o..];
        }
      } else {
        assert !IsCandidate(now, job, None, before, r) by {
          assert forall x | x in was :: x in now;
        }
        ScanResumes(rows[1..], was, now, job, before, c, o, k);
      }
    }
  }

  // ---------------------------------------------------------------------------
  // The checkpoint
  // ---------------------------------------------------------------------------

  /** Durably, the first `k` missing rows are done and the checkpoint says so. */
  ghost predicate At(store: Store, events: seq<Event>, c: seq<SourceRow>, job: Job, k: int) {
    && 0 <= k <= |c|
    && store.events == InsertRows(events, job, c[..k])
    && match store.progress {
         case None => k == 0
         case Some(p) =>
           && p.lastCursor == CursorAt(c, k)
           && p.totalScanned == k
           && p.totalCreated == |store.events| - |events|
           && (p.status == Completed ==> k == |c|)
       }
  }

  function TotalScanned(store: Store): int {
    if store.progress.Some? then store.progress.value.totalScanned else 0
  }

  function RowsOf(store: Store, rows: seq<SourceRow>, job: Job, attempt: Attempt): seq<SourceRow> {
    var scanned := Scan(store, rows, job, Auto(attempt.limit));
    scanned[..CommittedRows(attempt.commits, |scanned|)]
  }

  lemma ResumedCandidates(events: seq<Event>, c: seq<SourceRow>, rows: seq<SourceRow>, job: Job, k: nat)
    requires Backlog(c, events, rows, job) && Splits(c, k)
    ensures Candidates(rows, InsertRows(events, job, c[..k]), job, None, CursorAt(c, k)) == c[k..]
  {
    CheckpointCuts(events, c, job, k);
    InsertKeeps(events, job, c[..k]);
    assert c[0..] == c;
    ScanResumes(rows, events, InsertRows(events, job, c[..k]), job, CursorAt(c, k), c, 0, k);
  }

  lemma ScanIsNext(store: Store, c: seq<SourceRow>, rows: seq<SourceRow>, job: Job, limit: nat, k: nat)
    requires k <= |c| && Candidates(rows, store.events, job, None, ResumeFrom(store, Auto(limit))) == c[k..]
    ensures Scan(store, rows, job, Auto(limit)) == c[k..Min(k + limit, |c|)]
  {
    var all := c[k..];
    assert all[..Min(limit, |all|)] == c[k..Min(k + limit, |c|)];
  }

  lemma ScanAt(store: Store, events: seq<Event>, c: seq<SourceRow>, rows: seq<SourceRow>, job: Job, limit: nat, k: int)
    requires Backlog(c, events, rows, job) && Splits(c, k) && At(store, events, c, job, k)
    ensures Scan(store, rows, job, Auto(limit)) == c[k..Min(k + limit, |c|)]
  {
    ResumedCandidates(events, c, rows, job, k);
    ScanIsNext(store, c, rows, job, limit, k);
  }

  lemma InsertNext(events: seq<Event>, c: seq<SourceRow>, job: Job, k: nat, m: nat)
    requires k + m <= |c|
    ensures InsertRows(InsertRows(events, job, c[..k]), job, c[k..k + m]) == InsertRows(events, job, c[..k + m])
  {
    assert c[..k] + c[k..k + m] == c[..k + m];
    InsertInTwoGoes(events, job, c[..k], c[k..k + m]);
  }

  lemma MidwayIsAt(store: Store, events: seq<Event>, c: seq<SourceRow>, job: Job, limit: nat, k: int, scanned: seq<SourceRow>, m: nat)
    requires At(store, events, c, job, k) && k + |scanned| <= |c| && m <= |scanned|
    requires scanned[..m] == c[k..k + m] && (m > 0 ==> scanned[m - 1] == c[k + m - 1])
    ensures At(Midway(store, job, Auto(limit), scanned, m), events, c, job, k + m)
  {
    if m > 0 {
      InsertNext(events, c, job, k, m);
    }
  }

  lemma EndIsAt(s: Store, events: seq<Event>, c: seq<SourceRow>, job: Job, k: int, status: Status)
    requires At(s, events, c, job, k) && s.progress.Some? && (status == Completed ==> k == |c|)
    ensures At(s.(progress := Some(s.progress.value.(status := status))), events, c, job, k)
  {
  }

  /** A call moves the checkpoint over the rows it commits, and over no others. */
  lemma AttemptKeepsAt(store: Store, events: seq<Event>, c: seq<SourceRow>, rows: seq<SourceRow>, job: Job, attempt: Attempt, k: int)
    returns (m: nat)
    requires Backlog(c, events, rows, job) && Splits(c, k) && At(store, events, c, job, k)
    ensures k + m <= |c| && RowsOf(store, rows, job, attempt) == c[k..k + m]
    ensures At(After(store, rows, job, Auto(attempt.limit), attempt.commits), events, c, job, k + m)
  {
    ScanAt(store, events, c, rows, job, attempt.limit, k);
    m := AdvanceBy(store, events, c, job, Scan(store, rows, job, Auto(attempt.limit)), attempt, k);
  }

  lemma PrefixOfScan(c: seq<SourceRow>, scanned: seq<SourceRow>, k: nat, n: nat, m: nat)
    requires k <= n <= |c| && scanned == c[k..n] && m <= |scanned|
    ensures scanned[..m] == c[k..k + m]
    ensures m > 0 ==> scanned[m - 1] == c[k + m - 1]
  {
  }

  lemma AdvanceBy(store: Store, events: seq<Event>, c: seq<SourceRow>, job: Job, scanned: seq<SourceRow>, attempt: Attempt, k: int)
    returns (m: nat)
    requires At(store, events, c, job, k) && scanned == c[k..Min(k + attempt.limit, |c|)]
    ensures m == CommittedRows(attempt.commits, |scanned|) && k + m <= |c| && scanned[..m] == c[k..k + m]
    ensures At(AfterScan(store, job, Auto(attempt.limit), scanned, attempt.commits), events, c, job, k + m)
  {
    hide Midway, InsertRows, CursorAt;
    m := CommittedRows(attempt.commits, |scanned|);
    PrefixOfScan(c, scanned, k, Min(k + attempt.limit, |c|), m);
    if attempt.commits > 0 {
      MidwayIsAt(store, events, c, job, attempt.limit, k, scanned, m);
      var s := Midway(store, job, Auto(attempt.limit), scanned, m);
      if RunsToEnd(attempt.commits, |scanned|) {
        ShortScanIsLast(|c|, k, attempt.limit, attempt.commits);
        EndIsAt(s, events, c, job, k + m, if |scanned| == attempt.limit then Idle else Completed);
      }
    }
  }

  lemma ShortScanIsLast(backlog: nat, k: nat, limit: nat, commits: nat)
    requires k <= backlog && RunsToEnd(commits, Min(k + limit, backlog) - k)
    ensures CommittedRows(commits, Min(k + limit, backlog) - k) == Min(k + limit, backlog) - k
    ensures Min(k + limit, backlog) - k != limit ==> Min(k + limit, backlog) == backlog
  {
  }

  /** All rows committed by a run, in the order of their commits. */
  function RunRows(events: seq<Event>, rows: seq<SourceRow>, job: Job, attempts: seq<Attempt>): seq<SourceRow>
    decreases |attempts|
  {
    if attempts == [] then [] else
      var before := attempts[..|attempts| - 1];
      RunRows(events, rows, job, before) + RowsOf(Run(events, rows, job, before), rows, job, attempts[|attempts| - 1])
  }

  /**
   After any run the checkpoint is exact: its totals are the durable scans and inserts,
   and the committed rows are the newest missing rows, each of them committed once.
   */
  lemma {:induction false} CheckpointIsExact(events: seq<Event>, rows: seq<SourceRow>, job: Job, attempts: seq<Attempt>)
    requires MillisecondsApart(Missing(events, rows, job)) && DistinctTransactions(Missing(events, rows, job))
    ensures var store := Run(events, rows, job, attempts);
            var c := Missing(events, rows, job);
            && At(store, events, c, job, TotalScanned(store))
            && RunRows(events, rows, job, attempts) == c[..TotalScanned(store)]
    decreases |attempts|
  {
    var c := Missing(events, rows, job);
    if attempts == [] {
      assert c[..0] == [];
    } else {
      var before := attempts[..|attempts| - 1];
      CheckpointIsExact(events, rows, job, before);
      MissingIsBacklog(events, rows, job);
      ApartSplits(c, TotalScanned(Run(events, rows, job, before)));
      OneMoreAttempt(Run(events, rows, job, before), events, c, rows, job, attempts[|attempts| - 1],
                     RunRows(events, rows, job, before));
    }
  }

  lemma OneMoreAttempt(store: Store, events: seq<Event>, c: seq<SourceRow>, rows: seq<SourceRow>, job: Job, last: Attempt,
                       committed: seq<SourceRow>)
    requires Backlog(c, events, rows, job) && Splits(c, TotalScanned(store)) && At(store, events, c, job, TotalScanned(store))
    requires committed == c[..TotalScanned(store)]
    ensures var next := After(store, rows, job, Auto(last.limit), last.commits);
            && At(next, events, c, job, TotalScanned(next))
            && committed + RowsOf(store, rows, job, last) == c[..TotalScanned(next)]
  {
    var k := TotalScanned(store);
    var m := AttemptKeepsAt(store, events, c, rows, job, last, k);
    Joined(After(store, rows, job, Auto(last.limit), last.commits), events, c, job, k, m, committed,
           RowsOf(store, rows, job, last));
  }

  lemma Joined(next: Store, events: seq<Event>, c: seq<SourceRow>, job: Job, k: nat, m: nat, committed: seq<SourceRow>,
               more: seq<SourceRow>)
    requires At(next, events, c, job, k + m) && committed == c[..k] && more == c[k..k + m]
    ensures At(next, events, c, job, TotalScanned(next)) && committed + more == c[..TotalScanned(next)]
  {
    AtTells(next, events, c, job, k + m);
    SlicesJoin(c, k, m);
  }

  lemma AtTells(store: Store, events: seq<Event>, c: seq<SourceRow>, job: Job, k: int)
    requires At(store, events, c, job, k)
    ensures TotalScanned(store) == k
  {
  }

  lemma SlicesJoin(c: seq<SourceRow>, k: nat, m: nat)
    requires k + m <= |c|
    ensures c[..k] + c[k..k + m] == c[..k + m]
  {
  }

  // ---------------------------------------------------------------------------
  // Completion
  // ---------------------------------------------------------------------------

  ghost predicate UniqueKeys(events: seq<Event>) {
    forall i, j | 0 <= i < j < |events| :: !Clash(events[i], events[j])
  }

  lemma {:induction false} InsertKeepsKeys(events: seq<Event>, job: Job, rows: seq<SourceRow>)
    requires UniqueKeys(events)
    ensures UniqueKeys(InsertRows(events, job, rows))
  {
    if rows == [] {
    } else {
      var sofar := InsertRows(events, job, rows[..|rows| - 1]);
      InsertKeepsKeys(events, job, rows[..|rows| - 1]);
      assert forall i | 0 <= i < |sofar| :: sofar[i] in sofar;
    }
  }

  /** The unique keys hold after any run whatever. */
  lemma {:induction false} RunKeepsKeys(events: seq<Event>, rows: seq<SourceRow>, job: Job, attempts: seq<Attempt>)
    requires UniqueKeys(events)
    ensures UniqueKeys(Run(events, rows, job, attempts).events)
    ensures events <= Run(events, rows, job, attempts).events
    decreases |attempts|
  {
    if attempts == [] {
    } else {
      var before, last := attempts[..|attempts| - 1], attempts[|attempts| - 1];
      RunKeepsKeys(events, rows, job, before);
      var store := Run(events, rows, job, before);
      InsertKeepsKeys(store.events, job, RowsOf(store, rows, job, last));
      InsertKeeps(store.events, job, RowsOf(store, rows, job, last));
    }
  }

  /** The events the rows would get do not stand in each other's way. */
  ghost predicate NoClashes(rows: seq<SourceRow>, job: Job) {
    forall i, j | 0 <= i < j < |rows| :: !Clash(Built(job, rows[i]), Built(job, rows[j]))
  }

  /** No event that is already there stands in their way. */
  ghost predicate Unblocked(rows: seq<SourceRow>, events: seq<Event>, job: Job) {
    forall i | 0 <= i < |rows| :: !Blocked(events, Built(job, rows[i]))
  }

  ghost predicate AllHaveEvents(rows: seq<SourceRow>, events: seq<Event>, job: Job) {
    forall i | 0 <= i < |rows| :: Built(job, rows[i]) in events
  }

  lemma NotBlockedByOthers(events: seq<Event>, job: Job, c: seq<SourceRow>, k: nat)
    requires k < |c| && NoClashes(c, job) && Unblocked(c, events, job)
    ensures !Blocked(InsertRows(events, job, c[..k]), Built(job, c[k]))
  {
    var e := Built(job, c[k]);
    forall x | x in InsertRows(events, job, c[..k])
      ensures !Clash(x, e)
    {
      InsertedEvents(events, job, c[..k], x);
      if x in events {
        assert !Blocked(events, Built(job, c[k]));
      } else {
        var i :| 0 <= i < k && x == Built(job, c[..k][i]);
        assert x == Built(job, c[i]);
      }
    }
  }

  lemma {:induction false} EachGetsItsEvent(events: seq<Event>, job: Job, c: seq<SourceRow>, k: nat)
    requires k <= |c| && NoClashes(c, job) && Unblocked(c, events, job)
    ensures forall i | 0 <= i < k :: Built(job, c[i]) in InsertRows(events, job, c[..k])
  {
    if k == 0 {
    } else {
      assert c[..k][..k - 1] == c[..k - 1];
      EachGetsItsEvent(events, job, c, k - 1);
      NotBlockedByOthers(events, job, c, k - 1);
    }
  }

  /** `id` is the primary key of the source table. */
  ghost predicate KeyedRows(rows: seq<SourceRow>) {
    forall i, j | 0 <= i < j < |rows| :: rows[i].id != rows[j].id
  }

  lemma {:induction false} CandidatesKeepKeys(rows: seq<SourceRow>, events: seq<Event>, job: Job)
    requires KeyedRows(rows)
    ensures KeyedRows(Missing(events, rows, job))
  {
    if rows == [] {
    } else {
      CandidatesKeepKeys(rows[1..], events, job);
      var rest := Missing(events, rows[1..], job);
      forall i | 0 <= i < |rest|
        ensures rows[0].id != rest[i].id
      {
        CandidatesAre(rows[1..], events, job, rest[i]);
        var j :| 0 <= j < |rows[1..]| && rows[1..][j] == rest[i];
        assert rows[j + 1] == rest[i];
      }
    }
  }

  /** An id is read back from the event of a given transaction and type. */
  lemma SameEventSameId(job: Job, a: SourceRow, b: SourceRow)
    requires Built(job, a) == Built(job, b)
    ensures a.id == b.id
  {
    var head := a.transactionHash + "_backfill_" + TypeName(job) + "_";
    assert (head + a.id)[|head|..] == a.id;
    assert (head + b.id)[|head|..] == b.id;
  }

  lemma PresentMeansNoClashes(events: seq<Event>, job: Job, c: seq<SourceRow>)
    requires UniqueKeys(events) && KeyedRows(c) && AllHaveEvents(c, events, job)
    ensures NoClashes(c, job)
  {
    forall i, j | 0 <= i < j < |c|
      ensures !Clash(Built(job, c[i]), Built(job, c[j]))
    {
      var p :| 0 <= p < |events| && events[p] == Built(job, c[i]);
      var q :| 0 <= q < |events| && events[q] == Built(job, c[j]);
      if p == q {
        SameEventSameId(job, c[i], c[j]);
      } else {
        assert !Clash(events[if p < q then p else q], events[if p < q then q else p]);
      }
    }
  }

  lemma PresentMeansUnblocked(was: seq<Event>, now: seq<Event>, job: Job, c: seq<SourceRow>)
    requires was <= now && UniqueKeys(now) && AllHaveEvents(c, now, job) && CutAt(c, was, job, None, 0)
    ensures Unblocked(c, was, job)
  {
    forall i, p | 0 <= i < |c| && 0 <= p < |was|
      ensures !Clash(was[p], Built(job, c[i]))
    {
      assert IsCandidate(was, job, None, None, c[i]);
      assert was[p] in was && now[p] == was[p];
      var q :| 0 <= q < |now| && now[q] == Built(job, c[i]);
      if p != q {
        assert !Clash(now[if p < q then p else q], now[if p < q then q else p]);
      }
    }
  }

  /** What must hold beforehand for a completed run to have done its job, and it is all that must. */
  lemma CompletedRunIsTotalIff(events: seq<Event>, rows: seq<SourceRow>, job: Job, attempts: seq<Attempt>)
    requires MillisecondsApart(Missing(events, rows, job)) && KeyedRows(rows) && UniqueKeys(events)
    requires var p := Run(events, rows, job, attempts).progress; p.Some? && p.value.status == Completed
    ensures var c := Missing(events, rows, job);
            AllHaveEvents(c, Run(events, rows, job, attempts).events, job) <==> NoClashes(c, job) && Unblocked(c, events, job)
  {
    var c, now := Missing(events, rows, job), Run(events, rows, job, attempts).events;
    RunKeepsKeys(events, rows, job, attempts);
    CandidatesKeepKeys(rows, events, job);
    if AllHaveEvents(c, now, job) {
      PresentMeansNoClashes(now, job, c);
      assert DistinctTransactions(c);
      MissingIsBacklog(events, rows, job);
      PresentMeansUnblocked(events, now, job, c);
    }
    if NoClashes(c, job) && Unblocked(c, events, job) {
      NoClashesIsTotal(events, rows, job, attempts);
    }
  }

  lemma NoClashesIsTotal(events: seq<Event>, rows: seq<SourceRow>, job: Job, attempts: seq<Attempt>)
    requires MillisecondsApart(Missing(events, rows, job))
    requires var c := Missing(events, rows, job); NoClashes(c, job) && Unblocked(c, events, job)
    requires var p := Run(events, rows, job, attempts).progress; p.Some? && p.value.status == Completed
    ensures AllHaveEvents(Missing(events, rows, job), Run(events, rows, job, attempts).events, job)
  {
    var c := Missing(events, rows, job);
    assert DistinctTransactions(c);
    CheckpointIsExact(events, rows, job, attempts);
    assert c[..|c|] == c;
    EachGetsItsEvent(events, job, c, |c|);
  }

  // ---------------------------------------------------------------------------
  // The same in terms of transactions: ids never collide on their own
  // ---------------------------------------------------------------------------

  predicate Plain(s: string) {
    '_' !in s
  }

  /** The id of an event read from the chain; the ordinal is a decimal number. */
  function RealEventId(transactionHash: string, ordinal: string): string {
    transactionHash + "_" + ordinal
  }

  predicate Decimal(ordinal: string) {
    ordinal != [] && '0' <= ordinal[0] <= '9'
  }

  ghost predicate WellIdentified(e: Event) {
    && Plain(e.transactionHash)
    && (|| (exists ordinal :: Decimal(ordinal) && e.id == RealEventId(e.transactionHash, ordinal))
        || (e.eventIndex == BACKFILL_EVENT_INDEX
            && exists job, rowId :: e.id == BackfillEventId(e.transactionHash, TypeName(job), rowId)))
  }

  lemma SplitAtUnderscore(a: string, u: string, b: string, v: string)
    requires Plain(a) && Plain(b) && a + "_" + u == b + "_" + v
    ensures a == b && u == v
  {
    var s := a + "_" + u;
    assert forall i | 0 <= i < |a| :: s[i] == a[i] && a[i] in a;
    assert forall i | 0 <= i < |b| :: s[i] == b[i] && b[i] in b;
    assert s[|a|] == '_' && s[|b|] == '_';
    assert s[..|a|] == a && s[..|b|] == b;
    assert s[|a| + 1..] == u && s[|b| + 1..] == v;
  }

  lemma BackfillIdStartsWithHash(transactionHash: string, eventType: string, rowId: string)
    ensures BackfillEventId(transactionHash, eventType, rowId)
         == transactionHash + "_" + ("backfill_" + eventType + "_" + rowId)
  {
  }

  /** A backfill id is neither the id of a chain event nor that of another transaction's backfill event. */
  lemma IdsNeverCollide(e: Event, job: Job, row: SourceRow)
    requires WellIdentified(e) && Plain(row.transactionHash) && e.id == Built(job, row).id
    ensures e.transactionHash == row.transactionHash && e.eventIndex == BACKFILL_EVENT_INDEX
  {
    var tail := "backfill_" + TypeName(job) + "_" + row.id;
    BackfillIdStartsWithHash(row.transactionHash, TypeName(job), row.id);
    assert tail[0] == 'b';
    if ordinal :| Decimal(ordinal) && e.id == RealEventId(e.transactionHash, ordinal) {
      SplitAtUnderscore(e.transactionHash, ordinal, row.transactionHash, tail);
    } else {
      var j, rowId :| e.id == BackfillEventId(e.transactionHash, TypeName(j), rowId);
      BackfillIdStartsWithHash(e.transactionHash, TypeName(j), rowId);
      SplitAtUnderscore(e.transactionHash, "backfill_" + TypeName(j) + "_" + rowId, row.transactionHash, tail);
    }
  }

  /** No event occupies the index that backfill events take, in the transactions of `rows`. */
  ghost predicate IndexFree(rows: seq<SourceRow>, events: seq<Event>) {
    forall i, p | 0 <= i < |rows| && 0 <= p < |events| ::
      events[p].transactionHash == rows[i].transactionHash ==> events[p].eventIndex != BACKFILL_EVENT_INDEX
  }

  lemma ClashesAreSharedTransactions(c: seq<SourceRow>, events: seq<Event>, job: Job)
    requires forall i | 0 <= i < |c| :: Plain(c[i].transactionHash)
    requires forall p | 0 <= p < |events| :: WellIdentified(events[p])
    ensures NoClashes(c, job) <==> DistinctTransactions(c)
    ensures Unblocked(c, events, job) <==> IndexFree(c, events)
  {
    forall i, j | 0 <= i < j < |c|
      ensures Clash(Built(job, c[i]), Built(job, c[j])) <==> c[i].transactionHash == c[j].transactionHash
    {
      var e := Built(job, c[i]);
      assert e.id == BackfillEventId(e.transactionHash, TypeName(job), c[i].id);
      if e.id == Built(job, c[j]).id {
        IdsNeverCollide(e, job, c[j]);
      }
    }
    forall i, p | 0 <= i < |c| && 0 <= p < |events|
      ensures Clash(events[p], Built(job, c[i]))
          <==> events[p].transactionHash == c[i].transactionHash && events[p].eventIndex == BACKFILL_EVENT_INDEX
    {
      if events[p].id == Built(job, c[i]).id {
        IdsNeverCollide(events[p], job, c[i]);
      }
    }
    forall i, p | Unblocked(c, events, job) && 0 <= i < |c| && 0 <= p < |events|
      ensures !Clash(events[p], Built(job, c[i]))
    {
      assert !Blocked(events, Built(job, c[i])) && events[p] in events;
    }
  }

  /**
   A completed run has given every missing row its event exactly when the rows come
   from different transactions in none of which an event already sits at index 0.
   */
  lemma CompletedRunIsTotalIffTransactionsFree(events: seq<Event>, rows: seq<SourceRow>, job: Job, attempts: seq<Attempt>)
    requires MillisecondsApart(Missing(events, rows, job)) && KeyedRows(rows) && UniqueKeys(events)
    requires forall i | 0 <= i < |rows| :: Plain(rows[i].transactionHash)
    requires forall p | 0 <= p < |events| :: WellIdentified(events[p])
    requires var p := Run(events, rows, job, attempts).progress; p.Some? && p.value.status == Completed
    ensures var c := Missing(events, rows, job);
            AllHaveEvents(c, Run(events, rows, job, attempts).events, job) <==> DistinctTransactions(c) && IndexFree(c, events)
  {
    var c := Missing(events, rows, job);
    forall i | 0 <= i < |c|
      ensures Plain(c[i].transactionHash)
    {
      CandidatesAre(rows, events, job, c[i]);
    }
    ClashesAreSharedTransactions(c, events, job);
    CompletedRunIsTotalIff(events, rows, job, attempts);
  }

  // ---------------------------------------------------------------------------
  // Every run can be finished
  // ---------------------------------------------------------------------------

  /** Calls that are not cut short, with room for at least one row. */
  ghost predicate Uncut(attempts: seq<Attempt>, backlog: nat) {
    forall i | 0 <= i < |attempts| :: 1 <= attempts[i].limit && backlog + 2 <= attempts[i].commits
  }

  lemma {:induction false} UncutCallsComplete(events: seq<Event>, rows: seq<SourceRow>, job: Job, attempts: seq<Attempt>)
    requires MillisecondsApart(Missing(events, rows, job)) && DistinctTransactions(Missing(events, rows, job))
    requires Uncut(attempts, |Missing(events, rows, job)|)
    ensures var store, backlog := Run(events, rows, job, attempts), |Missing(events, rows, job)|;
            && Min(|attempts|, backlog) <= TotalScanned(store)
            && (backlog < |attempts| ==> store.progress.Some? && store.progress.value.status == Completed)
    decreases |attempts|
  {
    if attempts == [] {
    } else {
      var before, last := attempts[..|attempts| - 1], attempts[|attempts| - 1];
      UncutCallsComplete(events, rows, job, before);
      CheckpointIsExact(events, rows, job, before);
      MissingIsBacklog(events, rows, job);
      ApartSplits(Missing(events, rows, job), TotalScanned(Run(events, rows, job, before)));
      UncutCallAdvances(Run(events, rows, job, before), events, Missing(events, rows, job), rows, job, last);
    }
  }

  lemma UncutCallAdvances(store: Store, events: seq<Event>, c: seq<SourceRow>, rows: seq<SourceRow>, job: Job, last: Attempt)
    requires Backlog(c, events, rows, job) && Splits(c, TotalScanned(store)) && At(store, events, c, job, TotalScanned(store))
    requires 1 <= last.limit && |c| + 2 <= last.commits
    ensures var next := After(store, rows, job, Auto(last.limit), last.commits);
            && Min(TotalScanned(store) + 1, |c|) <= TotalScanned(next)
            && (TotalScanned(store) == |c| ==> next.progress.Some? && next.progress.value.status == Completed)
  {
    var k := TotalScanned(store);
    ScanAt(store, events, c, rows, job, last.limit, k);
    var scanned := Scan(store, rows, job, Auto(last.limit));
    var m := AdvanceBy(store, events, c, job, scanned, last, k);
    assert m == |scanned|;
  }

  // ---------------------------------------------------------------------------
  // Why the hypotheses are needed
  // ---------------------------------------------------------------------------

  /** A row at or above the checkpoint without an event. */
  ghost predicate Lost(store: Store, job: Job, row: SourceRow) {
    && Built(job, row) !in store.events
    && store.progress.Some? && store.progress.value.lastCursor.Some?
    && store.progress.value.lastCursor.value <= row.createdAt
  }

  lemma {:induction false} ScannedAreOlder(rows: seq<SourceRow>, events: seq<Event>, job: Job, before: int, r: SourceRow)
    requires r in Candidates(rows, events, job, None, Some(before))
    ensures r in rows && r.createdAt < before
  {
    if r !in Candidates(rows[1..], events, job, None, Some(before)) {
      assert r == rows[0];
    } else {
      ScannedAreOlder(rows[1..], events, job, before, r);
    }
  }

  /** Rows below the checkpoint, none of which has the event of `row`. */
  ghost predicate Others(scanned: seq<SourceRow>, job: Job, before: int, row: SourceRow) {
    forall i | 0 <= i < |scanned| :: scanned[i].createdAt < before && Built(job, scanned[i]) != Built(job, row)
  }

  lemma ScansOthers(store: Store, rows: seq<SourceRow>, job: Job, limit: nat, row: SourceRow)
    requires KeyedRows(rows) && row in rows && Lost(store, job, row)
    ensures Others(Scan(store, rows, job, Auto(limit)), job, store.progress.value.lastCursor.value, row)
  {
    hide Candidates, BackfillEventId;
    var scanned, before := Scan(store, rows, job, Auto(limit)), store.progress.value.lastCursor.value;
    forall i | 0 <= i < |scanned|
      ensures scanned[i].createdAt < before && Built(job, scanned[i]) != Built(job, row)
    {
      ScannedAreOlder(rows, store.events, job, before, scanned[i]);
      if Built(job, scanned[i]) == Built(job, row) {
        SameEventSameId(job, scanned[i], row);
      }
    }
  }

  lemma OthersKeepLost(store: Store, job: Job, scanned: seq<SourceRow>, attempt: Attempt, row: SourceRow)
    requires Lost(store, job, row) && Others(scanned, job, store.progress.value.lastCursor.value, row)
    ensures Lost(AfterScan(store, job, Auto(attempt.limit), scanned, attempt.commits), job, row)
  {
    hide InsertRows, BackfillEventId;
    var done := scanned[..CommittedRows(attempt.commits, |scanned|)];
    if Built(job, row) in InsertRows(store.events, job, done) {
      InsertedEvents(store.events, job, done, Built(job, row));
    }
  }

  lemma LostStays(store: Store, rows: seq<SourceRow>, job: Job, attempt: Attempt, row: SourceRow)
    requires KeyedRows(rows) && row in rows && Lost(store, job, row)
    ensures Lost(After(store, rows, job, Auto(attempt.limit), attempt.commits), job, row)
  {
    hide AfterScan, Scan, Others, Built;
    ScansOthers(store, rows, job, attempt.limit, row);
    OthersKeepLost(store, job, Scan(store, rows, job, Auto(attempt.limit)), attempt, row);
  }

  /** Once the checkpoint has passed a row, no later call gives it an event. */
  lemma {:induction false} LostForever(events: seq<Event>, rows: seq<SourceRow>, job: Job, first: seq<Attempt>, later: seq<Attempt>,
                                       row: SourceRow)
    requires KeyedRows(rows) && row in rows && Lost(Run(events, rows, job, first), job, row)
    ensures Lost(Run(events, rows, job, first + later), job, row)
    decreases |later|
  {
    hide Lost, After;
    if later == [] {
      assert first + later == first;
    } else {
      var all := first + later;
      assert all[..|all| - 1] == first + later[..|later| - 1];
      LostForever(events, rows, job, first, later[..|later| - 1], row);
      LostStays(Run(events, rows, job, all[..|all| - 1]), rows, job, all[|all| - 1], row);
    }
  }

  // ---------------------------------------------------------------------------
  // No row is lost exactly when the missing rows are milliseconds apart
  // ---------------------------------------------------------------------------

  const MAX_BACKFILL_LIMIT: nat := 5000

  /** `ORDER BY created_at DESC`; rows of one timestamp come in some order. */
  ghost predicate Descending(rows: seq<SourceRow>) {
    forall i, j | 0 <= i < j < |rows| :: rows[i].createdAt >= rows[j].createdAt
  }

  lemma {:induction false} CandidatesDescend(rows: seq<SourceRow>, events: seq<Event>, job: Job)
    requires Descending(rows)
    ensures Descending(Missing(events, rows, job))
  {
    if rows == [] {
    } else {
      CandidatesDescend(rows[1..], events, job);
      var rest := Missing(events, rows[1..], job);
      forall i | 0 <= i < |rest|
        ensures rows[0].createdAt >= rest[i].createdAt
      {
        CandidatesAre(rows[1..], events, job, rest[i]);
        var j :| 0 <= j < |rows[1..]| && rows[1..][j] == rest[i];
        assert rows[j + 1] == rest[i];
      }
    }
  }

  /** `k` calls of one row each, each dying before it reports. */
  function OneByOne(k: nat): seq<Attempt> {
    if k == 0 then [] else OneByOne(k - 1) + [Attempt(1, 2)]
  }

  lemma {:induction false} OneByOneIsAllowed(k: nat)
    ensures forall i | 0 <= i < |OneByOne(k)| :: OneByOne(k)[i] == Attempt(1, 2)
  {
    if k == 0 {
    } else {
      OneByOneIsAllowed(k - 1);
    }
  }

  /** As long as each millisecond separates, they work off one row after the other. */
  lemma {:induction false} OneByOneIsAt(events: seq<Event>, rows: seq<SourceRow>, job: Job, k: nat)
    requires DistinctTransactions(Missing(events, rows, job)) && k <= |Missing(events, rows, job)|
    requires forall j: nat | j < k :: Splits(Missing(events, rows, job), j)
    ensures At(Run(events, rows, job, OneByOne(k)), events, Missing(events, rows, job), job, k)
  {
    var c := Missing(events, rows, job);
    if k == 0 {
      assert c[..0] == [];
    } else {
      var before := OneByOne(k - 1);
      assert OneByOne(k)[..|OneByOne(k)| - 1] == before;
      OneByOneIsAt(events, rows, job, k - 1);
      MissingIsBacklog(events, rows, job);
      OneRowMore(Run(events, rows, job, before), events, c, rows, job, k - 1);
    }
  }

  lemma OneRowMore(store: Store, events: seq<Event>, c: seq<SourceRow>, rows: seq<SourceRow>, job: Job, k: nat)
    requires Backlog(c, events, rows, job) && Splits(c, k) && At(store, events, c, job, k) && k < |c|
    ensures At(After(store, rows, job, Auto(1), 2), events, c, job, k + 1)
  {
    ScanAt(store, events, c, rows, job, 1, k);
    var m := AdvanceBy(store, events, c, job, Scan(store, rows, job, Auto(1)), Attempt(1, 2), k);
  }

  /** The first two missing rows of one millisecond: calls of one row each lose the second for good. */
  lemma TieLosesARow(events: seq<Event>, rows: seq<SourceRow>, job: Job, i: nat, later: seq<Attempt>)
    requires var c := Missing(events, rows, job);
             && i + 1 < |c| && MillisecondOf(c[i].createdAt) == MillisecondOf(c[i + 1].createdAt)
             && DistinctTransactions(c) && forall j: nat | j <= i :: Splits(c, j)
    requires KeyedRows(rows)
    ensures Lost(Run(events, rows, job, OneByOne(i + 1) + later), job, Missing(events, rows, job)[i + 1])
  {
    hide KeyedRows, IsCandidate, Built, MillisecondOf;
    var c := Missing(events, rows, job);
    CandidatesKeepKeys(rows, events, job);
    CandidatesAre(rows, events, job, c[i + 1]);
    NotBuiltYet(events, job, c, i + 1);
    OneByOneIsAt(events, rows, job, i + 1);
    MillisecondsInOrder(c[i + 1].createdAt, c[i].createdAt);
    LostForever(events, rows, job, OneByOne(i + 1), later, c[i + 1]);
  }

  /** The smallest case: two rows with different timestamps, keys and transactions, and a call of one row. */
  lemma DifferentStampsLoseARow(job: Job, a: SourceRow, b: SourceRow)
    requires a.createdAt > b.createdAt && MillisecondOf(a.createdAt) == MillisecondOf(b.createdAt)
    requires a.id != b.id && a.transactionHash != b.transactionHash
    ensures Lost(Run([], [a, b], job, [Attempt(1, 2)]), job, b)
  {
    assert [a, b][1..] == [b] && [b][1..] == [];
    assert Missing([], [], job) == [];
    assert Missing([], [b], job) == [b] + Missing([], [], job);
    assert Missing([], [a, b], job) == [a] + Missing([], [b], job);
    assert OneByOne(1) == OneByOne(0) + [Attempt(1, 2)];
    assert OneByOne(1) + [] == [Attempt(1, 2)];
    TieLosesARow([], [a, b], job, 0, []);
  }

  ghost predicate Allowed(attempts: seq<Attempt>) {
    forall i | 0 <= i < |attempts| :: 1 <= attempts[i].limit <= MAX_BACKFILL_LIMIT
  }

  /** Whatever calls are made, no missing row is passed by the checkpoint without an event. */
  ghost predicate NeverLoses(events: seq<Event>, rows: seq<SourceRow>, job: Job) {
    forall attempts, row | Allowed(attempts) && row in Missing(events, rows, job) ::
      !Lost(Run(events, rows, job, attempts), job, row)
  }

  lemma NothingIsLost(events: seq<Event>, rows: seq<SourceRow>, job: Job, attempts: seq<Attempt>, row: SourceRow)
    requires var c := Missing(events, rows, job);
             MillisecondsApart(c) && NoClashes(c, job) && Unblocked(c, events, job) && row in c
    ensures !Lost(Run(events, rows, job, attempts), job, row)
  {
    hide MillisecondOf;
    var c, store := Missing(events, rows, job), Run(events, rows, job, attempts);
    assert DistinctTransactions(c);
    CheckpointIsExact(events, rows, job, attempts);
    var k := TotalScanned(store);
    ApartSplits(c, k);
    EachGetsItsEvent(events, job, c, k);
    var i :| 0 <= i < |c| && c[i] == row;
  }

  /** The first two rows of one millisecond in a descending list that has such. */
  lemma FirstTie(c: seq<SourceRow>) returns (i: nat)
    requires Descending(c) && !MillisecondsApart(c)
    ensures i + 1 < |c| && MillisecondOf(c[i].createdAt) == MillisecondOf(c[i + 1].createdAt)
    ensures forall j: nat | j <= i :: Splits(c, j)
  {
    hide MillisecondOf, Splits;
    i := 0;
    while i + 1 < |c| && MillisecondOf(c[i].createdAt) > MillisecondOf(c[i + 1].createdAt)
      invariant i < |c|
      invariant MillisecondsApart(c[..i + 1])
    {
      i := i + 1;
    }
    assert c[..|c|] == c;
    assert i + 1 < |c|;
    MillisecondsInOrder(c[i + 1].createdAt, c[i].createdAt);
    forall j: nat | j <= i
      ensures Splits(c, j)
    {
      ApartPrefixSplits(c, i + 1, j);
    }
  }

  lemma ApartPrefixSplits(c: seq<SourceRow>, n: nat, j: nat)
    requires Descending(c) && j < n <= |c| && MillisecondsApart(c[..n])
    ensures Splits(c, j)
  {
    hide MillisecondOf;
    ApartSplits(c[..n], j);
    if j > 0 {
      forall i | j <= i < |c|
        ensures c[i].createdAt < MillisecondOf(c[j - 1].createdAt)
      {
        assert c[i].createdAt <= c[j].createdAt && c[..n][j].createdAt < MillisecondOf(c[..n][j - 1].createdAt);
      }
    }
  }

  /**
   With events that do not clash, no run loses a row exactly when no two missing rows
   fall in one millisecond; that their timestamps differ is not enough.
   */
  lemma NoRowIsLostIffMillisecondsApart(events: seq<Event>, rows: seq<SourceRow>, job: Job)
    requires KeyedRows(rows) && Descending(rows)
    requires var c := Missing(events, rows, job); NoClashes(c, job) && Unblocked(c, events, job)
    ensures NeverLoses(events, rows, job) <==> MillisecondsApart(Missing(events, rows, job))
  {
    var c := Missing(events, rows, job);
    if MillisecondsApart(c) {
      forall attempts, row | Allowed(attempts) && row in c
        ensures !Lost(Run(events, rows, job, attempts), job, row)
      {
        NothingIsLost(events, rows, job, attempts, row);
      }
    } else {
      CandidatesDescend(rows, events, job);
      var i := FirstTie(c);
      assert DistinctTransactions(c);
      TieLosesARow(events, rows, job, i, []);
      OneByOneIsAllowed(i + 1);
      assert OneByOne(i + 1) + [] == OneByOne(i + 1);
      assert Allowed(OneByOne(i + 1)) && c[i + 1] in c;
    }
  }

  lemma NotBuiltYet(events: seq<Event>, job: Job, c: seq<SourceRow>, i: nat)
    requires i < |c| && KeyedRows(c) && IsCandidate(events, job, None, None, c[i])
    ensures Built(job, c[i]) !in InsertRows(events, job, c[..i])
  {
    var e := Built(job, c[i]);
    assert e !in events by {
      assert !HasEvent(events, c[i].transactionHash, TypeName(job));
    }
    if e in InsertRows(events, job, c[..i]) {
      InsertedEvents(events, job, c[..i], e);
      var j :| 0 <= j < i && e == Built(job, c[..i][j]);
      SameEventSameId(job, c[i], c[j]);
    }
  }
}
