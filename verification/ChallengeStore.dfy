/**
 The in-memory challenge store (src/auth/challenge.ts): one nonce per canonical
 address, swept a page at a time.

 An address argument is given as its canonical key, or None when it cannot be
 normalised.  The iteration order of the JavaScript Map is left open: `order`
 lists the keys in whatever order it has when a snapshot is taken.
 */
module ChallengeStore {
  import opened Common

  const CHALLENGE_TTL_MS: int := 300_000
  const MAX_CHALLENGES: nat := 100_000
  const SWEEP_INTERVAL: nat := 50
  const SWEEP_BATCH_SIZE: nat := 500

  type Address = string

  datatype Record = Record(nonce: string, expiresAtMs: int)

  type Table = map<Address, Record>

  datatype Store = Store(
    challenges: Table,
    creationsSinceSweep: nat,
    snapshot: Option<seq<Address>>,
    sweepOffset: nat)

  const EMPTY_STORE: Store := Store(map[], 0, None, 0)

  ghost predicate NoDuplicates(s: seq<Address>) {
    forall i, j | 0 <= i < j < |s| :: s[i] != s[j]
  }

  /** `order` is an iteration order of the table. */
  ghost predicate Enumerates(order: seq<Address>, t: Table) {
    NoDuplicates(order) && forall key :: key in order <==> key in t
  }

  // ------------------------------------------------------------------- sweeping

  function WithoutExpired(t: Table, keys: seq<Address>, now: int): Table {
    map key | key in t && !(key in keys && now > t[key].expiresAtMs) :: t[key]
  }

  function FullSweep(t: Table, now: int): Table {
    map key | key in t && !(now > t[key].expiresAtMs) :: t[key]
  }

  lemma FullSweepInspectsAll(t: Table, order: seq<Address>, now: int)
    requires Enumerates(order, t)
    ensures WithoutExpired(t, order, now) == FullSweep(t, now)
  {
  }

  /** The keys one opportunistic pass inspects. */
  function Page(snapshot: seq<Address>, offset: nat): seq<Address>
    requires offset <= |snapshot|
  {
    snapshot[offset .. Min(offset + SWEEP_BATCH_SIZE, |snapshot|)]
  }

  function Sweep(st: Store, now: int, full: bool, order: seq<Address>): Store {
    if st.challenges == map[] then st.(snapshot := None, sweepOffset := 0)
    else if full then st.(challenges := FullSweep(st.challenges, now), snapshot := None, sweepOffset := 0)
    else
      var snapshot := if st.snapshot.Some? then st.snapshot.value else order;
      var offset := if st.snapshot.Some? then st.sweepOffset else 0;
      if offset >= |snapshot| then st.(snapshot := None, sweepOffset := 0)
      else
        var end := Min(offset + SWEEP_BATCH_SIZE, |snapshot|);
        var swept := WithoutExpired(st.challenges, Page(snapshot, offset), now);
        if end >= |snapshot| then Store(swept, st.creationsSinceSweep, None, 0)
        else Store(swept, st.creationsSinceSweep, Some(snapshot), end)
  }

  // ----------------------------------------------------------------- operations

  datatype CreateResult = Issued(nonce: string, expiresInMs: int) | StoreFull | InvalidAddress

  /** The sweep that every fiftieth creation runs first. */
  function BeforeCreate(st: Store, now: int, order: seq<Address>): Store {
    if st.creationsSinceSweep + 1 >= SWEEP_INTERVAL
    then Sweep(st.(creationsSinceSweep := 0), now, false, order)
    else st.(creationsSinceSweep := st.creationsSinceSweep + 1)
  }

  function Create(st: Store, address: Option<Address>, now: int, nonce: string, order: seq<Address>)
    : (Store, CreateResult)
  {
    if address == None then (st, InvalidAddress)
    else
      IssueFor(BeforeCreate(st, now, order), address.value, now, nonce, order)
  }

  /** An active nonce is handed out again, with its remaining time. */
  function IssueFor(st: Store, key: Address, now: int, nonce: string, order: seq<Address>): (Store, CreateResult) {
    if key in st.challenges && now <= st.challenges[key].expiresAtMs then
      (st, Issued(st.challenges[key].nonce, st.challenges[key].expiresAtMs - now))
    else Admit(st.(challenges := st.challenges - {key}), key, now, nonce, order)
  }

  /** Issues a new nonce for a key without one, unless the store stays full after a full sweep. */
  function Admit(st: Store, key: Address, now: int, nonce: string, order: seq<Address>): (Store, CreateResult) {
    var st1 := if |st.challenges| >= MAX_CHALLENGES then Sweep(st, now, true, order) else st;
    if |st1.challenges| >= MAX_CHALLENGES then (st1, StoreFull)
    else (st1.(challenges := st1.challenges[key := Record(nonce, now + CHALLENGE_TTL_MS)]),
          Issued(nonce, CHALLENGE_TTL_MS))
  }

  function Get(st: Store, address: Option<Address>, now: int): (Store, Option<Record>) {
    if address == None || address.value !in st.challenges then (st, None)
    else if now > st.challenges[address.value].expiresAtMs then
      (st.(challenges := st.challenges - {address.value}), None)
    else (st, Some(st.challenges[address.value]))
  }

  /** Read and delete in one step. */
  function Consume(st: Store, address: Option<Address>, now: int): (Store, Option<Record>) {
    var (st1, rec) := Get(st, address, now);
    if rec == None then (st1, None)
    else (st1.(challenges := st1.challenges - {address.value}), rec)
  }

  function Restore(st: Store, address: Option<Address>, rec: Record, now: int): (Store, bool) {
    if address == None || now > rec.expiresAtMs || address.value in st.challenges then (st, false)
    else (st.(challenges := st.challenges[address.value := rec]), true)
  }

  function Clear(st: Store, address: Option<Address>): Store {
    if address == None then st else st.(challenges := st.challenges - {address.value})
  }

  /** `trimmed` is the nonce argument, trimmed; empty when it is missing. */
  function Verify(st: Store, address: Option<Address>, trimmed: string, now: int): (Store, Option<Record>) {
    if address == None || trimmed == "" || address.value !in st.challenges
       || st.challenges[address.value].nonce != trimmed then (st, None)
    else Get(st, address, now)
  }

  /** The module state of challenge.ts. */
  class Challenges {
    var challenges: Table
    var creationsSinceSweep: nat
    var sweepKeysSnapshot: Option<seq<Address>>
    var sweepOffset: nat

    function Contents(): Store
      reads this
    {
      Store(challenges, creationsSinceSweep, sweepKeysSnapshot, sweepOffset)
    }

    constructor ()
      ensures Contents() == EMPTY_STORE
    {
      challenges, creationsSinceSweep, sweepKeysSnapshot, sweepOffset := map[], 0, None, 0;
    }

    /** The inspecting loop of both sweeps. */
    method Evict(keys: seq<Address>, from: nat, to: nat, now: int)
      requires from <= to <= |keys|
      modifies this`challenges
      ensures challenges == WithoutExpired(old(challenges), keys[from..to], now)
    {
      var i := from;
      while i < to
        invariant from <= i <= to
        invariant challenges == WithoutExpired(old(challenges), keys[from..i], now)
      {
        var key := keys[i];
        if key in challenges && now > challenges[key].expiresAtMs {
          challenges := challenges - {key};
        }
        assert keys[from..i + 1] == keys[from..i] + [key];
        i := i + 1;
      }
    }

    method SweepExpiredChallenges(now: int, full: bool, order: seq<Address>)
      requires Enumerates(order, challenges)
      modifies this`challenges, this`sweepKeysSnapshot, this`sweepOffset
      ensures Contents() == Sweep(old(Contents()), now, full, order)
    {
      hide WithoutExpired, FullSweep, Enumerates;
      if challenges == map[] {
        sweepKeysSnapshot, sweepOffset := None, 0;
        return;
      }
      if full {
        Evict(order, 0, |order|, now);
        assert order[0..|order|] == order;
        FullSweepInspectsAll(old(challenges), order, now);
        sweepKeysSnapshot, sweepOffset := None, 0;
        return;
      }
      if sweepKeysSnapshot == None {
        sweepKeysSnapshot, sweepOffset := Some(order), 0;
      }
      var snapshot := sweepKeysSnapshot.value;
      if sweepOffset >= |snapshot| {
        sweepKeysSnapshot, sweepOffset := None, 0;
        return;
      }
      var end := Min(sweepOffset + SWEEP_BATCH_SIZE, |snapshot|);
      Evict(snapshot, sweepOffset, end, now);
      sweepOffset := end;
      if sweepOffset >= |snapshot| {
        sweepKeysSnapshot, sweepOffset := None, 0;
      }
    }

    method CreateChallenge(address: Option<Address>, now: int, nonce: string, order: seq<Address>)
      returns (r: CreateResult)
      requires Enumerates(order, challenges)
      modifies this
      ensures (Contents(), r) == Create(old(Contents()), address, now, nonce, order)
    {
      if address == None {
        return InvalidAddress;
      }
      var key := address.value;
      CountCreation(now, order);
      r := Reissue(key, now, nonce, order);
    }

    /** Every fiftieth call sweeps a page first. */
    method CountCreation(now: int, order: seq<Address>)
      requires Enumerates(order, challenges)
      modifies this
      ensures Contents() == BeforeCreate(old(Contents()), now, order)
    {
      creationsSinceSweep := creationsSinceSweep + 1;
      if creationsSinceSweep >= SWEEP_INTERVAL {
        creationsSinceSweep := 0;
        SweepExpiredChallenges(now, false, order);
      }
    }

    /** Returns the active nonce of the key, or makes room and issues a new one. */
    method Reissue(key: Address, now: int, nonce: string, ghost order: seq<Address>) returns (r: CreateResult)
      modifies this
      ensures (Contents(), r) == IssueFor(old(Contents()), key, now, nonce, order)
    {
      if key in challenges {
        var existing := challenges[key];
        if now <= existing.expiresAtMs {
          return Issued(existing.nonce, existing.expiresAtMs - now);
        }
      }
      challenges := challenges - {key};
      r := MakeRoom(key, now, nonce, order);
    }

    /** The size check, the last-resort sweep and the insertion of a new nonce. */
    method MakeRoom(key: Address, now: int, nonce: string, ghost order: seq<Address>) returns (r: CreateResult)
      modifies this
      ensures (Contents(), r) == Admit(old(Contents()), key, now, nonce, order)
    {
      if |challenges| >= MAX_CHALLENGES {
        var keys := SomeOrder();
        SweepExpiredChallenges(now, true, keys);
        if |challenges| >= MAX_CHALLENGES {
          return StoreFull;
        }
      }
      challenges := challenges[key := Record(nonce, now + CHALLENGE_TTL_MS)];
      return Issued(nonce, CHALLENGE_TTL_MS);
    }

    /** Lists the keys of the table. */
    method SomeOrder() returns (order: seq<Address>)
      ensures Enumerates(order, challenges)
    {
      order := [];
      var rest := challenges.Keys;
      while rest != {}
        invariant NoDuplicates(order)
        invariant rest <= challenges.Keys
        invariant forall key :: key in order <==> key in challenges && key !in rest
        decreases rest
      {
        var key :| key in rest;
        order, rest := order + [key], rest - {key};
      }
    }

    method GetChallenge(address: Option<Address>, now: int) returns (rec: Option<Record>)
      modifies this
      ensures (Contents(), rec) == Get(old(Contents()), address, now)
    {
      if address == None || address.value !in challenges {
        return None;
      }
      var found := challenges[address.value];
      if now > found.expiresAtMs {
        challenges := challenges - {address.value};
        return None;
      }
      return Some(found);
    }

    method ClearChallenge(address: Option<Address>)
      modifies this
      ensures Contents() == Clear(old(Contents()), address)
    {
      if address.Some? {
        challenges := challenges - {address.value};
      }
    }

    method ConsumeChallenge(address: Option<Address>, now: int) returns (rec: Option<Record>)
      modifies this
      ensures (Contents(), rec) == Consume(old(Contents()), address, now)
    {
      rec := GetChallenge(address, now);
      if rec.Some? {
        challenges := challenges - {address.value};
      }
    }

    method RestoreChallenge(address: Option<Address>, rec: Record, now: int) returns (restored: bool)
      modifies this
      ensures (Contents(), restored) == Restore(old(Contents()), address, rec, now)
    {
      if address == None {
        return false;
      }
      if now > rec.expiresAtMs {
        return false;
      }
      if address.value in challenges {
        return false;
      }
      challenges := challenges[address.value := Record(rec.nonce, rec.expiresAtMs)];
      return true;
    }

    method VerifyChallenge(address: Option<Address>, nonce: string, now: int) returns (rec: Option<Record>)
      modifies this
      ensures (Contents(), rec) == Verify(old(Contents()), address, nonce, now)
    {
      if address == None || nonce == "" || address.value !in challenges {
        return None;
      }
      var found := challenges[address.value];
      if found.nonce != nonce {
        return None;
      }
      if now > found.expiresAtMs {
        challenges := challenges - {address.value};
        return None;
      }
      return Some(found);
    }
  }

  // ------------------------------------------------- what the operations are for

  /** The address holds a challenge that can still be answered. */
  ghost predicate Active(t: Table, key: Address, now: int) {
    key in t && now <= t[key].expiresAtMs
  }

  /** The challenges of other addresses that can still be answered. */
  ghost function OthersActive(t: Table, key: Address, now: int): set<Address> {
    set other | other in t && other != key && now <= t[other].expiresAtMs
  }

  /** Every active challenge is kept, and nothing that was not there appears. */
  ghost predicate KeepsActive(t: Table, u: Table, now: int) {
    && (forall key | Active(t, key, now) :: key in u && u[key] == t[key])
    && (forall key | key in u :: key in t && u[key] == t[key])
  }

  lemma FullSweepLeavesActive(t: Table, now: int)
    ensures forall key :: key in FullSweep(t, now) <==> Active(t, key, now)
    ensures KeepsActive(t, FullSweep(t, now), now)
  {
  }

  lemma SweepKeepsActive(st: Store, now: int, full: bool, order: seq<Address>)
    ensures KeepsActive(st.challenges, Sweep(st, now, full, order).challenges, now)
  {
  }

  lemma ManyOthers(t: Table, key: Address, now: int)
    requires key !in t
    ensures |OthersActive(t, key, now)| == |FullSweep(t, now)| <= |t|
  {
    assert FullSweep(t, now).Keys == OthersActive(t, key, now);
    SubsetIsSmaller(OthersActive(t, key, now), t.Keys);
  }

  /**
   A challenge is refused exactly when the address is unusable, or when it has none and
   the store is full of active challenges of others.  An active one is handed out again
   with its remaining time; otherwise the new nonce is stored for five minutes.
   */
  lemma ChallengeIsIssued(st: Store, address: Option<Address>, now: int, nonce: string, order: seq<Address>)
    ensures var (u, r) := Create(st, address, now, nonce, order);
            && (r == InvalidAddress <==> address == None)
            && (r == StoreFull <==> && address.Some? && !Active(st.challenges, address.value, now)
                                    && |OthersActive(st.challenges, address.value, now)| >= 100_000)
            && (address.Some? && Active(st.challenges, address.value, now) ==>
                  && r == Issued(st.challenges[address.value].nonce, st.challenges[address.value].expiresAtMs - now)
                  && address.value in u.challenges && u.challenges[address.value] == st.challenges[address.value])
            && (r.Issued? && !Active(st.challenges, address.value, now) ==>
                  && r == Issued(nonce, 300_000)
                  && address.value in u.challenges && u.challenges[address.value] == Record(nonce, now + 300_000))
            && forall other | address != Some(other) ::
                 && (Active(st.challenges, other, now) ==> other in u.challenges)
                 && (other in u.challenges ==> other in st.challenges && u.challenges[other] == st.challenges[other])
  {
    hide IssueFor, Sweep;
    if address.Some? {
      var key, st1 := address.value, BeforeCreate(st, now, order);
      SweepKeepsActive(st.(creationsSinceSweep := 0), now, false, order);
      assert KeepsActive(st.challenges, st1.challenges, now);
      IssueForIssues(st1, key, now, nonce, order);
      assert OthersActive(st1.challenges, key, now) == OthersActive(st.challenges, key, now);
      assert Active(st1.challenges, key, now) <==> Active(st.challenges, key, now);
    }
  }

  lemma IssueForIssues(st: Store, key: Address, now: int, nonce: string, order: seq<Address>)
    ensures var (u, r) := IssueFor(st, key, now, nonce, order);
            && (r == StoreFull <==> !Active(st.challenges, key, now) && |OthersActive(st.challenges, key, now)| >= 100_000)
            && r != InvalidAddress
            && (Active(st.challenges, key, now) ==>
                  u == st && r == Issued(st.challenges[key].nonce, st.challenges[key].expiresAtMs - now))
            && (!Active(st.challenges, key, now) && r.Issued? ==>
                  && r == Issued(nonce, 300_000)
                  && key in u.challenges && u.challenges[key] == Record(nonce, now + 300_000))
            && forall other | other != key ::
                 && (Active(st.challenges, other, now) ==> other in u.challenges)
                 && (other in u.challenges ==> other in st.challenges && u.challenges[other] == st.challenges[other])
  {
    hide Admit;
    if !Active(st.challenges, key, now) {
      var t := st.(challenges := st.challenges - {key});
      AdmitIssues(t, key, now, nonce, order);
      assert OthersActive(t.challenges, key, now) == OthersActive(st.challenges, key, now);
      assert forall other | other != key :: Active(st.challenges, other, now) <==> Active(t.challenges, other, now);
    }
  }

  lemma AdmitIssues(st: Store, key: Address, now: int, nonce: string, order: seq<Address>)
    requires key !in st.challenges
    ensures var (u, r) := Admit(st, key, now, nonce, order);
            && (r == StoreFull <==> |OthersActive(st.challenges, key, now)| >= 100_000)
            && r != InvalidAddress
            && (r.Issued? ==> r == Issued(nonce, 300_000)
                              && key in u.challenges && u.challenges[key] == Record(nonce, now + 300_000))
            && forall other | other != key ::
                 && (Active(st.challenges, other, now) ==> other in u.challenges)
                 && (other in u.challenges ==> other in st.challenges && u.challenges[other] == st.challenges[other])
  {
    ManyOthers(st.challenges, key, now);
    if |st.challenges| >= MAX_CHALLENGES {
      assert st.challenges != map[];
      FullSweepLeavesActive(st.challenges, now);
    }
  }

  /** A challenge that was issued can be taken once, by its address, up to five minutes later; any other address finds what it found. */
  lemma IssuedIsTakenOnce(st: Store, key: Address, now: int, nonce: string, order: seq<Address>, later: int, again: int)
    requires now <= later && !Active(st.challenges, key, now)
    requires Create(st, Some(key), now, nonce, order).1.Issued?
    ensures var u := Create(st, Some(key), now, nonce, order).0;
            var (v, taken) := Consume(u, Some(key), later);
            && taken == (if later <= now + 300_000 then Some(Record(nonce, now + 300_000)) else None)
            && Get(u, Some(key), later).1 == taken
            && Consume(v, Some(key), again).1 == None
            && (taken.Some? ==> Restore(v, Some(key), taken.value, later).1
                                && Get(Restore(v, Some(key), taken.value, later).0, Some(key), later).1 == taken)
  {
    ChallengeIsIssued(st, Some(key), now, nonce, order);
  }

  /** What taking, reading, checking and clearing find and leave, record by record. */
  lemma LookupsFindActive(st: Store, key: Address, nonce: string, now: int)
    ensures var found := if Active(st.challenges, key, now) then Some(st.challenges[key]) else None;
            && Get(st, Some(key), now).1 == Consume(st, Some(key), now).1 == found
            && Verify(st, Some(key), nonce, now).1 == (if found.Some? && nonce != "" && nonce == found.value.nonce then found else None)
    ensures KeepsActive(st.challenges, Get(st, Some(key), now).0.challenges, now)
    ensures KeepsActive(st.challenges, Verify(st, Some(key), nonce, now).0.challenges, now)
    ensures Consume(st, Some(key), now).0.challenges == st.challenges - {key}
    ensures Clear(st, Some(key)).challenges == st.challenges - {key}
  {
  }

  /** A record comes back exactly into an empty slot and within its time, and then alone. */
  lemma RestoredIsFound(st: Store, key: Address, rec: Record, now: int)
    ensures var (u, restored) := Restore(st, Some(key), rec, now);
            && (restored <==> key !in st.challenges && now <= rec.expiresAtMs)
            && u.challenges == if restored then st.challenges[key := rec] else st.challenges
  {
  }

  // --------------------------------------------------------------- sweep cycles

  /** What may happen to the store between two passes of a sweep cycle. */
  datatype Op =
    | CreateOp(address: Option<Address>, nonce: string, order: seq<Address>)
    | GetOp(address: Option<Address>)
    | VerifyOp(address: Option<Address>, nonce: string)
    | ConsumeOp(address: Option<Address>)
    | RestoreOp(address: Option<Address>, rec: Record)
    | ClearOp(address: Option<Address>)

  function ApplyOp(st: Store, op: Op, now: int): Store {
    match op
    case CreateOp(address, nonce, order) => Create(st, address, now, nonce, order).0
    case GetOp(address) => Get(st, address, now).0
    case VerifyOp(address, nonce) => Verify(st, address, nonce, now).0
    case ConsumeOp(address) => Consume(st, address, now).0
    case RestoreOp(address, rec) => Restore(st, address, rec, now).0
    case ClearOp(address) => Clear(st, address)
  }

  /** An operation that runs with the iteration order the store really has. */
  ghost predicate Faithful(st: Store, op: Op) {
    op.CreateOp? ==> Enumerates(op.order, st.challenges)
  }

  /** Records that had expired when the cycle started are in the part not yet inspected. */
  ghost predicate OldInTail(st: Store, startedAt: int) {
    st.snapshot.Some? ==>
      && NoDuplicates(st.snapshot.value)
      && st.sweepOffset < |st.snapshot.value|
      && forall key | key in st.challenges && st.challenges[key].expiresAtMs < startedAt ::
           key in st.snapshot.value[st.sweepOffset..]
  }

  /** Every record left expires at `time` or later. */
  ghost predicate NoneBefore(t: Table, time: int) {
    forall key | key in t :: t[key].expiresAtMs >= time
  }

  /** The snapshot and the offset the next pass works with. */
  function CycleSnapshot(st: Store, order: seq<Address>): seq<Address> {
    if st.snapshot.Some? then st.snapshot.value else order
  }

  function CycleOffset(st: Store): nat {
    if st.snapshot.Some? then st.sweepOffset else 0
  }

  /** A sweep removes only expired records. */
  lemma SweepsOnlyExpired(st: Store, now: int, full: bool, order: seq<Address>)
    ensures var t := Sweep(st, now, full, order).challenges;
            t.Keys <= st.challenges.Keys
            && forall key | key in st.challenges ::
                 if key in t then t[key] == st.challenges[key] else now > st.challenges[key].expiresAtMs
  {
  }

  /** One pass: the cycle goes on behind the inspected page, or ends with nothing old left. */
  lemma PassAdvances(st: Store, startedAt: int, now: int, order: seq<Address>)
    requires st.challenges != map[] && Enumerates(order, st.challenges)
    requires startedAt <= now && OldInTail(st, startedAt)
    ensures var snapshot, offset, t := CycleSnapshot(st, order), CycleOffset(st), Sweep(st, now, false, order);
            && offset < |snapshot| && OldInTail(t, startedAt)
            && (t.snapshot.Some? ==> t.snapshot.value == snapshot && t.sweepOffset == offset + SWEEP_BATCH_SIZE)
            && (t.snapshot == None ==> Page(snapshot, offset) == snapshot[offset..] && NoneBefore(t.challenges, startedAt))
  {
    var snapshot, offset, t := CycleSnapshot(st, order), CycleOffset(st), Sweep(st, now, false, order);
    if st.snapshot == None {
      var key :| key in st.challenges;
      assert key in order;
      assert order[0..] == order;
    }
    var end := Min(offset + SWEEP_BATCH_SIZE, |snapshot|);
    assert snapshot[offset..] == Page(snapshot, offset) + snapshot[end..];
    forall key | key in t.challenges && t.challenges[key].expiresAtMs < startedAt
      ensures key in snapshot[end..]
    {
      assert key in snapshot[offset..];
      assert key !in Page(snapshot, offset);
    }
  }

  /** Issuing a nonce leaves the cycle alone, or sweeps everything. */
  lemma IssueForKeepsTail(st: Store, key: Address, now: int, nonce: string, order: seq<Address>, startedAt: int)
    requires startedAt <= now && OldInTail(st, startedAt)
    ensures var t := IssueFor(st, key, now, nonce, order).0;
            OldInTail(t, startedAt)
            && ((t.snapshot == st.snapshot && t.sweepOffset == st.sweepOffset)
                || (t.snapshot == None && NoneBefore(t.challenges, now)))
  {
  }

  lemma IssueForKeepsUnexpired(st: Store, key: Address, now: int, nonce: string, order: seq<Address>, time: int)
    requires time <= now && NoneBefore(st.challenges, time)
    ensures NoneBefore(IssueFor(st, key, now, nonce, order).0.challenges, time)
  {
  }

  lemma OtherOpsKeepTail(st: Store, op: Op, now: int, startedAt: int)
    requires startedAt <= now && OldInTail(st, startedAt) && !op.CreateOp?
    ensures var t := ApplyOp(st, op, now);
            && t.snapshot == st.snapshot && t.sweepOffset == st.sweepOffset && OldInTail(t, startedAt)
  {
  }

  /**
   A store together with what a watcher of its current cycle has noted: when the
   snapshot was taken, and the keys that passes have inspected since.
   */
  datatype Watched = Watched(store: Store, startedAt: int, inspected: seq<Address>)

  ghost predicate CycleOk(w: Watched, clock: int) {
    && w.startedAt <= clock && OldInTail(w.store, w.startedAt)
    && (w.store.snapshot.Some? ==> w.inspected == w.store.snapshot.value[..w.store.sweepOffset])
  }

  /** Whether a creation runs an opportunistic pass first. */
  predicate RunsPass(st: Store) {
    st.creationsSinceSweep + 1 >= SWEEP_INTERVAL && st.challenges != map[]
  }

  /** What the watcher notes when that pass runs. */
  ghost function Note(w: Watched, now: int, order: seq<Address>): Watched {
    var before := if w.store.snapshot == None then w.(startedAt := now, inspected := []) else w;
    if CycleOffset(w.store) <= |CycleSnapshot(w.store, order)|
    then before.(inspected := before.inspected + Page(CycleSnapshot(w.store, order), CycleOffset(w.store)))
    else before
  }

  ghost function Watch(w: Watched, op: Op, now: int): Watched {
    if op.CreateOp? && op.address.Some? && RunsPass(w.store)
    then Note(w, now, op.order).(store := ApplyOp(w.store, op, now))
    else w.(store := ApplyOp(w.store, op, now))
  }

  /**
   How a cycle ends: nothing that had expired at its start is left, and every
   snapshot key was inspected unless the whole store was cleared of expired
   records at once.
   */
  ghost predicate EndedWell(w: Watched, snapshot: seq<Address>, now: int) {
    && NoneBefore(w.store.challenges, w.startedAt)
    && NoDuplicates(snapshot)
    && (w.inspected == snapshot || NoneBefore(w.store.challenges, now))
  }

  /** The pass itself. */
  lemma PassKeepsCycle(w: Watched, now: int, order: seq<Address>)
    requires CycleOk(w, now) && RunsPass(w.store) && Enumerates(order, w.store.challenges)
    ensures var t := Note(w, now, order).(store := BeforeCreate(w.store, now, order));
            CycleOk(t, now) && (t.store.snapshot == None ==> EndedWell(t, CycleSnapshot(w.store, order), now))
  {
    var noted := Note(w, now, order);
    PassAdvances(w.store.(creationsSinceSweep := 0), noted.startedAt, now, order);
    var snapshot, offset := CycleSnapshot(w.store, order), CycleOffset(w.store);
    var page := Page(snapshot, offset);
    assert snapshot[..offset] + page == snapshot[..offset + |page|];
    assert snapshot[..0] == [] && snapshot[..|snapshot|] == snapshot;
  }

  /** Without a pass the counting leaves the cycle alone, or finds the store empty. */
  lemma NoPassKeepsCycle(w: Watched, now: int, order: seq<Address>)
    requires CycleOk(w, now) && !RunsPass(w.store)
    ensures var t := w.(store := BeforeCreate(w.store, now, order));
            CycleOk(t, now)
            && (w.store.snapshot.Some? && t.store.snapshot == None ==> EndedWell(t, w.store.snapshot.value, now))
  {
  }

  lemma IssueKeepsCycle(w: Watched, snapshot: seq<Address>, now: int, key: Address, nonce: string, order: seq<Address>)
    requires CycleOk(w, now) && NoDuplicates(snapshot)
    ensures var t := w.(store := IssueFor(w.store, key, now, nonce, order).0);
            && CycleOk(t, now)
            && (w.store.snapshot.Some? && t.store.snapshot == None ==> EndedWell(t, snapshot, now))
            && (w.store.snapshot == None && EndedWell(w, snapshot, now) ==> EndedWell(t, snapshot, now))
  {
    IssueForKeepsTail(w.store, key, now, nonce, order, w.startedAt);
    if NoneBefore(w.store.challenges, now) {
      IssueForKeepsUnexpired(w.store, key, now, nonce, order, now);
    }
    if NoneBefore(w.store.challenges, w.startedAt) {
      IssueForKeepsUnexpired(w.store, key, now, nonce, order, w.startedAt);
    }
  }

  /**
   Whatever creates, reads, consumes, restores and clears happen between passes:
   a cycle inspects its snapshot in order, no key twice, and ends well.
   */
  lemma SweepCycle(w: Watched, op: Op, now: int)
    requires CycleOk(w, now) && Faithful(w.store, op)
    ensures CycleOk(Watch(w, op, now), now)
    ensures w.store.snapshot.Some? && Watch(w, op, now).store.snapshot == None ==>
              EndedWell(Watch(w, op, now), w.store.snapshot.value, now)
    ensures op.CreateOp? && op.address.Some? && RunsPass(w.store) && Watch(w, op, now).store.snapshot == None ==>
              EndedWell(Watch(w, op, now), CycleSnapshot(w.store, op.order), now)
  {
    if !op.CreateOp? {
      OtherOpsKeepTail(w.store, op, now, w.startedAt);
    } else if op.address.Some? {
      var st1 := BeforeCreate(w.store, now, op.order);
      if RunsPass(w.store) {
        PassKeepsCycle(w, now, op.order);
        IssueKeepsCycle(Note(w, now, op.order).(store := st1), CycleSnapshot(w.store, op.order), now,
                        op.address.value, op.nonce, op.order);
      } else {
        NoPassKeepsCycle(w, now, op.order);
        IssueKeepsCycle(w.(store := st1), CycleSnapshot(w.store, []), now, op.address.value, op.nonce, op.order);
      }
    }
  }

  /** A run: operations at nondecreasing times, from the empty store. */
  ghost function WatchAll(w: Watched, ops: seq<(Op, int)>): Watched
    decreases |ops|
  {
    if ops == [] then w else WatchAll(Watch(w, ops[0].0, ops[0].1), ops[1..])
  }

  ghost predicate FaithfulRun(w: Watched, clock: int, ops: seq<(Op, int)>)
    decreases |ops|
  {
    ops != [] ==>
      && clock <= ops[0].1 && Faithful(w.store, ops[0].0)
      && FaithfulRun(Watch(w, ops[0].0, ops[0].1), ops[0].1, ops[1..])
  }

  /** So `SweepCycle` applies at every step of every run. */
  lemma {:induction false} EveryRunKeepsCycle(w: Watched, clock: int, ops: seq<(Op, int)>)
    requires CycleOk(w, clock) && FaithfulRun(w, clock, ops)
    ensures CycleOk(WatchAll(w, ops), if ops == [] then clock else ops[|ops| - 1].1)
    decreases |ops|
  {
    if ops == [] {
    } else {
      SweepCycle(w, ops[0].0, ops[0].1);
      EveryRunKeepsCycle(Watch(w, ops[0].0, ops[0].1), ops[0].1, ops[1..]);
    }
  }

  // ------------------------------------------------------------ a cycle comes to an end

  /** The passes a cycle still needs: one for every page of the rest of its snapshot. */
  function PassesLeft(st: Store): nat {
    if st.snapshot.Some? && st.sweepOffset < |st.snapshot.value|
    then (|st.snapshot.value| - st.sweepOffset + SWEEP_BATCH_SIZE - 1) / SWEEP_BATCH_SIZE
    else 0
  }

  predicate IsPass(st: Store, op: Op) {
    op.CreateOp? && op.address.Some? && RunsPass(st)
  }

  lemma PassUsesAPage(st: Store, startedAt: int, now: int, order: seq<Address>)
    requires st.challenges != map[] && Enumerates(order, st.challenges)
    requires startedAt <= now && OldInTail(st, startedAt) && st.snapshot.Some?
    ensures var t := Sweep(st, now, false, order);
            t.snapshot == None || (t.snapshot == st.snapshot && PassesLeft(t) == PassesLeft(st) - 1)
  {
    PassAdvances(st, startedAt, now, order);
  }

  /** Every operation leaves the cycle alone, ends it, or is a pass that brings it a page nearer its end. */
  lemma OperationRunsDown(w: Watched, op: Op, now: int)
    requires CycleOk(w, now) && Faithful(w.store, op) && w.store.snapshot.Some?
    ensures var t := Watch(w, op, now).store;
            || t.snapshot == None
            || (t.snapshot == w.store.snapshot
                && PassesLeft(t) == PassesLeft(w.store) - if IsPass(w.store, op) then 1 else 0)
  {
    if !op.CreateOp? {
      OtherOpsKeepTail(w.store, op, now, w.startedAt);
    } else if op.address.Some? {
      var st1 := BeforeCreate(w.store, now, op.order);
      if RunsPass(w.store) {
        PassUsesAPage(w.store.(creationsSinceSweep := 0), w.startedAt, now, op.order);
        PassKeepsCycle(w, now, op.order);
      } else {
        NoPassKeepsCycle(w, now, op.order);
      }
      IssueForKeepsTail(st1, op.address.value, now, op.nonce, op.order, w.startedAt);
    }
  }

  /** The cycle is under way before and after every operation. */
  ghost predicate StaysUnderWay(w: Watched, ops: seq<(Op, int)>)
    decreases |ops|
  {
    w.store.snapshot.Some? && (ops != [] ==> StaysUnderWay(Watch(w, ops[0].0, ops[0].1), ops[1..]))
  }

  ghost function Passes(w: Watched, ops: seq<(Op, int)>): nat
    decreases |ops|
  {
    if ops == [] then 0
    else (if IsPass(w.store, ops[0].0) then 1 else 0) + Passes(Watch(w, ops[0].0, ops[0].1), ops[1..])
  }

  /** Whatever the run, a cycle that is not over has had fewer passes than its snapshot has pages left. */
  lemma {:induction false} CycleEndsInTime(w: Watched, clock: int, ops: seq<(Op, int)>)
    requires CycleOk(w, clock) && FaithfulRun(w, clock, ops) && StaysUnderWay(w, ops)
    ensures Passes(w, ops) < PassesLeft(w.store)
    decreases |ops|
  {
    if ops == [] {
    } else {
      SweepCycle(w, ops[0].0, ops[0].1);
      OperationRunsDown(w, ops[0].0, ops[0].1);
      CycleEndsInTime(Watch(w, ops[0].0, ops[0].1), ops[0].1, ops[1..]);
    }
  }

  // ------------------------------------------------------- which creations sweep

  /** The store after operations at the times given. */
  ghost function Runs(st: Store, ops: seq<(Op, int)>): Store
    decreases |ops|
  {
    if ops == [] then st else Runs(ApplyOp(st, ops[0].0, ops[0].1), ops[1..])
  }

  /** The creations among them; a malformed address is turned away before it counts. */
  ghost function Creations(ops: seq<(Op, int)>): nat {
    if ops == [] then 0
    else Creations(ops[1..]) + if ops[0].0.CreateOp? && ops[0].0.address.Some? then 1 else 0
  }

  /** Every operation but a creation leaves the count alone, and a creation counts to fifty. */
  lemma CreationCounts(st: Store, op: Op, now: int)
    requires st.creationsSinceSweep < 50
    ensures ApplyOp(st, op, now).creationsSinceSweep
         == (st.creationsSinceSweep + if op.CreateOp? && op.address.Some? then 1 else 0) % 50
  {
    hide IssueFor, Sweep;
    if op.CreateOp? && op.address.Some? {
      SweepKeepsCount(st.(creationsSinceSweep := 0), now, false, op.order);
      IssueForKeepsCount(BeforeCreate(st, now, op.order), op.address.value, now, op.nonce, op.order);
    }
  }

  lemma SweepKeepsCount(st: Store, now: int, full: bool, order: seq<Address>)
    ensures Sweep(st, now, full, order).creationsSinceSweep == st.creationsSinceSweep
  {
  }

  lemma IssueForKeepsCount(st: Store, key: Address, now: int, nonce: string, order: seq<Address>)
    ensures IssueFor(st, key, now, nonce, order).0.creationsSinceSweep == st.creationsSinceSweep
  {
  }

  lemma CountOn(a: nat, b: nat, c: nat)
    ensures ((a + b) % 50 + c) % 50 == (a + (c + b)) % 50
    ensures (a + 1) % 50 == 0 <==> a % 50 == 49
  {
  }

  lemma NoOperation(st: Store)
    ensures Runs(st, []) == st && Creations([]) == 0
  {
  }

  lemma OneOperationMore(st: Store, ops: seq<(Op, int)>)
    requires ops != []
    ensures Runs(st, ops) == Runs(ApplyOp(st, ops[0].0, ops[0].1), ops[1..])
    ensures Creations(ops) == Creations(ops[1..]) + if ops[0].0.CreateOp? && ops[0].0.address.Some? then 1 else 0
  {
    hide ApplyOp;
  }

  lemma {:induction false} CreationsAreCounted(st: Store, ops: seq<(Op, int)>)
    requires st.creationsSinceSweep < 50
    ensures Runs(st, ops).creationsSinceSweep == (st.creationsSinceSweep + Creations(ops)) % 50
    decreases |ops|
  {
    hide ApplyOp, Runs, Creations;
    if ops == [] {
      NoOperation(st);
    } else {
      OneOperationMore(st, ops);
      var t := ApplyOp(st, ops[0].0, ops[0].1);
      CreationCounts(st, ops[0].0, ops[0].1);
      CreationsAreCounted(t, ops[1..]);
      var more := if ops[0].0.CreateOp? && ops[0].0.address.Some? then 1 else 0;
      CountOn(st.creationsSinceSweep, more, Creations(ops[1..]));
    }
  }

  /** What is left to inspect of the snapshot under way, or the whole order if there is none. */
  ghost function ToInspect(st: Store, order: seq<Address>): seq<Address> {
    if st.snapshot.Some? && st.sweepOffset <= |st.snapshot.value| then st.snapshot.value[st.sweepOffset..] else order
  }

  /**
   From the empty store, whatever happened before: the creation of a challenge drops other
   expired records among the first five hundred keys to inspect if it is a fiftieth one,
   and otherwise, unless the store is full, drops none.
   */
  lemma FiftiethCreationSweeps(ops: seq<(Op, int)>, key: Address, now: int, nonce: string, order: seq<Address>, other: Address)
    requires var st := Runs(EMPTY_STORE, ops); Enumerates(order, st.challenges) && other in st.challenges && other != key
    requires var st := Runs(EMPTY_STORE, ops); st.snapshot.Some? ==> st.sweepOffset < |st.snapshot.value|
    ensures var st := Runs(EMPTY_STORE, ops);
            var u, toInspect := Create(st, Some(key), now, nonce, order).0, ToInspect(st, order);
            && ((Creations(ops) + 1) % 50 == 0 && other in toInspect[..Min(500, |toInspect|)] && now > st.challenges[other].expiresAtMs ==>
                  other !in u.challenges)
            && ((Creations(ops) + 1) % 50 != 0 && |st.challenges| < 100_000 ==> other in u.challenges)
  {
    hide Runs, Create, Creations, ToInspect, Enumerates;
    var st := Runs(EMPTY_STORE, ops);
    CreationsAreCounted(EMPTY_STORE, ops);
    CountOn(Creations(ops), 0, 0);
    SweepDropsAPage(st, key, now, nonce, order, other);
  }

  lemma SweepDropsAPage(st: Store, key: Address, now: int, nonce: string, order: seq<Address>, other: Address)
    requires Enumerates(order, st.challenges) && other in st.challenges && other != key
    requires st.snapshot.Some? ==> st.sweepOffset < |st.snapshot.value|
    ensures var u, toInspect := Create(st, Some(key), now, nonce, order).0, ToInspect(st, order);
            && (st.creationsSinceSweep == 49 && other in toInspect[..Min(500, |toInspect|)] && now > st.challenges[other].expiresAtMs ==>
                  other !in u.challenges)
            && (st.creationsSinceSweep < 49 && |st.challenges| < 100_000 ==> other in u.challenges)
  {
    var toInspect := ToInspect(st, order);
    if st.creationsSinceSweep == 49 {
      var snapshot, offset := CycleSnapshot(st, order), CycleOffset(st);
      assert st.snapshot == None ==> other in order;
      assert order[0..] == order;
      assert Page(snapshot, offset) == toInspect[..Min(500, |toInspect|)];
      if other in toInspect[..Min(500, |toInspect|)] && now > st.challenges[other].expiresAtMs {
        IssueForAddsNone(BeforeCreate(st, now, order), key, now, nonce, order, other);
      }
    } else if st.creationsSinceSweep < 49 && |st.challenges| < 100_000 {
      IssueForKeepsOthers(BeforeCreate(st, now, order), key, now, nonce, order, other);
    }
  }

  lemma IssueForAddsNone(st: Store, key: Address, now: int, nonce: string, order: seq<Address>, other: Address)
    requires other != key && other !in st.challenges
    ensures other !in IssueFor(st, key, now, nonce, order).0.challenges
  {
  }

  lemma IssueForKeepsOthers(st: Store, key: Address, now: int, nonce: string, order: seq<Address>, other: Address)
    requires other != key && other in st.challenges && |st.challenges| < 100_000
    ensures other in IssueFor(st, key, now, nonce, order).0.challenges
  {
    SubsetIsSmaller((st.challenges - {key}).Keys, st.challenges.Keys);
  }
}
