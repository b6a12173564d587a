/**
 The in-memory agreement index with reorg rollback (src/starknet/agreement-index.ts),
 for one contract: three mutually redundant maps against the plain list of the
 entries that are live.

 Users are given as canonical addresses; a missing or "0x0" contributor is None.
 */
module AgreementIndex {
  import opened Common

  type Id = string
  type User = string

  datatype Details = Details(status: int, mode: int, totalAmount: string, paidAmount: string)

  /** One call of `addAgreementToIndex`. */
  datatype Entry = Entry(
    id: Id,
    employer: User,
    contributor: Option<User>,
    details: Option<Details>,
    block: Option<int>)

  datatype Metadata = Metadata(employer: User, contributor: Option<User>, details: Details)

  type UserMap = map<User, set<Id>>
  type BlockMap = map<int, set<Id>>

  datatype Index = Index(
    byUser: UserMap,
    agreements: map<Id, Metadata>,
    blockEntries: BlockMap,
    lastSyncedBlock: int)

  const EMPTY_INDEX: Index := Index(map[], map[], map[], 0)

  ghost predicate NoEmptySets<K(!new)>(m: map<K, set<Id>>) {
    forall k | k in m :: m[k] != {}
  }

  ghost predicate Valid(x: Index) {
    && NoEmptySets(x.byUser) && NoEmptySets(x.blockEntries)
    && forall b | b in x.blockEntries :: b <= x.lastSyncedBlock
  }

  // ----------------------------------------------------------------- operations

  function Parties(meta: Metadata): set<User> {
    {meta.employer} + if meta.contributor.Some? then {meta.contributor.value} else {}
  }

  /** Takes an agreement off these users' lists; a list that becomes empty goes. */
  function Drop(m: UserMap, users: set<User>, id: Id): UserMap {
    map u | u in m && !(u in users && m[u] - {id} == {}) :: if u in users then m[u] - {id} else m[u]
  }

  function Put<K>(m: map<K, set<Id>>, k: K, id: Id): map<K, set<Id>> {
    m[k := (if k in m then m[k] else {}) + {id}]
  }

  function Add(x: Index, e: Entry): Index {
    var byUser := Put(x.byUser, e.employer, e.id);
    Index(
      if e.contributor.Some? then Put(byUser, e.contributor.value, e.id) else byUser,
      if e.details.Some? then x.agreements[e.id := Metadata(e.employer, e.contributor, e.details.value)]
      else x.agreements,
      if e.block.Some? then Put(x.blockEntries, e.block.value, e.id) else x.blockEntries,
      if e.block.Some? then Max(e.block.value, x.lastSyncedBlock) else x.lastSyncedBlock)
  }

  /** Removing agreement `id` takes it off this user's list. */
  predicate Unlists(x: Index, id: Id, u: User) {
    id in x.agreements ==> u in Parties(x.agreements[id])
  }

  /** What is left of a user's list once the agreements of `ids` have been removed one by one. */
  function Remaining(x: Index, ids: set<Id>, u: User): set<Id>
    requires u in x.byUser
  {
    set id | id in x.byUser[u] && !(id in ids && Unlists(x, id, u))
  }

  function Unlisted(x: Index, ids: set<Id>): UserMap {
    map u | u in x.byUser && Remaining(x, ids, u) != {} :: Remaining(x, ids, u)
  }

  function RemoveBlock(x: Index, b: int): Index {
    if b !in x.blockEntries then x
    else
      var ids := x.blockEntries[b];
      x.(byUser := Unlisted(x, ids), agreements := x.agreements - ids, blockEntries := x.blockEntries - {b})
  }

  /** The agreements recorded at one of these blocks, and those recorded at two. */
  function IdsAt(x: Index, blocks: set<int>): set<Id> {
    set b, id | b in blocks && b in x.blockEntries && id in x.blockEntries[b] :: id
  }

  ghost predicate AtTwo(x: Index, blocks: set<int>, id: Id) {
    exists b, c :: b in blocks && c in blocks && b != c && b in x.blockEntries && c in x.blockEntries
                && id in x.blockEntries[b] && id in x.blockEntries[c]
  }

  /**
   The effect of removing a set of blocks in any order.  The second removal of an
   agreement finds no metadata and scans every list.
   */
  ghost function Surviving(x: Index, blocks: set<int>, u: User): set<Id>
    requires u in x.byUser
  {
    set id | id in x.byUser[u] && !(id in IdsAt(x, blocks) && (Unlists(x, id, u) || AtTwo(x, blocks, id)))
  }

  ghost function RemoveBlocks(x: Index, blocks: set<int>): Index {
    x.(byUser := map u | u in x.byUser && Surviving(x, blocks, u) != {} :: Surviving(x, blocks, u),
       agreements := x.agreements - IdsAt(x, blocks),
       blockEntries := x.blockEntries - blocks)
  }

  function BlocksAbove(x: Index, safeBlock: int): set<int> {
    set b | b in x.blockEntries && b > safeBlock
  }

  ghost function Rollback(x: Index, safeBlock: int): Index {
    if safeBlock >= x.lastSyncedBlock then x
    else RemoveBlocks(x, BlocksAbove(x, safeBlock)).(lastSyncedBlock := safeBlock)
  }

  /** The blocks within `depth` of the head; None before the first sync. */
  function PendingRange(x: Index, depth: nat): Option<(int, int)> {
    if x.lastSyncedBlock == 0 then None
    else Some((Max(1, x.lastSyncedBlock - depth + 1), x.lastSyncedBlock))
  }

  class AgreementStore {
    var byUser: UserMap
    var agreements: map<Id, Metadata>
    var blockEntries: BlockMap
    var lastSyncedBlock: int

    function Contents(): Index
      reads this
    {
      Index(byUser, agreements, blockEntries, lastSyncedBlock)
    }

    constructor ()
      ensures Contents() == EMPTY_INDEX && Valid(Contents())
    {
      byUser, agreements, blockEntries, lastSyncedBlock := map[], map[], map[], 0;
    }

    method AddAgreementToIndex(e: Entry)
      requires Valid(Contents())
      modifies this
      ensures Contents() == Add(old(Contents()), e) && Valid(Contents())
    {
      List(e.employer, e.id);
      if e.contributor.Some? {
        List(e.contributor.value, e.id);
      }
      if e.details.Some? {
        agreements := agreements[e.id := Metadata(e.employer, e.contributor, e.details.value)];
      }
      if e.block.Some? {
        Track(e.block.value, e.id);
      }
    }

    method List(u: User, id: Id)
      modifies this`byUser
      ensures byUser == Put(old(byUser), u, id)
    {
      if u !in byUser {
        byUser := byUser[u := {}];
      }
      byUser := byUser[u := byUser[u] + {id}];
    }

    method Track(b: int, id: Id)
      modifies this`blockEntries, this`lastSyncedBlock
      ensures blockEntries == Put(old(blockEntries), b, id)
      ensures lastSyncedBlock == Max(b, old(lastSyncedBlock))
    {
      if b !in blockEntries {
        blockEntries := blockEntries[b := {}];
      }
      blockEntries := blockEntries[b := blockEntries[b] + {id}];
      if b > lastSyncedBlock {
        lastSyncedBlock := b;
      }
    }

    /** Whatever plain list of entries the index mirrors: the ids of those that name the user. */
    method GetUserAgreements(u: User) returns (ids: set<Id>)
      ensures forall id :: id in ids <==> u in byUser && id in byUser[u]
      ensures forall live :: Mirrors(Contents(), live) ==> ids == IdsOf(live, u)
    {
      ids := if u in byUser then byUser[u] else {};
    }

    /** Takes the agreement off one list and drops the list when it is empty. */
    method Unlist(u: User, id: Id)
      requires NoEmptySets(byUser)
      modifies this`byUser
      ensures NoEmptySets(byUser) && byUser == Drop(old(byUser), {u}, id)
    {
      if u in byUser {
        byUser := byUser[u := byUser[u] - {id}];
        if byUser[u] == {} {
          byUser := byUser - {u};
        }
      }
    }

    /** No metadata: takes the agreement off every list, then drops the empty ones. */
    method UnlistEverywhere(id: Id)
      requires NoEmptySets(byUser)
      modifies this`byUser
      ensures NoEmptySets(byUser) && byUser == Drop(old(byUser), old(byUser).Keys, id)
    {
      var users := byUser.Keys;
      var rest := users;
      while rest != {}
        invariant rest <= users == byUser.Keys == old(byUser).Keys
        invariant forall v | v in users :: byUser[v] == if v in rest then old(byUser)[v] else old(byUser)[v] - {id}
        decreases rest
      {
        var u :| u in rest;
        byUser, rest := byUser[u := byUser[u] - {id}], rest - {u};
      }
      rest := users;
      while rest != {}
        invariant rest <= users == old(byUser).Keys
        invariant forall v :: v in byUser <==> v in users && (v in rest || old(byUser)[v] - {id} != {})
        invariant forall v | v in byUser :: byUser[v] == old(byUser)[v] - {id}
        decreases rest
      {
        var u :| u in rest;
        if byUser[u] == {} {
          byUser := byUser - {u};
        }
        rest := rest - {u};
      }
    }

    method RemoveAgreementsAtBlock(b: int)
      requires Valid(Contents())
      modifies this
      ensures Contents() == RemoveBlock(old(Contents()), b) && Valid(Contents())
    {
      if b !in blockEntries || blockEntries[b] == {} {
        return;
      }
      ghost var x := Contents();
      var ids := blockEntries[b];
      var rest := ids;
      UnlistedNone(x);
      assert ids - rest == {};
      while rest != {}
        invariant rest <= ids == x.blockEntries[b]
        invariant byUser == Unlisted(x, ids - rest) && NoEmptySets(byUser)
        invariant agreements == x.agreements - (ids - rest)
        invariant blockEntries == x.blockEntries && lastSyncedBlock == x.lastSyncedBlock
        decreases rest
      {
        var id :| id in rest;
        ghost var before, done := byUser, ids - rest;
        if id in agreements {
          var meta := agreements[id];
          Unlist(meta.employer, id);
          if meta.contributor.Some? {
            Unlist(meta.contributor.value, id);
          }
          if meta.contributor.Some? {
            DropTwice(before, meta, id);
          }
          agreements := agreements - {id};
        } else {
          UnlistEverywhere(id);
        }
        UnlistedOneMore(x, done, id, before);
        rest := rest - {id};
        assert ids - rest == done + {id};
      }
      assert ids - rest == ids;
      blockEntries := blockEntries - {b};
    }

    method RollbackToBlock(safeBlock: int)
      requires Valid(Contents())
      modifies this
      ensures Contents() == Rollback(old(Contents()), safeBlock) && Valid(Contents())
    {
      if safeBlock >= lastSyncedBlock {
        return;
      }
      ghost var x := Contents();
      var above := BlocksAbove(Contents(), safeBlock);
      var blocksToRemove := above;
      NothingRemoved(x);
      assert above - blocksToRemove == {};
      while blocksToRemove != {}
        invariant blocksToRemove <= above == BlocksAbove(x, safeBlock)
        invariant Contents() == RemoveBlocks(x, above - blocksToRemove) && Valid(Contents())
        decreases blocksToRemove
      {
        var b :| b in blocksToRemove;
        ghost var done := above - blocksToRemove;
        RemoveBlocksOneMore(x, done, b);
        RemoveAgreementsAtBlock(b);
        blocksToRemove := blocksToRemove - {b};
        assert above - blocksToRemove == done + {b};
      }
      assert above - blocksToRemove == above;
      lastSyncedBlock := safeBlock;
    }

    method GetPendingBlockRange(depth: nat) returns (range: Option<(int, int)>)
      ensures range == PendingRange(Contents(), depth)
    {
      if lastSyncedBlock == 0 {
        return None;
      }
      return Some((Max(1, lastSyncedBlock - depth + 1), lastSyncedBlock));
    }
  }

  lemma DropTwice(m: UserMap, meta: Metadata, id: Id)
    requires meta.contributor.Some?
    ensures Drop(Drop(m, {meta.employer}, id), {meta.contributor.value}, id) == Drop(m, Parties(meta), id)
  {
    var e, c := meta.employer, meta.contributor.value;
    assert forall u :: u in Parties(meta) <==> u == e || u == c;
    assert forall u | u in m :: m[u] - {id} - {id} == m[u] - {id};
  }

  lemma UnlistedNone(x: Index)
    requires NoEmptySets(x.byUser)
    ensures Unlisted(x, {}) == x.byUser
  {
    forall u | u in x.byUser ensures Remaining(x, {}, u) == x.byUser[u] {
    }
  }

  lemma UnlistedOneMore(x: Index, done: set<Id>, id: Id, before: UserMap)
    requires id !in done && before == Unlisted(x, done)
    ensures Drop(before, if id in x.agreements then Parties(x.agreements[id]) else before.Keys, id)
         == Unlisted(x, done + {id})
  {
    forall u | u in x.byUser
      ensures Remaining(x, done + {id}, u) ==
              if Unlists(x, id, u) then Remaining(x, done, u) - {id} else Remaining(x, done, u)
    {
    }
  }

  // ------------------------------------------------- removing blocks in any order

  lemma NothingRemoved(x: Index)
    requires Valid(x)
    ensures RemoveBlocks(x, {}) == x
  {
    assert forall u | u in x.byUser :: Surviving(x, {}, u) == x.byUser[u];
    assert x.agreements - IdsAt(x, {}) == x.agreements;
    assert x.blockEntries - {} == x.blockEntries;
  }

  lemma RemoveBlocksOneMore(x: Index, done: set<int>, b: int)
    requires Valid(x) && b !in done && b in x.blockEntries
    ensures RemoveBlock(RemoveBlocks(x, done), b) == RemoveBlocks(x, done + {b})
  {
    RemoveBlockIsRemoveBlocks(RemoveBlocks(x, done), b);
    RemoveBlocksCompose(x, done, {b});
  }

  lemma RemoveBlockIsRemoveBlocks(x: Index, b: int)
    requires b in x.blockEntries
    ensures RemoveBlock(x, b) == RemoveBlocks(x, {b})
  {
    assert IdsAt(x, {b}) == x.blockEntries[b];
    assert forall u | u in x.byUser :: Surviving(x, {b}, u) == Remaining(x, x.blockEntries[b], u);
  }

  lemma IdsAtUnion(x: Index, a: set<int>, b: set<int>)
    ensures IdsAt(x, a + b) == IdsAt(x, a) + IdsAt(x, b)
  {
  }

  /** Removing blocks `a`, then blocks `b`, is removing all of them. */
  lemma RemoveBlocksCompose(x: Index, a: set<int>, b: set<int>)
    requires a !! b
    ensures RemoveBlocks(RemoveBlocks(x, a), b) == RemoveBlocks(x, a + b)
  {
    var y := RemoveBlocks(x, a);
    IdsAtUnion(x, a, b);
    assert IdsAt(y, b) == IdsAt(x, b) by {
      assert forall c | c in b :: c in y.blockEntries <==> c in x.blockEntries;
    }
    forall u | u in x.byUser
      ensures u in y.byUser ==> Surviving(y, b, u) == Surviving(x, a + b, u)
      ensures u !in y.byUser ==> Surviving(x, a + b, u) == {}
    {
      forall id | id in x.byUser[u]
        ensures id in Surviving(x, a + b, u) <==> u in y.byUser && id in Surviving(y, b, u)
      {
        SurvivesBoth(x, a, b, u, id);
      }
    }
    assert x.blockEntries - a - b == x.blockEntries - (a + b);
    assert x.agreements - IdsAt(x, a) - IdsAt(x, b) == x.agreements - (IdsAt(x, a) + IdsAt(x, b));
  }

  lemma SurvivesBoth(x: Index, a: set<int>, b: set<int>, u: User, id: Id)
    requires a !! b && u in x.byUser && id in x.byUser[u]
    ensures var y := RemoveBlocks(x, a);
            id in Surviving(x, a + b, u) <==> u in y.byUser && id in Surviving(y, b, u)
  {
    var y := RemoveBlocks(x, a);
    IdsAtUnion(x, a, b);
    assert forall c | c in b :: c in y.blockEntries <==> c in x.blockEntries;
    assert id in IdsAt(y, b) <==> id in IdsAt(x, b) by {
      if id in IdsAt(x, b) {
        var c :| c in b && c in x.blockEntries && id in x.blockEntries[c];
        assert c in y.blockEntries && id in y.blockEntries[c];
      }
    }
    assert AtTwo(x, a + b, id) <==> AtTwo(x, a, id) || AtTwo(x, b, id) || (id in IdsAt(x, a) && id in IdsAt(x, b)) by {
      TwoOfUnion(x, a, b, id);
    }
    assert AtTwo(y, b, id) <==> AtTwo(x, b, id);
    assert u in y.byUser && id in y.byUser[u] <==> id in Surviving(x, a, u);
  }

  lemma TwoOfUnion(x: Index, a: set<int>, b: set<int>, id: Id)
    requires a !! b
    ensures AtTwo(x, a + b, id) <==> AtTwo(x, a, id) || AtTwo(x, b, id) || (id in IdsAt(x, a) && id in IdsAt(x, b))
  {
    if id in IdsAt(x, a) && id in IdsAt(x, b) {
      var c :| c in a && c in x.blockEntries && id in x.blockEntries[c];
      var d :| d in b && d in x.blockEntries && id in x.blockEntries[d];
      assert c in a + b && d in a + b && c != d;
    }
  }

  // ---------------------------------------------------------- rollbacks compose

  lemma RemoveBlocksKeepsValid(x: Index, blocks: set<int>)
    requires Valid(x)
    ensures Valid(RemoveBlocks(x, blocks))
  {
  }

  lemma RollbackKeepsValid(x: Index, safeBlock: int)
    requires Valid(x)
    ensures Valid(Rollback(x, safeBlock))
    ensures Rollback(x, safeBlock).lastSyncedBlock == Min(safeBlock, x.lastSyncedBlock)
    ensures Rollback(x, safeBlock).blockEntries == x.blockEntries - BlocksAbove(x, safeBlock)
  {
    assert safeBlock >= x.lastSyncedBlock ==> BlocksAbove(x, safeBlock) == {};
  }

  lemma RemoveBlocksIgnoresHead(x: Index, blocks: set<int>, head: int)
    ensures RemoveBlocks(x.(lastSyncedBlock := head), blocks) == RemoveBlocks(x, blocks).(lastSyncedBlock := head)
  {
    var y := x.(lastSyncedBlock := head);
    assert IdsAt(y, blocks) == IdsAt(x, blocks);
    assert forall u | u in x.byUser :: Surviving(y, blocks, u) == Surviving(x, blocks, u);
  }

  /** Rolling back twice is rolling back to the lower of the two blocks. */
  lemma RollbacksCompose(x: Index, a: int, b: int)
    requires Valid(x)
    ensures Rollback(Rollback(x, a), b) == Rollback(x, Min(a, b))
  {
    RollbackKeepsValid(x, a);
    if a < x.lastSyncedBlock && b < a {
      var y := Rollback(x, a);
      var above := BlocksAbove(x, a);
      assert BlocksAbove(y, b) !! above && BlocksAbove(x, b) == above + BlocksAbove(y, b);
      RemoveBlocksCompose(x, above, BlocksAbove(y, b));
      RemoveBlocksIgnoresHead(RemoveBlocks(x, above), BlocksAbove(y, b), a);
    }
  }

  /** Rolling back to just below the pending range drops exactly the pending blocks. */
  lemma RollbackDropsPending(x: Index, depth: nat)
    requires Valid(x) && PendingRange(x, depth).Some?
    ensures var (from, to) := PendingRange(x, depth).value;
            Rollback(x, from - 1).blockEntries.Keys == x.blockEntries.Keys - (set b | b in x.blockEntries && from <= b <= to)
  {
    RollbackKeepsValid(x, PendingRange(x, depth).value.0 - 1);
  }


  // --------------------------------------------------- the index as a plain list

  predicate Involves(e: Entry, u: User) {
    e.employer == u || e.contributor == Some(u)
  }

  ghost function Users(live: seq<Entry>): set<User> {
    (set e | e in live :: e.employer) + (set e | e in live && e.contributor.Some? :: e.contributor.value)
  }

  ghost function IdsOf(live: seq<Entry>, u: User): set<Id> {
    set e | e in live && Involves(e, u) :: e.id
  }

  ghost function IdsIn(live: seq<Entry>, b: int): set<Id> {
    set e | e in live && e.block == Some(b) :: e.id
  }

  /** The metadata of the last entry that carried some. */
  ghost function MetadataOf(live: seq<Entry>, id: Id): Option<Metadata> {
    if live == [] then None
    else
      var last := live[|live| - 1];
      if last.id == id && last.details.Some?
      then Some(Metadata(last.employer, last.contributor, last.details.value))
      else MetadataOf(live[..|live| - 1], id)
  }

  /** What the three maps must say about the live entries. */
  ghost predicate Reflects(x: Index, live: seq<Entry>) {
    && x.byUser.Keys == Users(live)
    && (forall u | u in x.byUser :: x.byUser[u] == IdsOf(live, u))
    && (forall id :: if id in x.agreements then MetadataOf(live, id) == Some(x.agreements[id])
                     else MetadataOf(live, id) == None)
    && (forall b :: b in x.blockEntries <==> IdsIn(live, b) != {})
    && (forall b | b in x.blockEntries :: x.blockEntries[b] == IdsIn(live, b))
  }

  ghost predicate Mirrors(x: Index, live: seq<Entry>) {
    Valid(x) && Reflects(x, live)
  }

  /** Live entries of one agreement agree on its parties and on its block. */
  ghost predicate Agree(live: seq<Entry>) {
    forall e, f | e in live && f in live && e.id == f.id ::
      e.employer == f.employer && e.contributor == f.contributor && e.block == f.block
  }

  predicate Outside(e: Entry, blocks: set<int>) {
    e.block == None || e.block.value !in blocks
  }

  ghost function Keep(live: seq<Entry>, blocks: set<int>): seq<Entry> {
    if live == [] then []
    else
      var last := live[|live| - 1];
      Keep(live[..|live| - 1], blocks) + if Outside(last, blocks) then [last] else []
  }

  lemma {:induction false} KeepElements(live: seq<Entry>, blocks: set<int>, e: Entry)
    ensures e in Keep(live, blocks) <==> e in live && Outside(e, blocks)
  {
    if live == [] {
    } else {
      KeepElements(live[..|live| - 1], blocks, e);
      assert live == live[..|live| - 1] + [live[|live| - 1]];
    }
  }

  ghost predicate ReflectsUsers(m: UserMap, live: seq<Entry>) {
    m.Keys == Users(live) && forall u | u in m :: m[u] == IdsOf(live, u)
  }

  lemma AddedUsers(live: seq<Entry>, e: Entry)
    ensures Users(live + [e]) == Users(live) + {e.employer} + if e.contributor.Some? then {e.contributor.value} else {}
  {
    assert forall f :: f in live + [e] <==> f in live || f == e;
  }

  lemma AddedIds(live: seq<Entry>, e: Entry, u: User)
    ensures IdsOf(live + [e], u) == IdsOf(live, u) + if Involves(e, u) then {e.id} else {}
    ensures u !in Users(live) ==> IdsOf(live, u) == {}
  {
    assert forall f :: f in live + [e] <==> f in live || f == e;
  }

  lemma AddReflectsUsers(x: Index, live: seq<Entry>, e: Entry)
    requires ReflectsUsers(x.byUser, live)
    ensures ReflectsUsers(Add(x, e).byUser, live + [e])
  {
    AddedUsers(live, e);
    forall u | u in Add(x, e).byUser ensures Add(x, e).byUser[u] == IdsOf(live + [e], u) {
      AddedIds(live, e, u);
    }
  }

  lemma AddReflectsBlocks(x: Index, live: seq<Entry>, e: Entry, b: int)
    requires b in x.blockEntries <==> IdsIn(live, b) != {}
    requires b in x.blockEntries ==> x.blockEntries[b] == IdsIn(live, b)
    ensures b in Add(x, e).blockEntries <==> IdsIn(live + [e], b) != {}
    ensures b in Add(x, e).blockEntries ==> Add(x, e).blockEntries[b] == IdsIn(live + [e], b)
  {
    assert forall f :: f in live + [e] <==> f in live || f == e;
    assert IdsIn(live + [e], b) == IdsIn(live, b) + if e.block == Some(b) then {e.id} else {};
  }

  lemma AddReflects(x: Index, live: seq<Entry>, e: Entry)
    requires Reflects(x, live)
    ensures Reflects(Add(x, e), live + [e])
  {
    AddReflectsUsers(x, live, e);
    forall b ensures b in Add(x, e).blockEntries <==> IdsIn(live + [e], b) != {}
      ensures b in Add(x, e).blockEntries ==> Add(x, e).blockEntries[b] == IdsIn(live + [e], b)
    {
      AddReflectsBlocks(x, live, e, b);
    }
    assert (live + [e])[..|live|] == live;
  }

  /** Under agreement an entry is kept exactly when its agreement is not recorded at a removed block. */
  lemma KeptTogether(x: Index, live: seq<Entry>, blocks: set<int>, e: Entry)
    requires Reflects(x, live) && Agree(live) && e in live
    ensures Outside(e, blocks) <==> e.id !in IdsAt(x, blocks)
    ensures !AtTwo(x, blocks, e.id)
    ensures forall u | Involves(e, u) :: Unlists(x, e.id, u)
  {
    if !Outside(e, blocks) {
      assert e.id in IdsIn(live, e.block.value);
    }
    forall b | b in x.blockEntries && e.id in x.blockEntries[b] ensures e.block == Some(b) {
      var f :| f in live && f.block == Some(b) && f.id == e.id;
    }
    if e.id in x.agreements {
      MetadataFromEntry(live, e.id);
    }
  }

  lemma {:induction false} MetadataFromEntry(live: seq<Entry>, id: Id)
    requires MetadataOf(live, id).Some?
    ensures exists f :: f in live && f.id == id && f.details.Some?
                     && MetadataOf(live, id) == Some(Metadata(f.employer, f.contributor, f.details.value))
  {
    var last := live[|live| - 1];
    assert last in live;
    if !(last.id == id && last.details.Some?) {
      MetadataFromEntry(live[..|live| - 1], id);
    }
  }

  /** Filtering out an agreement loses its metadata; filtering others leaves it. */
  lemma {:induction false} KeepMetadata(live: seq<Entry>, blocks: set<int>, id: Id, kept: bool)
    requires forall e | e in live && e.id == id :: Outside(e, blocks) == kept
    ensures MetadataOf(Keep(live, blocks), id) == if kept then MetadataOf(live, id) else None
  {
    if live == [] {
    } else {
      var init, last := live[..|live| - 1], live[|live| - 1];
      assert last in live && forall e | e in init :: e in live;
      KeepMetadata(init, blocks, id, kept);
      if Outside(last, blocks) {
        var all := Keep(init, blocks) + [last];
        assert all[..|all| - 1] == Keep(init, blocks);
      } else {
        assert Keep(init, blocks) + [] == Keep(init, blocks);
      }
    }
  }

  lemma SurvivingReflects(x: Index, live: seq<Entry>, blocks: set<int>, u: User)
    requires Reflects(x, live) && Agree(live) && u in x.byUser
    ensures Surviving(x, blocks, u) == IdsOf(Keep(live, blocks), u)
  {
    forall id ensures id in Surviving(x, blocks, u) <==> id in IdsOf(Keep(live, blocks), u) {
      if id in x.byUser[u] {
        var e :| e in live && Involves(e, u) && e.id == id;
        KeptTogether(x, live, blocks, e);
        KeepElements(live, blocks, e);
      }
      if id in IdsOf(Keep(live, blocks), u) {
        var e :| e in Keep(live, blocks) && Involves(e, u) && e.id == id;
        KeepElements(live, blocks, e);
        KeptTogether(x, live, blocks, e);
      }
    }
  }

  lemma KeptUsers(x: Index, live: seq<Entry>, blocks: set<int>, u: User)
    requires Reflects(x, live)
    ensures u in Users(Keep(live, blocks)) <==> u in x.byUser && IdsOf(Keep(live, blocks), u) != {}
  {
    var kept := Keep(live, blocks);
    if u in Users(kept) {
      var e :| e in kept && Involves(e, u);
      KeepElements(live, blocks, e);
      assert e.id in IdsOf(kept, u);
    }
  }

  lemma KeptBlocks(live: seq<Entry>, blocks: set<int>, b: int)
    ensures IdsIn(Keep(live, blocks), b) == if b in blocks then {} else IdsIn(live, b)
  {
    forall e ensures e in Keep(live, blocks) <==> e in live && Outside(e, blocks) {
      KeepElements(live, blocks, e);
    }
  }

  lemma KeptAgreement(x: Index, live: seq<Entry>, blocks: set<int>, id: Id)
    requires Reflects(x, live) && Agree(live)
    ensures MetadataOf(Keep(live, blocks), id) == if id in IdsAt(x, blocks) then None else MetadataOf(live, id)
  {
    forall e | e in live && e.id == id ensures Outside(e, blocks) == (id !in IdsAt(x, blocks)) {
      KeptTogether(x, live, blocks, e);
    }
    KeepMetadata(live, blocks, id, id !in IdsAt(x, blocks));
  }

  /** Removing blocks leaves the index of the entries outside those blocks. */
  lemma RemoveBlocksReflects(x: Index, live: seq<Entry>, blocks: set<int>)
    requires Reflects(x, live) && Agree(live)
    ensures Reflects(RemoveBlocks(x, blocks), Keep(live, blocks))
    ensures Agree(Keep(live, blocks))
  {
    var y, kept := RemoveBlocks(x, blocks), Keep(live, blocks);
    forall e ensures e in kept ==> e in live {
      KeepElements(live, blocks, e);
    }
    forall u ensures u in y.byUser <==> u in Users(kept)
      ensures u in y.byUser ==> y.byUser[u] == IdsOf(kept, u)
    {
      KeptUsers(x, live, blocks, u);
      if u in x.byUser { SurvivingReflects(x, live, blocks, u); }
    }
    forall id ensures if id in y.agreements then MetadataOf(kept, id) == Some(y.agreements[id])
                      else MetadataOf(kept, id) == None
    {
      KeptAgreement(x, live, blocks, id);
    }
    forall b ensures b in y.blockEntries <==> IdsIn(kept, b) != {}
      ensures b in y.blockEntries ==> y.blockEntries[b] == IdsIn(kept, b)
    {
      KeptBlocks(live, blocks, b);
    }
  }

  // ------------------------------------------------------------------ whole runs

  datatype Op = AddOp(e: Entry) | RemoveOp(block: int) | RollbackOp(safeBlock: int)

  ghost function Apply(x: Index, op: Op): Index {
    match op
    case AddOp(e) => Add(x, e)
    case RemoveOp(block) => RemoveBlock(x, block)
    case RollbackOp(safeBlock) => Rollback(x, safeBlock)
  }

  /** The live entries after the operation: removal and rollback forget those of the dropped blocks. */
  ghost function LiveAfter(x: Index, live: seq<Entry>, op: Op): seq<Entry> {
    match op
    case AddOp(e) => live + [e]
    case RemoveOp(block) => Keep(live, {block})
    case RollbackOp(safeBlock) => Keep(live, BlocksAbove(x, safeBlock))
  }

  ghost function Run(x: Index, ops: seq<Op>): Index
    decreases |ops|
  {
    if ops == [] then x else Run(Apply(x, ops[0]), ops[1..])
  }

  ghost function Live(x: Index, live: seq<Entry>, ops: seq<Op>): seq<Entry>
    decreases |ops|
  {
    if ops == [] then live else Live(Apply(x, ops[0]), LiveAfter(x, live, ops[0]), ops[1..])
  }

  ghost predicate AlwaysAgree(x: Index, live: seq<Entry>, ops: seq<Op>)
    decreases |ops|
  {
    Agree(live) && (ops != [] ==> AlwaysAgree(Apply(x, ops[0]), LiveAfter(x, live, ops[0]), ops[1..]))
  }

  lemma RemoveReflects(x: Index, live: seq<Entry>, block: int)
    requires Valid(x) && Reflects(x, live) && Agree(live)
    ensures Mirrors(RemoveBlock(x, block), Keep(live, {block}))
  {
    RemoveBlocksReflects(x, live, {block});
    RemoveBlocksKeepsValid(x, {block});
    if block in x.blockEntries {
      RemoveBlockIsRemoveBlocks(x, block);
    } else {
      RemovingNothing(x, {block});
    }
  }

  lemma ReflectsIgnoresHead(x: Index, live: seq<Entry>, head: int)
    requires Reflects(x, live)
    ensures Reflects(x.(lastSyncedBlock := head), live)
  {
  }

  lemma RollbackReflects(x: Index, live: seq<Entry>, safeBlock: int)
    requires Valid(x) && Reflects(x, live) && Agree(live)
    ensures Mirrors(Rollback(x, safeBlock), Keep(live, BlocksAbove(x, safeBlock)))
  {
    RollbackKeepsValid(x, safeBlock);
    var above := BlocksAbove(x, safeBlock);
    RemoveBlocksReflects(x, live, above);
    if safeBlock >= x.lastSyncedBlock {
      RemovingNothing(x, above);
    } else {
      ReflectsIgnoresHead(RemoveBlocks(x, above), Keep(live, above), safeBlock);
    }
  }

  lemma AddKeepsValid(x: Index, e: Entry)
    requires Valid(x)
    ensures Valid(Add(x, e))
  {
  }

  lemma AddMirrors(x: Index, live: seq<Entry>, e: Entry)
    requires Mirrors(x, live)
    ensures Mirrors(Add(x, e), live + [e])
  {
    AddReflects(x, live, e);
    AddKeepsValid(x, e);
  }

  lemma StepReflects(x: Index, live: seq<Entry>, op: Op)
    requires Mirrors(x, live) && Agree(live)
    ensures Mirrors(Apply(x, op), LiveAfter(x, live, op))
  {
    match op
    case AddOp(e) => AddMirrors(x, live, e);
    case RemoveOp(block) => RemoveReflects(x, live, block);
    case RollbackOp(safeBlock) => RollbackReflects(x, live, safeBlock);
  }

  lemma RemovingNothing(x: Index, blocks: set<int>)
    requires Valid(x) && blocks !! x.blockEntries.Keys
    ensures RemoveBlocks(x, blocks) == x
  {
    assert IdsAt(x, blocks) == {};
    assert forall u | u in x.byUser :: Surviving(x, blocks, u) == x.byUser[u];
    assert x.agreements - {} == x.agreements;
    assert x.blockEntries - blocks == x.blockEntries;
  }

  /**
   After any adds, block removals and rollbacks the three maps say exactly what
   the live entries say: `byUser` is the inverse of the parties relation, without
   empty sets, and a rollback leaves the index of the entries it keeps.
   */
  lemma {:induction false} RunReflects(x: Index, live: seq<Entry>, ops: seq<Op>)
    requires Mirrors(x, live) && AlwaysAgree(x, live, ops)
    ensures Mirrors(Run(x, ops), Live(x, live, ops))
    decreases |ops|
  {
    if ops == [] {
    } else {
      StepReflects(x, live, ops[0]);
      RunReflects(Apply(x, ops[0]), LiveAfter(x, live, ops[0]), ops[1..]);
    }
  }

  lemma IndexIsPlainList(ops: seq<Op>)
    requires AlwaysAgree(EMPTY_INDEX, [], ops)
    ensures Mirrors(Run(EMPTY_INDEX, ops), Live(EMPTY_INDEX, [], ops))
  {
    RunReflects(EMPTY_INDEX, [], ops);
  }

  /** A rollback keeps the untracked entries and those up to the safe block. */
  lemma {:induction false} RollbackKeeps(x: Index, live: seq<Entry>, safeBlock: int, e: Entry)
    requires Reflects(x, live) && e in live
    ensures e in LiveAfter(x, live, RollbackOp(safeBlock)) <==> e.block == None || e.block.value <= safeBlock
  {
    KeepElements(live, BlocksAbove(x, safeBlock), e);
    if e.block.Some? {
      assert e.id in IdsIn(live, e.block.value);
    }
  }

  // ------------------------------------- exactly when a removal mirrors the plain list

  /** Removing these blocks takes agreement `id` off this user's list. */
  ghost predicate TakesOff(x: Index, blocks: set<int>, id: Id, u: User) {
    Unlists(x, id, u) || AtTwo(x, blocks, id)
  }

  /** An entry of `id` that names this user stays. */
  ghost predicate StaysWith(live: seq<Entry>, blocks: set<int>, id: Id, u: User) {
    exists e | e in live :: e.id == id && Involves(e, u) && Outside(e, blocks)
  }

  /**
   What must hold of every agreement recorded at one of the blocks: no entry that
   stays carries metadata, and the removal takes the agreement off exactly those of
   its users whom no staying entry names.
   */
  ghost predicate Separable(x: Index, live: seq<Entry>, blocks: set<int>) {
    forall id | id in IdsAt(x, blocks) ::
      && (forall e | e in live && e.id == id && Outside(e, blocks) :: e.details == None)
      && (forall u | u in x.byUser && id in x.byUser[u] :: TakesOff(x, blocks, id, u) <==> !StaysWith(live, blocks, id, u))
  }

  lemma {:induction false} NoMetadataIff(live: seq<Entry>, id: Id)
    ensures MetadataOf(live, id) == None <==> forall e | e in live && e.id == id :: e.details == None
  {
    if live == [] {
    } else {
      var init, last := live[..|live| - 1], live[|live| - 1];
      assert live == init + [last];
      NoMetadataIff(init, id);
    }
  }

  lemma MetadataReflectsIff(x: Index, live: seq<Entry>, blocks: set<int>, id: Id)
    requires Reflects(x, live)
    ensures MetadataOf(Keep(live, blocks), id) == (if id in x.agreements - IdsAt(x, blocks) then MetadataOf(live, id) else None)
        <==> (id in IdsAt(x, blocks) ==> forall e | e in live && e.id == id && Outside(e, blocks) :: e.details == None)
  {
    var kept := Keep(live, blocks);
    if id in IdsAt(x, blocks) {
      NoMetadataIff(kept, id);
      forall e ensures e in kept <==> e in live && Outside(e, blocks) {
        KeepElements(live, blocks, e);
      }
    } else {
      forall e | e in live && e.id == id ensures Outside(e, blocks) {
        if e.block.Some? {
          assert id in IdsIn(live, e.block.value);
        }
      }
      KeepMetadata(live, blocks, id, true);
    }
  }

  lemma StayingIds(live: seq<Entry>, blocks: set<int>, id: Id, u: User)
    ensures id in IdsOf(Keep(live, blocks), u) <==> StaysWith(live, blocks, id, u)
  {
    var kept := Keep(live, blocks);
    if id in IdsOf(kept, u) {
      var e :| e in kept && Involves(e, u) && e.id == id;
      KeepElements(live, blocks, e);
    }
    if StaysWith(live, blocks, id, u) {
      var e :| e in live && e.id == id && Involves(e, u) && Outside(e, blocks);
      KeepElements(live, blocks, e);
    }
  }

  lemma UserReflectsIff(x: Index, live: seq<Entry>, blocks: set<int>, u: User)
    requires Reflects(x, live) && u in x.byUser
    ensures Surviving(x, blocks, u) == IdsOf(Keep(live, blocks), u) <==>
              forall id | id in x.byUser[u] && id in IdsAt(x, blocks) ::
                TakesOff(x, blocks, id, u) <==> !StaysWith(live, blocks, id, u)
  {
    var kept := IdsOf(Keep(live, blocks), u);
    forall id ensures id in kept <==> StaysWith(live, blocks, id, u)
      ensures id in kept ==> id in x.byUser[u]
      ensures id in x.byUser[u] && id !in IdsAt(x, blocks) ==> id in kept
    {
      StayingIds(live, blocks, id, u);
      if id in x.byUser[u] && id !in IdsAt(x, blocks) {
        var e :| e in live && Involves(e, u) && e.id == id;
        if !Outside(e, blocks) {
          assert id in IdsIn(live, e.block.value);
        }
      }
    }
    forall id | id in x.byUser[u] && id in IdsAt(x, blocks)
      ensures id in Surviving(x, blocks, u) <==> !TakesOff(x, blocks, id, u)
    {
    }
  }

  ghost predicate UsersSeparable(x: Index, live: seq<Entry>, blocks: set<int>) {
    forall u | u in x.byUser :: Surviving(x, blocks, u) == IdsOf(Keep(live, blocks), u)
  }

  /** Two maps of nonempty lists cut from the same one are equal exactly when they agree user by user. */
  lemma SameListsIff(m: UserMap, users: set<User>, before: set<User>, left: User -> set<Id>, ids: User -> set<Id>)
    requires forall u :: u in m <==> u in before && left(u) != {}
    requires forall u | u in m :: m[u] == left(u)
    requires forall u :: u in users <==> u in before && ids(u) != {}
    ensures (m.Keys == users && forall u | u in m :: m[u] == ids(u)) <==> forall u | u in before :: left(u) == ids(u)
  {
    if m.Keys == users && forall u | u in m :: m[u] == ids(u) {
      forall u | u in before ensures left(u) == ids(u) {
        assert u in m <==> u in users;
      }
    }
  }

  lemma UsersReflectIff(x: Index, live: seq<Entry>, blocks: set<int>)
    requires Reflects(x, live)
    ensures ReflectsUsers(RemoveBlocks(x, blocks).byUser, Keep(live, blocks)) <==> UsersSeparable(x, live, blocks)
  {
    var kept, y := Keep(live, blocks), RemoveBlocks(x, blocks);
    forall u ensures u in Users(kept) <==> u in x.byUser && IdsOf(kept, u) != {} {
      KeptUsers(x, live, blocks, u);
    }
    hide Keep, IdsOf, Users, Reflects;
    SameListsIff(y.byUser, Users(kept), x.byUser.Keys, (u: User) => if u in x.byUser then Surviving(x, blocks, u) else {},
                 (u: User) => IdsOf(kept, u));
  }

  lemma SeparableParts(x: Index, live: seq<Entry>, blocks: set<int>)
    requires Reflects(x, live)
    ensures Separable(x, live, blocks) <==>
              && UsersSeparable(x, live, blocks)
              && forall id | id in IdsAt(x, blocks) ::
                   forall e | e in live && e.id == id && Outside(e, blocks) :: e.details == None
  {
    forall u | u in x.byUser
      ensures Surviving(x, blocks, u) == IdsOf(Keep(live, blocks), u) <==>
                forall id | id in x.byUser[u] && id in IdsAt(x, blocks) ::
                  TakesOff(x, blocks, id, u) <==> !StaysWith(live, blocks, id, u)
    {
      UserReflectsIff(x, live, blocks, u);
    }
  }

  /** Removing blocks leaves the index of the entries that stay exactly when they are separable from the others. */
  lemma RemovalReflectsIff(x: Index, live: seq<Entry>, blocks: set<int>)
    requires Reflects(x, live)
    ensures Reflects(RemoveBlocks(x, blocks), Keep(live, blocks)) <==> Separable(x, live, blocks)
  {
    var kept, y := Keep(live, blocks), RemoveBlocks(x, blocks);
    UsersReflectIff(x, live, blocks);
    SeparableParts(x, live, blocks);
    forall id
      ensures MetadataOf(kept, id) == (if id in x.agreements - IdsAt(x, blocks) then MetadataOf(live, id) else None)
          <==> (id in IdsAt(x, blocks) ==> forall e | e in live && e.id == id && Outside(e, blocks) :: e.details == None)
    {
      MetadataReflectsIff(x, live, blocks, id);
    }
    forall b ensures b in y.blockEntries <==> IdsIn(kept, b) != {}
      ensures b in y.blockEntries ==> y.blockEntries[b] == IdsIn(kept, b)
    {
      KeptBlocks(live, blocks, b);
    }
  }

  lemma RemoveReflectsIff(x: Index, live: seq<Entry>, block: int)
    requires Mirrors(x, live)
    ensures Mirrors(RemoveBlock(x, block), Keep(live, {block})) <==> Separable(x, live, {block})
  {
    RemovalReflectsIff(x, live, {block});
    RemoveBlocksKeepsValid(x, {block});
    if block in x.blockEntries {
      RemoveBlockIsRemoveBlocks(x, block);
    } else {
      RemovingNothing(x, {block});
    }
  }

  lemma RollbackReflectsIff(x: Index, live: seq<Entry>, safeBlock: int)
    requires Mirrors(x, live)
    ensures Mirrors(Rollback(x, safeBlock), Keep(live, BlocksAbove(x, safeBlock)))
        <==> Separable(x, live, BlocksAbove(x, safeBlock))
  {
    RollbackKeepsValid(x, safeBlock);
    var above := BlocksAbove(x, safeBlock);
    RemovalReflectsIff(x, live, above);
    if safeBlock >= x.lastSyncedBlock {
      RemovingNothing(x, above);
    } else {
      var y := RemoveBlocks(x, above);
      HeadDoesNotMatter(y, Keep(live, above), safeBlock);
    }
  }

  lemma HeadDoesNotMatter(x: Index, live: seq<Entry>, head: int)
    ensures Reflects(x.(lastSyncedBlock := head), live) <==> Reflects(x, live)
  {
  }

  ghost predicate StepSeparable(x: Index, live: seq<Entry>, op: Op) {
    match op
    case AddOp(_) => true
    case RemoveOp(block) => Separable(x, live, {block})
    case RollbackOp(safeBlock) => Separable(x, live, BlocksAbove(x, safeBlock))
  }

  lemma StepReflectsIff(x: Index, live: seq<Entry>, op: Op)
    requires Mirrors(x, live)
    ensures Mirrors(Apply(x, op), LiveAfter(x, live, op)) <==> StepSeparable(x, live, op)
  {
    match op
    case AddOp(e) => AddMirrors(x, live, e);
    case RemoveOp(block) => RemoveReflectsIff(x, live, block);
    case RollbackOp(safeBlock) => RollbackReflectsIff(x, live, safeBlock);
  }

  /** The index is the plain list before and after every operation. */
  ghost predicate MirrorsAlong(x: Index, live: seq<Entry>, ops: seq<Op>)
    decreases |ops|
  {
    Mirrors(x, live) && (ops != [] ==> MirrorsAlong(Apply(x, ops[0]), LiveAfter(x, live, ops[0]), ops[1..]))
  }

  ghost predicate SeparableAlong(x: Index, live: seq<Entry>, ops: seq<Op>)
    decreases |ops|
  {
    ops != [] ==> StepSeparable(x, live, ops[0]) && SeparableAlong(Apply(x, ops[0]), LiveAfter(x, live, ops[0]), ops[1..])
  }

  /** Along any operations the index is the plain list exactly as long as every removal is separable. */
  lemma {:induction false} RunReflectsIff(x: Index, live: seq<Entry>, ops: seq<Op>)
    requires Mirrors(x, live)
    ensures MirrorsAlong(x, live, ops) <==> SeparableAlong(x, live, ops)
    decreases |ops|
  {
    if ops == [] {
    } else {
      StepReflectsIff(x, live, ops[0]);
      if StepSeparable(x, live, ops[0]) {
        RunReflectsIff(Apply(x, ops[0]), LiveAfter(x, live, ops[0]), ops[1..]);
      }
    }
  }

  /**
   Two adds of one agreement, the first without a block: removing the block takes
   the agreement off the list although the untracked entry is kept.
   */
  lemma UntrackedEntryLost(u: User, id: Id, b: int)
    ensures var e, f := Entry(id, u, None, None, None), Entry(id, u, None, None, Some(b));
            var x := Add(Add(EMPTY_INDEX, e), f);
            && u in Users(Keep([e, f], {b})) && u in x.byUser
            && u !in RemoveBlock(x, b).byUser
  {
    var e, f := Entry(id, u, None, None, None), Entry(id, u, None, None, Some(b));
    var x := Add(Add(EMPTY_INDEX, e), f);
    assert e in [e, f];
    KeepElements([e, f], {b}, e);
    assert x.byUser[u] == {id} && x.blockEntries[b] == {id};
    assert Remaining(x, {id}, u) == {};
  }

  // ------------------------------------------------------- the head and what is pending

  /** The highest block seen, lowered by rollbacks. */
  ghost function HeadAfter(head: int, ops: seq<Op>): int
    decreases |ops|
  {
    if ops == [] then head
    else
      var next :=
        match ops[0]
        case AddOp(e) => if e.block.Some? && head < e.block.value then e.block.value else head
        case RemoveOp(_) => head
        case RollbackOp(safeBlock) => if safeBlock < head then safeBlock else head;
      HeadAfter(next, ops[1..])
  }

  lemma {:induction false} HeadAlongRun(x: Index, ops: seq<Op>)
    ensures Run(x, ops).lastSyncedBlock == HeadAfter(x.lastSyncedBlock, ops)
    decreases |ops|
  {
    if ops == [] {
    } else {
      HeadAlongRun(Apply(x, ops[0]), ops[1..]);
    }
  }

  /**
   After any operations on the empty index: a block is in the pending range exactly when
   it lies less than `depth` below the head; the range ends at the head, and there is
   none while the head is 0.
   */
  lemma PendingIsUnconfirmed(ops: seq<Op>, depth: nat, block: int)
    requires 1 <= block
    ensures var head, range := HeadAfter(0, ops), PendingRange(Run(EMPTY_INDEX, ops), depth);
            && (range == None <==> head == 0)
            && (range.Some? ==> range.value.1 == head && 1 <= range.value.0)
            && (range.Some? && range.value.0 <= block <= range.value.1 <==> block <= head && head - block < depth)
  {
    HeadAlongRun(EMPTY_INDEX, ops);
  }
}
