/**
 What the write throttle of `requireSession` costs (src/auth/session.ts): the row
 is only written when its `lastSeen` is a minute old, so the expiry it stores can
 lag behind the one an always-written row would have.
 */
module SlidingThrottle {
  import opened Common
  import opened SessionTable

  predicate Nondecreasing(times: seq<int>) {
    forall i, j | 0 <= i < j < |times| :: times[i] <= times[j]
  }

  /** The row after a request at `now` has been validated. */
  function Validated(cfg: Config, row: Row, now: int): Row {
    if AcceptsRow(row, row.address, now) && SlideDue(row, now)
    then row.(lastSeen := Some(now), expiresAt := NextSlidingExpiry(cfg, now, row.absoluteExpiresAt))
    else row
  }

  /** The verdicts of the code on a sequence of requests. */
  function Throttled(cfg: Config, row: Row, times: seq<int>): (r: seq<bool>)
    ensures |r| == |times|
    decreases |times|
  {
    if times == [] then []
    else [AcceptsRow(row, row.address, times[0])] + Throttled(cfg, Validated(cfg, row, times[0]), times[1..])
  }

  /** A session that is written on every accepted request. */
  datatype Ideal = Ideal(expiresAt: int, absoluteExpiresAt: int)

  predicate IdealAccepts(s: Ideal, now: int) {
    s.expiresAt >= now && s.absoluteExpiresAt >= now
  }

  function IdealValidated(ttl: int, s: Ideal, now: int): Ideal {
    if IdealAccepts(s, now) then s.(expiresAt := Min(now + ttl, s.absoluteExpiresAt)) else s
  }

  function AlwaysSliding(ttl: int, s: Ideal, times: seq<int>): (r: seq<bool>)
    ensures |r| == |times|
    decreases |times|
  {
    if times == [] then []
    else [IdealAccepts(s, times[0])] + AlwaysSliding(ttl, IdealValidated(ttl, s, times[0]), times[1..])
  }

  /** The login at `born`, seen by the code and by an ideal session of lifetime `ttl`. */
  function LoginRow(cfg: Config, born: int): Row {
    NewRow(cfg, "0x1", "family", born)
  }

  function LoginIdeal(cfg: Config, ttl: int, born: int): Ideal {
    Ideal(born + ttl, born + cfg.maxTtl)
  }

  ghost predicate Implies(p: seq<bool>, q: seq<bool>)
    requires |p| == |q|
  {
    forall i | 0 <= i < |p| :: p[i] ==> q[i]
  }

  /** How far the stored expiry can lag: one millisecond short of the threshold. */
  const LAG: int := SESSION_UPDATE_THRESHOLD_MS - 1

  /** The stored expiry comes from the last write, and that is no later than `last`. */
  ghost predicate Lagging(cfg: Config, row: Row, last: int) {
    && Live(row)
    && (row.lastSeen.Some? ==>
          && row.lastSeen.value <= last
          && row.expiresAt == NextSlidingExpiry(cfg, row.lastSeen.value, row.absoluteExpiresAt))
    && (row.lastSeen == None ==> Min(row.expiresAt, row.absoluteExpiresAt) <= Min(last + cfg.ttl, row.absoluteExpiresAt))
  }

  ghost predicate Covers(big: int, small: int, cap: int) {
    Min(small, cap) <= Min(big, cap)
  }

  lemma {:induction false} ShorterIdealIsCovered(cfg: Config, row: Row, s: Ideal, slack: int, last: int, times: seq<int>)
    requires slack >= Min(LAG, cfg.ttl)
    requires Lagging(cfg, row, last) && row.absoluteExpiresAt == s.absoluteExpiresAt
    requires Covers(row.expiresAt, s.expiresAt, s.absoluteExpiresAt)
    requires Nondecreasing(times) && (times != [] ==> last <= times[0])
    ensures Implies(AlwaysSliding(cfg.ttl - slack, s, times), Throttled(cfg, row, times))
    decreases |times|
  {
    if times == [] {
    } else {
      ShorterIdealIsCovered(cfg, Validated(cfg, row, times[0]), IdealValidated(cfg.ttl - slack, s, times[0]),
                            slack, times[0], times[1..]);
    }
  }

  lemma {:induction false} FullIdealCovers(cfg: Config, row: Row, s: Ideal, last: int, times: seq<int>)
    requires Lagging(cfg, row, last) && row.absoluteExpiresAt == s.absoluteExpiresAt
    requires Covers(s.expiresAt, row.expiresAt, s.absoluteExpiresAt)
    requires Nondecreasing(times) && (times != [] ==> last <= times[0])
    ensures Implies(Throttled(cfg, row, times), AlwaysSliding(cfg.ttl, s, times))
    decreases |times|
  {
    if times == [] {
    } else {
      FullIdealCovers(cfg, Validated(cfg, row, times[0]), IdealValidated(cfg.ttl, s, times[0]), times[0], times[1..]);
    }
  }

  /** On every request sequence the throttled session lies between two always-sliding ones. */
  lemma ThrottleSandwiched(cfg: Config, born: int, times: seq<int>)
    requires Nondecreasing(times) && (times != [] ==> born <= times[0])
    ensures Implies(AlwaysSliding(cfg.ttl - LAG, LoginIdeal(cfg, cfg.ttl - LAG, born), times),
                    Throttled(cfg, LoginRow(cfg, born), times))
    ensures Implies(Throttled(cfg, LoginRow(cfg, born), times),
                    AlwaysSliding(cfg.ttl, LoginIdeal(cfg, cfg.ttl, born), times))
  {
    ShorterIdealIsCovered(cfg, LoginRow(cfg, born), LoginIdeal(cfg, cfg.ttl - LAG, born), LAG, born, times);
    FullIdealCovers(cfg, LoginRow(cfg, born), LoginIdeal(cfg, cfg.ttl, born), born, times);
  }

  /** An always-sliding session shorter by `slack` is never more permissive than the code. */
  ghost predicate LagWithin(cfg: Config, slack: int) {
    forall born, times | Nondecreasing(times) && (times != [] ==> born <= times[0]) ::
      Implies(AlwaysSliding(cfg.ttl - slack, LoginIdeal(cfg, cfg.ttl - slack, born), times),
              Throttled(cfg, LoginRow(cfg, born), times))
  }

  /** One request a millisecond up to `slack + 1`, then one just after the first lifetime. */
  ghost function Walk(cfg: Config, slack: nat, from: nat): seq<int>
    decreases slack + 2 - from
  {
    if from > slack + 1 then [cfg.ttl + 1] else [from as int] + Walk(cfg, slack, from + 1)
  }

  lemma {:induction false} WalkOrdered(cfg: Config, slack: nat, from: nat)
    requires slack < cfg.ttl && from <= slack + 2
    ensures Walk(cfg, slack, from) != [] && Nondecreasing(Walk(cfg, slack, from))
    ensures forall i | 0 <= i < |Walk(cfg, slack, from)| :: Walk(cfg, slack, from)[i] >= Min(from, slack + 1)
    decreases slack + 2 - from
  {
    if from <= slack + 1 {
      WalkOrdered(cfg, slack, from + 1);
    }
  }

  /**
   Within the threshold of the first request the row is never written again,
   while the ideal session slides on.
   */
  lemma {:induction false} WalkOutlivesRow(cfg: Config, slack: nat, from: nat, row: Row, s: Ideal)
    requires slack < LAG && slack < cfg.ttl < cfg.maxTtl
    requires 1 <= from <= slack + 2
    requires row.lastSeen == Some(0) && row.expiresAt == cfg.ttl
    requires s == Ideal(from - 1 + cfg.ttl - slack, cfg.maxTtl)
    ensures !Implies(AlwaysSliding(cfg.ttl - slack, s, Walk(cfg, slack, from)),
                     Throttled(cfg, row, Walk(cfg, slack, from)))
    decreases slack + 2 - from
  {
    var times := Walk(cfg, slack, from);
    var ideal, stored := AlwaysSliding(cfg.ttl - slack, s, times), Throttled(cfg, row, times);
    if from > slack + 1 {
      assert ideal[0] && !stored[0];
    } else {
      var s', row' := IdealValidated(cfg.ttl - slack, s, from), Validated(cfg, row, from);
      assert row' == row && s' == Ideal(from + cfg.ttl - slack, cfg.maxTtl);
      WalkOutlivesRow(cfg, slack, from + 1, row', s');
      assert times[1..] == Walk(cfg, slack, from + 1);
      LaterFailure(ideal, stored);
    }
  }

  lemma LaterFailure(p: seq<bool>, q: seq<bool>)
    requires |p| == |q| > 0 && !Implies(p[1..], q[1..])
    ensures !Implies(p, q)
  {
    var i :| 0 <= i < |p[1..]| && p[1..][i] && !q[1..][i];
    assert p[i + 1] && !q[i + 1];
  }

  lemma FirstRequest(cfg: Config, slack: nat)
    requires slack < cfg.ttl < cfg.maxTtl
    ensures AcceptsRow(LoginRow(cfg, 0), "0x1", 0)
    ensures Validated(cfg, LoginRow(cfg, 0), 0) == LoginRow(cfg, 0).(lastSeen := Some(0), expiresAt := cfg.ttl)
    ensures IdealValidated(cfg.ttl - slack, LoginIdeal(cfg, cfg.ttl - slack, 0), 0) == Ideal(cfg.ttl - slack, cfg.maxTtl)
  {
  }

  lemma SmallerSlackFails(cfg: Config, slack: nat)
    requires slack < LAG && slack < cfg.ttl < cfg.maxTtl
    ensures !LagWithin(cfg, slack)
  {
    hide Walk, Throttled, AlwaysSliding, LoginRow, LoginIdeal, Implies;
    var all := [0] + Walk(cfg, slack, 1);
    WalkFromLogin(cfg, slack);
    assert Nondecreasing(all);
  }

  /** The walk that starts with the login itself. */
  lemma WalkFromLogin(cfg: Config, slack: nat)
    requires slack < LAG && slack < cfg.ttl < cfg.maxTtl
    ensures var all := [0] + Walk(cfg, slack, 1);
            && Nondecreasing(all)
            && !Implies(AlwaysSliding(cfg.ttl - slack, LoginIdeal(cfg, cfg.ttl - slack, 0), all), Throttled(cfg, LoginRow(cfg, 0), all))
  {
    hide Walk, Throttled, AlwaysSliding, Validated, IdealValidated, AcceptsRow, LoginRow, LoginIdeal, Implies;
    var times, row, s := Walk(cfg, slack, 1), LoginRow(cfg, 0), LoginIdeal(cfg, cfg.ttl - slack, 0);
    WalkOrdered(cfg, slack, 1);
    FirstRequest(cfg, slack);
    WalkOutlivesRow(cfg, slack, 1, Validated(cfg, row, 0), IdealValidated(cfg.ttl - slack, s, 0));
    OneMoreRequest(cfg, cfg.ttl - slack, row, s, 0, times);
    LaterFailure(AlwaysSliding(cfg.ttl - slack, s, [0] + times), Throttled(cfg, row, [0] + times));
  }

  lemma OneMoreRequest(cfg: Config, ttl: int, row: Row, s: Ideal, now: int, times: seq<int>)
    ensures Throttled(cfg, row, [now] + times)[1..] == Throttled(cfg, Validated(cfg, row, now), times)
    ensures AlwaysSliding(ttl, s, [now] + times)[1..] == AlwaysSliding(ttl, IdealValidated(ttl, s, now), times)
  {
    hide Validated, IdealValidated, AcceptsRow, IdealAccepts;
    assert ([now] + times)[1..] == times;
  }

  /** A row that reaches to its absolute expiry accepts until then, and so no ideal session outlives it. */
  lemma {:induction false} CappedRowOutlivesIdeal(cfg: Config, row: Row, ttl: int, s: Ideal, times: seq<int>)
    requires Live(row) && row.expiresAt >= row.absoluteExpiresAt == s.absoluteExpiresAt
    requires Nondecreasing(times) && (times != [] ==> row.absoluteExpiresAt <= times[0] + cfg.ttl)
    ensures Implies(AlwaysSliding(ttl, s, times), Throttled(cfg, row, times))
    decreases |times|
  {
    if times == [] {
    } else {
      CappedRowOutlivesIdeal(cfg, Validated(cfg, row, times[0]), ttl, IdealValidated(ttl, s, times[0]), times[1..]);
    }
  }

  /**
   The lag is exactly one millisecond less than the threshold, or the sliding lifetime
   if that is shorter; there is none if the absolute lifetime is no longer than that.
   */
  lemma LagIsExact(cfg: Config, slack: nat)
    ensures LagWithin(cfg, slack) <==> cfg.ttl >= cfg.maxTtl || slack >= Min(LAG, cfg.ttl)
  {
    if cfg.ttl >= cfg.maxTtl || slack >= Min(LAG, cfg.ttl) {
      forall born, times | Nondecreasing(times) && (times != [] ==> born <= times[0])
        ensures Implies(AlwaysSliding(cfg.ttl - slack, LoginIdeal(cfg, cfg.ttl - slack, born), times),
                        Throttled(cfg, LoginRow(cfg, born), times))
      {
        if cfg.ttl >= cfg.maxTtl {
          CappedRowOutlivesIdeal(cfg, LoginRow(cfg, born), cfg.ttl - slack, LoginIdeal(cfg, cfg.ttl - slack, born), times);
        } else {
          ShorterIdealIsCovered(cfg, LoginRow(cfg, born), LoginIdeal(cfg, cfg.ttl - slack, born), slack, born, times);
        }
      }
    } else {
      SmallerSlackFails(cfg, slack);
    }
  }
}
