/**
 Least-recently-used order measured against the full history of uses: what a bounded
 cache may forget.
 */
module RecentlyUsed {
  import opened Common

  function Without<T(==)>(s: seq<T>, x: T): seq<T> {
    if s == [] then [] else
      var rest, last := Without(s[..|s| - 1], x), s[|s| - 1];
      if last == x then rest else rest + [last]
  }

  function Used<T(==)>(s: seq<T>, x: T): seq<T> {
    Without(s, x) + [x]
  }

  /** All inputs ever accepted, each once, ordered by last use. */
  function ByLastUse<T(==)>(history: seq<T>): seq<T> {
    if history == [] then [] else Used(ByLastUse(history[..|history| - 1]), history[|history| - 1])
  }

  function Newest<T>(s: seq<T>, n: nat): seq<T> {
    s[|s| - Min(n, |s|)..]
  }

  ghost predicate Distinct<T(!new)>(s: seq<T>) {
    forall i, j | 0 <= i < j < |s| :: s[i] != s[j]
  }

  lemma {:induction false} WithoutIs<T(!new)>(s: seq<T>, x: T)
    ensures forall y :: y in Without(s, x) <==> y in s && y != x
    ensures Distinct(s) ==> Distinct(Without(s, x))
    ensures x !in s ==> Without(s, x) == s
    ensures |Without(s, x)| <= |s|
  {
    if s == [] {
    } else {
      WithoutIs(s[..|s| - 1], x);
      assert s == s[..|s| - 1] + [s[|s| - 1]];
      var rest := Without(s[..|s| - 1], x);
      assert forall i | 0 <= i < |rest| :: rest[i] in rest;
      if Distinct(s) {
        assert s[|s| - 1] !in s[..|s| - 1];
      }
    }
  }

  lemma {:induction false} WithoutAppend<T(!new)>(a: seq<T>, b: seq<T>, x: T)
    ensures Without(a + b, x) == Without(a, x) + Without(b, x)
  {
    if b == [] {
      assert a + b == a;
    } else {
      WithoutAppend(a, b[..|b| - 1], x);
      assert (a + b)[..|a + b| - 1] == a + b[..|b| - 1];
    }
  }

  lemma {:induction false} DistinctLosesOne<T(!new)>(s: seq<T>, x: T)
    requires Distinct(s) && x in s
    ensures |Without(s, x)| == |s| - 1
  {
    var n := |s| - 1;
    if s[n] == x {
      assert x !in s[..n];
      WithoutIs(s[..n], x);
    } else {
      assert x in s[..n];
      DistinctLosesOne(s[..n], x);
    }
  }

  lemma NewestOfSuffix<T>(a: seq<T>, b: seq<T>, n: nat)
    requires n <= |b| || a == []
    ensures Newest(a + b, n) == Newest(b, n)
  {
    if a == [] {
      assert a + b == b;
    }
  }

  lemma UsedLength<T(!new)>(s: seq<T>, x: T)
    requires Distinct(s)
    ensures |s| <= |Used(s, x)|
  {
    if x in s {
      DistinctLosesOne(s, x);
    } else {
      WithoutIs(s, x);
    }
  }

  /** Using an input in the bounded list does what using it in the unbounded one does. */
  lemma NewestOfUsed<T(!new)>(s: seq<T>, x: T, n: nat)
    requires Distinct(s)
    ensures Newest(Used(s, x), n) == Newest(Used(Newest(s, n), x), n)
  {
    var older, kept := s[..|s| - Min(n, |s|)], Newest(s, n);
    assert s == older + kept;
    WithoutAppend(older, kept, x);
    assert Used(s, x) == Without(older, x) + Used(kept, x);
    UsedLength(kept, x);
    NewestOfSuffix(Without(older, x), Used(kept, x), n);
  }

  lemma {:induction false} ByLastUseIsDistinct<T(!new)>(history: seq<T>)
    ensures Distinct(ByLastUse(history))
    ensures forall x :: x in ByLastUse(history) <==> x in history
  {
    if history == [] {
    } else {
      var rest, x := history[..|history| - 1], history[|history| - 1];
      ByLastUseIsDistinct(rest);
      WithoutIs(ByLastUse(rest), x);
      assert history == rest + [x];
    }
  }

  /** The position of the last use. */
  function LastUse<T(==)>(history: seq<T>, x: T): (r: nat)
    requires x in history
    ensures r < |history| && history[r] == x
  {
    var n := |history| - 1;
    if history[n] == x then n else LastUse(history[..n], x)
  }

  ghost predicate OrderedByLastUse<T(!new)>(history: seq<T>, s: seq<T>) {
    && (forall x | x in s :: x in history)
    && forall i, j | 0 <= i < j < |s| :: LastUse(history, s[i]) < LastUse(history, s[j])
  }

  lemma {:induction false} WithoutKeepsOrder<T(!new)>(history: seq<T>, s: seq<T>, x: T)
    requires OrderedByLastUse(history, s)
    ensures OrderedByLastUse(history, Without(s, x))
  {
    if s == [] {
    } else {
      var rest, last := s[..|s| - 1], s[|s| - 1];
      assert forall i | 0 <= i < |rest| :: rest[i] == s[i];
      WithoutKeepsOrder(history, rest, x);
      WithoutIs(rest, x);
      var kept := Without(rest, x);
      forall i | 0 <= i < |kept|
        ensures LastUse(history, kept[i]) < LastUse(history, last)
      {
        assert kept[i] in rest;
        var j :| 0 <= j < |rest| && rest[j] == kept[i];
        assert s[j] == kept[i];
      }
    }
  }

  /** `ByLastUse` lists what was used in the order of the last uses. */
  lemma {:induction false} ByLastUseIsOrdered<T(!new)>(history: seq<T>)
    ensures OrderedByLastUse(history, ByLastUse(history))
  {
    if history == [] {
    } else {
      var rest, x := history[..|history| - 1], history[|history| - 1];
      var s := ByLastUse(rest);
      ByLastUseIsOrdered(rest);
      WithoutKeepsOrder(rest, s, x);
      WithoutIs(s, x);
      hide Without, LastUse;
      UseComesLast(rest, Without(s, x), x);
      assert rest + [x] == history;
    }
  }

  lemma UseComesLast<T(!new)>(rest: seq<T>, kept: seq<T>, x: T)
    requires OrderedByLastUse(rest, kept) && x !in kept
    ensures OrderedByLastUse(rest + [x], kept + [x])
  {
    var history := rest + [x];
    assert history[..|rest|] == rest;
    forall y | y in kept
      ensures y in history && LastUse(history, y) == LastUse(rest, y) < |rest|
    {
    }
  }
}
