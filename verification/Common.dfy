/** Small shared vocabulary. */
module Common {

  datatype Option<+T> = None | Some(value: T)

  function Min(a: int, b: int): int {
    if a <= b then a else b
  }

  function Max(a: int, b: int): int {
    if a >= b then a else b
  }

  const MICROS_PER_MILLI: int := 1000

  /** The table stamps rows in microseconds; `new Date(stamp)` keeps the whole millisecond. */
  function MillisecondOf(stamp: int): int {
    stamp - stamp % MICROS_PER_MILLI
  }

  lemma MillisecondsInOrder(a: int, b: int)
    ensures MillisecondOf(a) <= a
    ensures a <= b ==> MillisecondOf(a) <= MillisecondOf(b)
    ensures MillisecondOf(a) < MillisecondOf(b) ==> a < MillisecondOf(b)
  {
  }

  lemma SubsetIsSmaller<T>(a: set<T>, b: set<T>)
    requires a <= b
    ensures |a| <= |b|
    ensures |a| == |b| ==> a == b
  {
    assert b == a + (b - a);
  }
}
