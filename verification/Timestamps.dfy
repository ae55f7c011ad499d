/** Modification times as the attributes carry them. */
module Timestamps {

  /** A timespec. */
  datatype Time = Time(sec: int, nsec: int)

  predicate Before(a: Time, b: Time)
  {
    a.sec < b.sec || (a.sec == b.sec && a.nsec < b.nsec)
  }

  const NANOS_PER_SECOND := 1000000000

  /** The nanoseconds are less than a second. */
  predicate Normal(t: Time)
  {
    0 <= t.nsec < NANOS_PER_SECOND
  }

  /** The whole time in nanoseconds. */
  function Nanos(t: Time): int
  {
    t.sec * NANOS_PER_SECOND + t.nsec
  }

  /** The comparison by seconds and then by nanoseconds compares the times. */
  lemma BeforeIsLess(a: Time, b: Time)
    requires 0 <= a.nsec < 1000000000 && 0 <= b.nsec < 1000000000
    ensures Before(a, b) <==> a.sec * 1000000000 + a.nsec < b.sec * 1000000000 + b.nsec
  {
    if a.sec < b.sec {
      assert a.sec * 1000000000 + 1000000000 <= b.sec * 1000000000;
    } else if b.sec < a.sec {
      assert b.sec * 1000000000 + 1000000000 <= a.sec * 1000000000;
    }
  }

  datatype Option<T> = None | Some(value: T)
}
