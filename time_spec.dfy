/**
 * `TimeSpec` addition. Seconds and nanoseconds are `usize`s whose sums
 * wrap modulo 2^64; a nanosecond sum of at least one second carries one
 * second. The `f64` constructor and conversions are not modelled.
 */
module TimeSpecArith {
  import opened Addr

  /** `NSEC_PER_SEC`. */
  const NSEC_PER_SEC: nat := 1_000_000_000

  datatype TimeSpec = TimeSpec(sec: Usize, nsec: Usize)

  predicate Normalized(t: TimeSpec)
  {
    t.nsec < NSEC_PER_SEC
  }

  /** The time in nanoseconds. */
  function Nanos(t: TimeSpec): nat
  {
    t.sec * NSEC_PER_SEC + t.nsec
  }

  /**
   * `Add`: normalised operands give a normalised sum, and without overflow
   * of the seconds the sum is the sum of the two times.
   */
  function Add(a: TimeSpec, b: TimeSpec): (r: TimeSpec)
    ensures Normalized(a) && Normalized(b) ==> Normalized(r)
    ensures Normalized(a) && Normalized(b) && a.sec + b.sec + 1 < U64 ==> Nanos(r) == Nanos(a) + Nanos(b)
    ensures a.nsec + b.nsec >= NSEC_PER_SEC && a.nsec + b.nsec < U64 ==> r.sec == Wrap(a.sec + b.sec + 1)
    ensures a.nsec + b.nsec < NSEC_PER_SEC ==> r == TimeSpec(Wrap(a.sec + b.sec), a.nsec + b.nsec)
  {
    var s := Wrap(a.sec + b.sec);
    var n := Wrap(a.nsec + b.nsec);
    if n >= NSEC_PER_SEC then TimeSpec(Wrap(s + 1), n - NSEC_PER_SEC) else TimeSpec(s, n)
  }

  lemma AddCommutes(a: TimeSpec, b: TimeSpec)
    ensures Add(a, b) == Add(b, a)
  {
  }

  /** `AddAssign`, statement by statement; it leaves `*self` equal to `self + rhs`. */
  method AddAssign(self: TimeSpec, rhs: TimeSpec) returns (updated: TimeSpec)
    ensures updated == Add(self, rhs)
  {
    var sec: Usize := Wrap(self.sec + rhs.sec);
    var nsec: Usize := Wrap(self.nsec + rhs.nsec);
    if nsec >= NSEC_PER_SEC {
      sec := Wrap(sec + 1);
      nsec := nsec - NSEC_PER_SEC;
    }
    updated := TimeSpec(sec, nsec);
  }
}
