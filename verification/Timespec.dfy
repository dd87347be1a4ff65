/** The kernel's `struct timespec`, with the arithmetic this driver does on it.
Seconds and nanoseconds are unbounded integers. */
module Timespec {

  const GIGA := 1_000_000_000

  datatype Timespec = Timespec(sec: int, nsec: int)

  function Ns(t: Timespec): int { t.sec * GIGA + t.nsec }

  predicate Normal(t: Timespec) { 0 <= t.nsec < GIGA }

  /** set_normalized_timespec */
  function Normalized(sec: int, nsec: int): (t: Timespec)
    ensures Normal(t) && Ns(t) == sec * GIGA + nsec
  {
    Timespec(sec + nsec / GIGA, nsec % GIGA)
  }

  /** timespec_add */
  function Add(a: Timespec, b: Timespec): Timespec { Normalized(a.sec + b.sec, a.nsec + b.nsec) }

  /** wrn_ts_sub: only the nanoseconds are subtracted. */
  function SubNs(t: Timespec, nano: int): Timespec { Normalized(t.sec, t.nsec - nano) }

  /** A normal time is determined by its distance from the epoch. */
  lemma NormalUnique(a: Timespec, b: Timespec)
    requires Normal(a) && Normal(b) && Ns(a) == Ns(b)
    ensures a == b
  {
  }
}
