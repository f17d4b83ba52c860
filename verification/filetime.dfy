/** `filetime_to_time_t` of src/os/time.h: a Windows file time (100 ns ticks
    since 1601-01-01) turned into a `time_t` (seconds since 1970-01-01). */
module FileTime {
  /** `TICKS_PER_SECOND`. */
  const TicksPerSecond: int := 10000000
  /** `EPOCH_DIFFERENCE`: seconds from 1601-01-01 to 1970-01-01. */
  const EpochDifference: int := 11644473600

  const MinInt64: int := -0x8000_0000_0000_0000
  const MaxInt64: int := 0x7fff_ffff_ffff_ffff

  predicate IsInt64(x: int) {
    MinInt64 <= x <= MaxInt64
  }

  /** C's `/` on integers: the quotient truncated toward zero (Dafny's own
      `/` rounds toward negative infinity for a positive divisor). */
  function CDiv(a: int, d: int): (q: int)
    requires d > 0
    ensures a >= 0 ==> q * d <= a < (q + 1) * d
    ensures a < 0 ==> (q - 1) * d < a <= q * d
  {
    if a >= 0 then a / d else -((-a) / d)
  }

  /** The conversion: whole seconds of the file time, truncated toward
      zero, less the epoch difference. */
  function FiletimeToTimeT(ft: int): (t: int)
    requires IsInt64(ft)
    ensures IsInt64(t)
    ensures ft >= 0 ==> (t + EpochDifference) * TicksPerSecond <= ft < (t + EpochDifference + 1) * TicksPerSecond
    ensures ft < 0 ==> (t + EpochDifference - 1) * TicksPerSecond < ft <= (t + EpochDifference) * TicksPerSecond
  {
    CDiv(ft, TicksPerSecond) - EpochDifference
  }

  /** The Unix epoch as a file time converts to 0. */
  lemma UnixEpoch()
    ensures FiletimeToTimeT(116444736000000000) == 0
  {
  }

  /** One more second of file time is one more second of `time_t`, for the
      non-negative file times Windows produces. */
  lemma NextSecond(ft: int)
    requires 0 <= ft && IsInt64(ft + TicksPerSecond)
    ensures FiletimeToTimeT(ft + TicksPerSecond) == FiletimeToTimeT(ft) + 1
  {
    var q := CDiv(ft, TicksPerSecond);
    var q' := CDiv(ft + TicksPerSecond, TicksPerSecond);
    assert q * TicksPerSecond <= ft < (q + 1) * TicksPerSecond;
    assert q' * TicksPerSecond <= ft + TicksPerSecond < (q' + 1) * TicksPerSecond;
    SameQuotient(q', q + 1, ft + TicksPerSecond);
  }

  /** At most one whole number of seconds brackets a tick count. */
  lemma SameQuotient(q: int, q': int, a: int)
    requires q * TicksPerSecond <= a < (q + 1) * TicksPerSecond
    requires q' * TicksPerSecond <= a < (q' + 1) * TicksPerSecond
    ensures q == q'
  {
  }

  /** A later file time never converts to an earlier `time_t`. */
  lemma Monotone(ft: int, ft': int)
    requires IsInt64(ft) && IsInt64(ft') && ft <= ft'
    ensures FiletimeToTimeT(ft) <= FiletimeToTimeT(ft')
  {
  }

  /** Truncation, not flooring: one tick before 1601 converts to the same
      second as 1601 itself. */
  lemma TruncatesTowardZero()
    ensures FiletimeToTimeT(-1) == FiletimeToTimeT(0) == -EpochDifference
    ensures (-1) / TicksPerSecond - EpochDifference == -EpochDifference - 1
  {
  }
}
