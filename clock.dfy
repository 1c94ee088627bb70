/** Time values. An instant is a count of microseconds since
    0001-01-01T00:00:00 UTC, so `datetime.min` is 0, the least instant, and
    `datetime.replace(microsecond=0)` is truncation to a whole second.
    Snapshot names carry civil (calendar) times, validated the way
    `datetime.strptime` validates them. */
module Clock {
  import opened Wrappers

  type Instant = nat

  const MicrosPerSecond: nat := 1_000_000

  /** `datetime.min`. */
  const MinInstant: Instant := 0

  /** Seconds from 0001-01-01T00:00:00 to the Unix epoch 1970-01-01T00:00:00. */
  const UnixEpochSeconds: nat := 62_135_596_800

  /** `datetime.fromtimestamp(secs, tz=timezone.utc)`. */
  function FromTimestamp(secs: nat): (t: Instant)
    ensures t % MicrosPerSecond == 0
  {
    (UnixEpochSeconds + secs) * MicrosPerSecond
  }

  /** `_normalize_datetime`: drop the microseconds, keep `None`. */
  function NormalizeDatetime(t: Option<Instant>): (r: Option<Instant>)
    ensures r.None? <==> t.None?
    ensures r.Some? ==> (r.value % MicrosPerSecond == 0
                         && r.value <= t.value < r.value + MicrosPerSecond)
  {
    match t
    case None => None
    case Some(u) => Some(u - u % MicrosPerSecond)
  }

  /** Two instants normalise alike exactly when they fall in the same second. */
  lemma NormalizeSameSecond(a: Instant, b: Instant)
    ensures NormalizeDatetime(Some(a)) == NormalizeDatetime(Some(b))
        <==> a / MicrosPerSecond == b / MicrosPerSecond
  {
    var qa, qb := a / MicrosPerSecond, b / MicrosPerSecond;
    assert a - a % MicrosPerSecond == qa * MicrosPerSecond;
    assert b - b % MicrosPerSecond == qb * MicrosPerSecond;
    if qa != qb {
      assert qa < qb || qb < qa;
      if qa < qb {
        assert qa * MicrosPerSecond < qb * MicrosPerSecond;
      } else {
        assert qb * MicrosPerSecond < qa * MicrosPerSecond;
      }
    }
  }

  /** Normalising twice is normalising once. */
  lemma NormalizeIdempotent(t: Option<Instant>)
    ensures NormalizeDatetime(NormalizeDatetime(t)) == NormalizeDatetime(t)
  {
  }

  /** Normalisation never reorders two instants. */
  lemma NormalizeMonotone(a: Instant, b: Instant)
    requires a <= b
    ensures NormalizeDatetime(Some(a)).value <= NormalizeDatetime(Some(b)).value
  {
    var qa, qb := a / MicrosPerSecond, b / MicrosPerSecond;
    assert a - a % MicrosPerSecond == qa * MicrosPerSecond;
    assert b - b % MicrosPerSecond == qb * MicrosPerSecond;
    assert qa * MicrosPerSecond <= qb * MicrosPerSecond;
  }

  // -----------------------------------------------------------------------
  // Civil times, as parsed from snapshot names (minutes and seconds are 0)

  datatype CivilTime = CivilTime(year: int, month: int, day: int, hour: int)

  predicate IsLeapYear(y: int) {
    y % 4 == 0 && (y % 100 != 0 || y % 400 == 0)
  }

  function DaysInMonth(y: int, m: int): int
    requires 1 <= m <= 12
  {
    if m == 2 then (if IsLeapYear(y) then 29 else 28)
    else if m == 4 || m == 6 || m == 9 || m == 11 then 30
    else 31
  }

  /** What `datetime` accepts: years 1..9999, real calendar days. */
  predicate ValidCivil(t: CivilTime) {
    && 1 <= t.year <= 9999
    && 1 <= t.month <= 12
    && 1 <= t.day <= DaysInMonth(t.year, t.month)
    && 0 <= t.hour <= 23
  }

  /** Chronological order of two civil times (field by field). */
  predicate CivilBefore(a: CivilTime, b: CivilTime) {
    || a.year < b.year
    || (a.year == b.year && a.month < b.month)
    || (a.year == b.year && a.month == b.month && a.day < b.day)
    || (a.year == b.year && a.month == b.month && a.day == b.day && a.hour < b.hour)
  }

  /** A count of hours that orders valid civil times chronologically. */
  function CivilKey(t: CivilTime): int {
    t.year * 8928 + (t.month - 1) * 744 + (t.day - 1) * 24 + t.hour
  }

  /** On valid civil times the key order is the chronological order, and
      equal keys mean equal times. */
  lemma CivilKeyOrder(a: CivilTime, b: CivilTime)
    requires ValidCivil(a) && ValidCivil(b)
    ensures CivilKey(a) < CivilKey(b) <==> CivilBefore(a, b)
    ensures CivilKey(a) == CivilKey(b) <==> a == b
    ensures CivilKey(a) > 0
  {
    var ra := (a.month - 1) * 744 + (a.day - 1) * 24 + a.hour;
    var rb := (b.month - 1) * 744 + (b.day - 1) * 24 + b.hour;
    assert 0 <= ra < 8928 && 0 <= rb < 8928;
    if a.year < b.year {
      assert a.year * 8928 + 8928 <= b.year * 8928;
    } else if b.year < a.year {
      assert b.year * 8928 + 8928 <= a.year * 8928;
    } else {
      var ma := (a.day - 1) * 24 + a.hour;
      var mb := (b.day - 1) * 24 + b.hour;
      assert 0 <= ma < 744 && 0 <= mb < 744;
    }
  }
}
