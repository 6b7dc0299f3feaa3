/**
 * The lookup key of a calendar date: the instant is moved forward by nine
 * hours (UTC+9) and the UTC calendar date of the result, the "YYYY-MM-DD"
 * part of its ISO-8601 text, names the day. Days are numbered from
 * 1970-01-01. For years 0000 to 9999 the "YYYY-MM-DD" text is one-to-one
 * with the day number; outside them ISO-8601 writes an expanded, signed year
 * ("+010000-01-01"), a form no fetched `reservation_date` takes.
 */
module DateKey {
  import opened Wrappers

  const MsPerHour: int := 60 * 60 * 1000
  const MsPerDay: int := 24 * MsPerHour

  /** `9 * 60 * 60 * 1000`: the shift to UTC+9. */
  const JstOffset: int := 9 * MsPerHour

  /** The largest magnitude a JavaScript time value may have (100,000,000 days). */
  const MaxTime: int := 8640000000000000

  /** The time value of a valid `Date`: milliseconds since the epoch. */
  type TimeValue = t: int | -MaxTime <= t <= MaxTime

  /**
   * `new Date(t + 9h).toISOString().split("T")[0]` as a day number. A shifted
   * value past the time range makes an invalid `Date`, whose `toISOString`
   * throws: that is `None`.
   */
  function JstDay(t: TimeValue): (key: Option<int>)
    ensures key.Some? ==> key.value * MsPerDay <= t + JstOffset < (key.value + 1) * MsPerDay
    ensures key.None? ==> t > MaxTime - JstOffset
  {
    var shifted := t + JstOffset;
    if shifted > MaxTime then None else Some(shifted / MsPerDay)
  }

  /** Day numbers of 0000-01-01 and 9999-12-31. */
  const FirstFourDigitDay: int := -719528
  const LastFourDigitDay: int := 2932896

  /**
   * Day `d` falls in a year that ISO-8601 writes with four digits, so its
   * "YYYY-MM-DD" text can equal a fetched `reservation_date`.
   */
  predicate FourDigitYear(d: int)
  {
    FirstFourDigitDay <= d <= LastFourDigitDay
  }

  /** The key is the day whose 24 hours in UTC+9 contain the instant. */
  lemma JstDaySpec(t: TimeValue, d: int)
    requires t + JstOffset <= MaxTime
    ensures JstDay(t) == Some(d) <==> d * MsPerDay <= t + JstOffset < (d + 1) * MsPerDay
  {
    var shifted := t + JstOffset;
    var q := shifted / MsPerDay;
    assert q * MsPerDay <= shifted < (q + 1) * MsPerDay;
    if d < q {
      assert (d + 1) * MsPerDay <= q * MsPerDay;
    } else if q < d {
      assert (q + 1) * MsPerDay <= d * MsPerDay;
    }
  }

  /** Only instants within nine hours of the end of the time range have no key. */
  lemma JstDayDefined(t: TimeValue)
    ensures JstDay(t).None? <==> t > MaxTime - JstOffset
  {
  }

  /** Later instants never get an earlier key. */
  lemma JstDayMonotone(t1: TimeValue, t2: TimeValue)
    requires t1 <= t2 && JstDay(t2).Some?
    ensures JstDay(t1).Some? && JstDay(t1).value <= JstDay(t2).value
  {
  }

  /**
   * The calendar hands over the local midnight of the day clicked. In a
   * browser whose clock runs `offset` milliseconds ahead of UTC, that is
   * `d * MsPerDay - offset`; its key is `d` exactly when the offset lies in
   * (9h - 24h, 9h], so from UTC-15 up to UTC+9. East of UTC+9 the key is the
   * previous day.
   */
  lemma LocalMidnightKey(d: int, offset: int)
    requires -MaxTime <= d * MsPerDay - offset <= MaxTime - JstOffset
    ensures JstDay(d * MsPerDay - offset) == Some(d) <==> JstOffset - MsPerDay < offset <= JstOffset
  {
    JstDaySpec(d * MsPerDay - offset, d);
  }

  /** The local midnight in UTC+9 itself always maps to its own day. */
  lemma JstMidnightKey(d: int)
    requires -MaxTime <= d * MsPerDay - JstOffset <= MaxTime - JstOffset
    ensures JstDay(d * MsPerDay - JstOffset) == Some(d)
  {
    LocalMidnightKey(d, JstOffset);
  }
}
