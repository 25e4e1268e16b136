/** The clock arithmetic the weekly handlers do with `Date`: the UTC calendar
    day a timestamp falls on, the host's local minutes and hours, rounding to
    the nearest local hour, and the start of the trailing week.

    Timestamps are milliseconds since 1970-01-01T00:00:00Z. The host
    timezone is a fixed offset `offsetMs` (local time = UTC + offsetMs); the
    model has no daylight-saving transitions. */
module TimeKeys {

  const MinuteMs: int := 60000
  const HourMs: int := 3600000
  const DayMs: int := 86400000

  /** A UTC calendar day, counted in days since 1970-01-01.
      `toISOString().split('T')[0]` renders it as `YYYY-MM-DD`; that rendering
      is one-to-one, so grouping by the string and by this number agree. */
  type DateKey = int

  /** The UTC date of an instant (`Date` floors toward the past, as `/` does
      here for a positive divisor). */
  function UtcDateKey(ts: int): DateKey
  {
    ts / DayMs
  }

  /** `getMinutes()` in the host timezone. */
  function LocalMinutes(ts: int, offsetMs: int): (m: int)
    ensures 0 <= m < 60
  {
    ((ts + offsetMs) / MinuteMs) % 60
  }

  /** `getHours()` in the host timezone. */
  function LocalHours(ts: int, offsetMs: int): (h: int)
    ensures 0 <= h < 24
  {
    ((ts + offsetMs) / HourMs) % 24
  }

  /** The instant of local midnight that starts the local day of `ts`. */
  function LocalDayStart(ts: int, offsetMs: int): int
  {
    (ts + offsetMs) - (ts + offsetMs) % DayMs - offsetMs
  }

  /** `minutes >= 30 ? getHours() + 1 : getHours()`: a bare hour number that
      is 24 for a reading at or after 23:30 local time. */
  function RoundedHour(ts: int, offsetMs: int): (h: int)
    ensures 0 <= h <= 24
  {
    if LocalMinutes(ts, offsetMs) >= 30 then LocalHours(ts, offsetMs) + 1
    else LocalHours(ts, offsetMs)
  }

  /** `new Date(d.setHours(roundedHour, 0, 0, 0))`: the local day's midnight
      plus the rounded hour, which `setHours(24, …)` carries into the next
      day. */
  function RoundedTimestamp(ts: int, offsetMs: int): int
  {
    LocalDayStart(ts, offsetMs) + RoundedHour(ts, offsetMs) * HourMs
  }

  /** `startOfLastWeek`: the date moved back seven days, then `setHours(0, 0,
      0, 0)` in the host timezone. */
  function StartOfLastWeek(now: int, offsetMs: int): int
  {
    LocalDayStart(now - 7 * DayMs, offsetMs)
  }

  /** Integer division is determined by any decomposition with a remainder
      in range. */
  lemma DivModUnique(n: int, d: int, q: int, r: int)
    requires d > 0 && 0 <= r < d && n == q * d + r
    ensures n / d == q && n % d == r
  {
    var q', r' := n / d, n % d;
    assert n == q' * d + r' && 0 <= r' < d;
    assert (q' - q) * d == r - r' by {
      assert (q' - q) * d == q' * d - q * d;
    }
    if q' < q {
      MulAtLeastOnce(q - q', d);
      assert false;
    } else if q' > q {
      MulAtLeastOnce(q' - q, d);
      assert false;
    }
  }

  lemma MulNonNegative(x: int, y: int)
    requires x >= 0 && y >= 0
    ensures x * y >= 0
  {
  }

  lemma MulMonotone(x: int, y: int, a: int)
    requires x >= y && a >= 0
    ensures x * a >= y * a
  {
    MulNonNegative(x - y, a);
    assert x * a == (x - y) * a + y * a;
  }

  lemma MulAtLeastOnce(k: int, d: int)
    requires k >= 1 && d > 0
    ensures k * d >= d
  {
    MulNonNegative(k - 1, d);
    assert k * d == (k - 1) * d + d;
  }

  /** Dividing by `a * b` is dividing by `a`, then by `b`; the remainder by
      `a * b` is rebuilt from the two smaller remainders. */
  lemma DivMulSplit(n: int, a: int, b: int)
    requires a > 0 && b > 0
    ensures n / (a * b) == (n / a) / b
    ensures n % (a * b) == ((n / a) % b) * a + n % a
  {
    var q, r := n / (a * b), n % (a * b);
    var r1, r0 := r / a, r % a;
    QuotientBelow(r, a, b);
    Regroup(n, q, r, r1, r0, a, b);
    DivModUnique(n, a, q * b + r1, r0);
    DivModUnique(n / a, b, q, r1);
  }

  lemma QuotientBelow(r: int, a: int, b: int)
    requires a > 0 && b > 0 && 0 <= r < a * b
    ensures 0 <= r / a < b
  {
    MulNonNegative(r / a, a);
    if r / a >= b {
      MulMonotone(r / a, b, a);
      assert false;
    }
  }

  lemma Regroup(n: int, q: int, r: int, r1: int, r0: int, a: int, b: int)
    requires n == q * (a * b) + r && r == r1 * a + r0
    ensures n == (q * b + r1) * a + r0
  {
    assert q * (a * b) == (q * b) * a;
    assert (q * b + r1) * a == (q * b) * a + r1 * a;
  }

  /** The local clock, read off one hour's remainder: minutes at or past the
      half hour are exactly the remainders of at least 30 minutes, and the
      local day's remainder is the local hours plus that hour's remainder. */
  lemma LocalClock(ts: int, offsetMs: int)
    ensures var l := ts + offsetMs;
      && (LocalMinutes(ts, offsetMs) >= 30 <==> l % HourMs >= 30 * MinuteMs)
      && l % DayMs == LocalHours(ts, offsetMs) * HourMs + l % HourMs
  {
    var l := ts + offsetMs;
    DivMulSplit(l, MinuteMs, 60);
    DivMulSplit(l, HourMs, 24);
  }

  /** A reading at `23:59:59.999` UTC keeps its own date and one at
      `00:00:00.000` starts the next: the date key is the one day whose
      24 hours contain the instant. */
  lemma {:induction false} UtcDateKeyBounds(ts: int, d: DateKey)
    ensures UtcDateKey(ts) == d <==> d * DayMs <= ts < d * DayMs + DayMs
  {
    if d * DayMs <= ts < d * DayMs + DayMs {
      DivModUnique(ts, DayMs, d, ts - d * DayMs);
    }
  }

  /** Rounding moves an instant to a whole local hour at most 30 minutes
      away: later exactly when the local minutes are 30 or more. */
  lemma RoundedTimestampNear(ts: int, offsetMs: int)
    ensures var rt := RoundedTimestamp(ts, offsetMs);
      && (rt + offsetMs) % HourMs == 0
      && ts - 30 * MinuteMs < rt <= ts + 30 * MinuteMs
      && (rt > ts <==> LocalMinutes(ts, offsetMs) >= 30)
  {
    var l := ts + offsetMs;
    LocalClock(ts, offsetMs);
    var rt := RoundedTimestamp(ts, offsetMs);
    var k := (l / DayMs) * 24 + RoundedHour(ts, offsetMs);
    assert rt + offsetMs == k * HourMs;
    DivModUnique(rt + offsetMs, HourMs, k, 0);
  }

  /** The rounded hour is 24 exactly for a reading at or after 23:30 local
      time, and then the rounded timestamp is the following local midnight. */
  lemma HourTwentyFour(ts: int, offsetMs: int)
    ensures RoundedHour(ts, offsetMs) == 24 <==>
      LocalHours(ts, offsetMs) == 23 && LocalMinutes(ts, offsetMs) >= 30
    ensures RoundedHour(ts, offsetMs) == 24 ==>
      RoundedTimestamp(ts, offsetMs) == LocalDayStart(ts, offsetMs) + DayMs
  {
  }

  /** With the host on UTC, a reading at 23:30 or later rounds to hour 24 of
      its own date key, while its rounded timestamp lies on the next date. */
  lemma HourTwentyFourOnUtcHost(ts: int)
    requires RoundedHour(ts, 0) == 24
    ensures UtcDateKey(RoundedTimestamp(ts, 0)) == UtcDateKey(ts) + 1
  {
    var d := UtcDateKey(ts);
    assert RoundedTimestamp(ts, 0) == d * DayMs + DayMs;
    UtcDateKeyBounds(RoundedTimestamp(ts, 0), d + 1);
  }

  /** The trailing week starts at a local midnight, seven to eight days
      before `now`. */
  lemma StartOfLastWeekBounds(now: int, offsetMs: int)
    ensures var s := StartOfLastWeek(now, offsetMs);
      && (s + offsetMs) % DayMs == 0
      && now - 8 * DayMs < s <= now - 7 * DayMs
  {
    var l := now - 7 * DayMs + offsetMs;
    var s := StartOfLastWeek(now, offsetMs);
    assert s + offsetMs == (l / DayMs) * DayMs;
    DivModUnique(s + offsetMs, DayMs, l / DayMs, 0);
  }
}
