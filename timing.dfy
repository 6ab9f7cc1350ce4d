/** Elapsed-time arithmetic of the lateness rule, on integer microseconds. */
module Timing {

  const MICROS_PER_SECOND := 1_000_000
  const SECONDS_PER_DAY := 86_400
  const MICROS_PER_DAY := 86_400_000_000

  /** Python's `timedelta`, which keeps a duration as whole days, a sub-day
      number of seconds and a sub-second number of microseconds. */
  datatype Timedelta = Timedelta(days: int, seconds: int, microseconds: int)

  /** The ranges `timedelta` normalises its seconds and microseconds into. */
  predicate Normalized(d: Timedelta)
  {
    0 <= d.seconds < SECONDS_PER_DAY && 0 <= d.microseconds < MICROS_PER_SECOND
  }

  /** The duration a `timedelta` stands for, in microseconds. */
  function TotalMicros(d: Timedelta): int
  {
    d.days * MICROS_PER_DAY + d.seconds * MICROS_PER_SECOND + d.microseconds
  }

  /** The `timedelta` that subtracting two datetimes `us` microseconds apart yields. */
  function TimedeltaOf(us: int): (d: Timedelta)
    ensures Normalized(d) && TotalMicros(d) == us
  {
    var s := us / MICROS_PER_SECOND;
    Timedelta(s / SECONDS_PER_DAY, s % SECONDS_PER_DAY, us % MICROS_PER_SECOND)
  }

  /** A positive multiple of `b` is at least `b`. */
  lemma {:induction false} MultipleAtLeast(k: int, b: int)
    requires 1 <= k && 0 < b
    ensures k * b >= b
  {
    if k > 1 {
      MultipleAtLeast(k - 1, b);
      assert k * b == (k - 1) * b + b;
    }
  }

  /** Euclidean division is determined by its quotient-remainder equation. */
  lemma DivModUnique(a: int, b: int, q: int, r: int)
    requires 0 < b && a == q * b + r && 0 <= r < b
    ensures a / b == q && a % b == r
  {
    var q', r' := a / b, a % b;
    assert (q - q') * b == r' - r by {
      assert q' * b + r' == q * b + r;
      assert (q - q') * b == q * b - q' * b;
    }
    if q' < q {
      MultipleAtLeast(q - q', b);
    } else if q < q' {
      MultipleAtLeast(q' - q, b);
    }
  }

  /** There is only one normalised `timedelta` for a duration. */
  lemma {:induction false} TimedeltaUnique(us: int, d: Timedelta)
    requires Normalized(d) && TotalMicros(d) == us
    ensures d == TimedeltaOf(us)
  {
    var s := d.days * SECONDS_PER_DAY + d.seconds;
    DivModUnique(us, MICROS_PER_SECOND, s, d.microseconds);
    DivModUnique(s, SECONDS_PER_DAY, d.days, d.seconds);
  }

  /** `(now - updated).seconds`: only the sub-day seconds of the difference,
      whole days and microseconds dropped. */
  function ElapsedSeconds(now: int, updated: int): (s: int)
    ensures 0 <= s < SECONDS_PER_DAY
  {
    TimedeltaOf(now - updated).seconds
  }

  /** Adding whole days to the difference does not change `.seconds`. */
  lemma {:induction false} WholeDaysDiscarded(now: int, updated: int, days: int)
    ensures ElapsedSeconds(now + days * MICROS_PER_DAY, updated) == ElapsedSeconds(now, updated)
  {
    var d := TimedeltaOf(now - updated);
    TimedeltaUnique(now + days * MICROS_PER_DAY - updated, Timedelta(d.days + days, d.seconds, d.microseconds));
  }

  /** Within the first day, `.seconds` is the elapsed time truncated to whole seconds. */
  lemma {:induction false} ElapsedWithinDay(now: int, updated: int)
    requires 0 <= now - updated < MICROS_PER_DAY
    ensures ElapsedSeconds(now, updated) == (now - updated) / MICROS_PER_SECOND
  {
    var us := now - updated;
    TimedeltaUnique(us, Timedelta(0, us / MICROS_PER_SECOND, us % MICROS_PER_SECOND));
  }

  /** A timestamp up to a day in the future gives a negative difference, whose
      `.seconds` wraps to the end of the previous day. */
  lemma {:induction false} FutureWraps(now: int, updated: int)
    requires now < updated <= now + MICROS_PER_DAY
    ensures ElapsedSeconds(now, updated) == SECONDS_PER_DAY + (now - updated) / MICROS_PER_SECOND
  {
    var us := now - updated;
    TimedeltaUnique(us, Timedelta(-1, SECONDS_PER_DAY + us / MICROS_PER_SECOND, us % MICROS_PER_SECOND));
  }

  /** Python's `round(secs / 60)`: the nearest whole minute, a tie going to
      the even neighbour. */
  function RoundedMinutes(secs: int): (m: int)
    requires 0 <= secs
    ensures 0 <= m
    ensures 60 * m - 30 <= secs <= 60 * m + 30
    ensures (secs == 60 * m - 30 || secs == 60 * m + 30) ==> m % 2 == 0
  {
    var q, r := secs / 60, secs % 60;
    if r < 30 || (r == 30 && q % 2 == 0) then q else q + 1
  }

  /** Nearest-with-ties-to-even determines the minute count. */
  lemma RoundedMinutesUnique(secs: int, m: int)
    requires 0 <= secs
    requires 60 * m - 30 <= secs <= 60 * m + 30
    requires (secs == 60 * m - 30 || secs == 60 * m + 30) ==> m % 2 == 0
    ensures m == RoundedMinutes(secs)
  {
    var k := RoundedMinutes(secs);
    assert -60 <= 60 * (m - k) <= 60;
  }
}
