/**
 * Naive local wall-clock time, as the scheduler reads it from `datetime`.
 *
 * An instant is a whole number of seconds since some local midnight. The
 * calendar (days, months, daylight-saving changes, time zones) is not
 * modelled: the hour of the day is simply the hour count modulo 24.
 */
module Clock {

  const SecondsPerMinute: nat := 60
  const MinutesPerHour: nat := 60
  const HoursPerDay: nat := 24
  const MinutesPerDay: nat := MinutesPerHour * HoursPerDay

  /** `datetime.minute`: the minute of the hour of instant `t`. */
  function Minute(t: nat): (m: nat)
    ensures m < MinutesPerHour
  {
    (t / 60) % 60
  }

  /** `datetime.hour`: the hour of the day of instant `t`. */
  function Hour(t: nat): (h: nat)
    ensures h < HoursPerDay
  {
    (t / 3600) % 24
  }

  /** `t.replace(second=0, microsecond=0)`: the start of the minute holding `t`. */
  function TruncToMinute(t: nat): (r: nat)
    ensures r <= t < r + SecondsPerMinute
    ensures r % SecondsPerMinute == 0
    ensures r / SecondsPerMinute == t / SecondsPerMinute
  {
    t / 60 * 60
  }

  /** Counting hours through minutes gives the same hour as counting it in seconds. */
  lemma HourThroughMinutes(t: nat)
    ensures Hour(t) == (t / 60 / 60) % 24
  {
    var n := t / 60;
    var q := n / 60;
    assert t == 60 * n + t % 60;
    assert n == 60 * q + n % 60;
    assert t == 3600 * q + (60 * (n % 60) + t % 60);
    assert 0 <= 60 * (n % 60) + t % 60 < 3600;
    assert t / 3600 == q;
  }

  /**
   * Two instants in the same minute (the same count of whole minutes since
   * midnight) show the same minute and the same hour.
   */
  lemma SameMinuteSameFields(t: nat, u: nat)
    requires t / 60 == u / 60
    ensures Minute(t) == Minute(u)
    ensures Hour(t) == Hour(u)
  {
    HourThroughMinutes(t);
    HourThroughMinutes(u);
  }

  /**
   * The minute that starts at `60 * n` shows hour `h` and minute `s` when
   * `n` is `60 * h + s` minutes past some midnight.
   */
  lemma MinuteStartFields(n: nat, h: nat, s: nat, p: int)
    requires h < HoursPerDay && s < MinutesPerHour
    requires n == 60 * h + s + MinutesPerDay * p
    ensures Minute(60 * n) == s
    ensures Hour(60 * n) == h
  {
    assert (60 * n) / 60 == n;
    assert n == 60 * (h + 24 * p) + s;
    assert n / 60 == h + 24 * p;
    assert n % 60 == s;
    assert (h + 24 * p) % 24 == h;
    HourThroughMinutes(60 * n);
  }

  /** A residue modulo 60 ignores whole multiples of 60. */
  lemma ModShift(x: int, k: int)
    ensures (x + 60 * k) % 60 == x % 60
  {
    var q := x / 60;
    assert x == 60 * q + x % 60;
    assert x + 60 * k == 60 * (q + k) + x % 60;
  }

  /** The residue of a difference is the residue of the difference of residues. */
  lemma ModDiff(a: int, b: int)
    ensures (a - b) % 60 == (a % 60 - b % 60) % 60
  {
    assert a == 60 * (a / 60) + a % 60;
    assert b == 60 * (b / 60) + b % 60;
    ModShift(a % 60 - b % 60, a / 60 - b / 60);
  }
}
