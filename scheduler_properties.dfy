/**
 * What the scheduler promises: which configurations select specific hours,
 * which hours are active, that the computed wait ends exactly where the next
 * burst begins, and when the defensive 60-second fallback is reached.
 */
module SchedulerProperties {
  import opened Clock
  import opened Text
  import opened Window
  import opened Scheduler

  /** The scheduler restricts hours exactly when the configured mode is "specific_hours" in any case. */
  lemma {:induction false} SpecificHoursModeIff(mode: Option<string>)
    ensures NormalizeMode(mode) == SpecificHoursMode
        <==> mode.Some? && EqualsIgnoringCase(mode.value, SpecificHoursMode)
  {
    match mode
    case None =>
      assert |DefaultMode| != |SpecificHoursMode|;
    case Some(m) =>
      if m == "" {
        assert |DefaultMode| != |SpecificHoursMode|;
      } else {
        ToLowerEqualsIff(m, SpecificHoursMode);
      }
  }

  /**
   * The hour policy: every hour is active unless the mode is
   * "specific_hours" with a non-empty set of hours, and then exactly the
   * hours in the set are.
   */
  lemma HourIsActiveCases(s: BurstScheduler, t: nat)
    ensures s.scheduleMode != SpecificHoursMode ==> s.HourIsActive(t)
    ensures s.scheduleMode == SpecificHoursMode && s.activeHours == {} ==> s.HourIsActive(t)
    ensures s.scheduleMode == SpecificHoursMode && s.activeHours != {} ==> (s.HourIsActive(t) <==> Hour(t) in s.activeHours)
  {
  }

  /**
   * The hour policy read from the raw configuration: an hour is active
   * unless the mode spells "specific_hours" in some letter case and a
   * non-empty list of hours is given that does not hold it.
   */
  lemma {:induction false} CreateHourPolicy(a: int, b: int, mode: Option<string>, hours: Option<seq<int>>, t: nat)
    ensures Create(a, b, mode, hours).HourIsActive(t)
        <==> !(mode.Some? && EqualsIgnoringCase(mode.value, SpecificHoursMode))
             || hours.None? || |hours.value| == 0 || Hour(t) in hours.value
  {
    var s := Create(a, b, mode, hours);
    SpecificHoursModeIff(mode);
    if hours.Some? && |hours.value| > 0 {
      assert hours.value[0] in s.activeHours;
    }
  }

  /** Under "every_hour" no hour of the day is excluded, whatever hours are listed. */
  lemma EveryHourExample(hours: Option<seq<int>>, t: nat)
    ensures Create(58, 2, Some("Every_Hour"), hours).scheduleMode == DefaultMode
    ensures Create(58, 2, Some("Every_Hour"), hours).HourIsActive(t)
  {
  }

  /** Under "specific_hours" with hours 9 and 14, hours 9 and 14 are active and hour 10 is not. */
  lemma SpecificHoursExample()
    ensures Create(58, 2, Some("specific_hours"), Some([9, 14])).HourIsActive(9 * 3600)
    ensures Create(58, 2, Some("specific_hours"), Some([9, 14])).HourIsActive(14 * 3600 + 59 * 60)
    ensures !Create(58, 2, Some("specific_hours"), Some([9, 14])).HourIsActive(10 * 3600)
  {
    assert NormalizeMode(Some("specific_hours")) == SpecificHoursMode;
    assert NormalizeHours(Some([9, 14])) == {9, 14};
  }

  /** Step `k` is the first of the search whose candidate is eligible. */
  ghost predicate IsFirstEligibleStep(s: BurstScheduler, now: nat, k: nat) {
    1 <= k < SearchBound && s.IsEligible(s.Candidate(now, k))
    && forall j :: 1 <= j < k ==> !s.IsEligible(s.Candidate(now, j))
  }

  /** No step of the search reaches an eligible candidate. */
  ghost predicate NoEligibleStep(s: BurstScheduler, now: nat) {
    forall j :: 1 <= j < SearchBound ==> !s.IsEligible(s.Candidate(now, j))
  }

  /**
   * When step `k` is the first eligible one, the wait is measured from `now`
   * to that candidate: it lies after the current minute and within the
   * `k`-th minute from it, and the one-second floor never applies.
   */
  lemma DelayToFirstEligible(s: BurstScheduler, now: nat, k: nat)
    requires IsFirstEligibleStep(s, now, k)
    ensures s.NextWindowDelay(now) == s.Candidate(now, k) - now
    ensures 60 * (k - 1) < s.NextWindowDelay(now) <= 60 * k
  {
  }

  /** When no candidate of the search is eligible, the wait is the 60-second fallback. */
  lemma DelayFallback(s: BurstScheduler, now: nat)
    requires NoEligibleStep(s, now)
    ensures s.NextWindowDelay(now) == FallbackDelay
  {
  }

  /**
   * The whole story of `NextWindowDelay`: either no step of the search is
   * eligible and the wait is the fallback, or some step is the first
   * eligible one and the wait runs from `now` to its candidate.
   */
  lemma DelayDescribed(s: BurstScheduler, now: nat)
    ensures (NoEligibleStep(s, now) && s.NextWindowDelay(now) == FallbackDelay)
         || exists k :: IsFirstEligibleStep(s, now, k) && s.NextWindowDelay(now) == s.Candidate(now, k) - now
  {
    match s.FirstEligibleStep(now, 1)
    case None =>
      DelayFallback(s, now);
    case Some(k) =>
      assert IsFirstEligibleStep(s, now, k);
      DelayToFirstEligible(s, now, k);
  }

  /** Two instants in the same minute are eligible alike. */
  lemma SameMinuteSameEligibility(s: BurstScheduler, t: nat, u: nat)
    requires t / 60 == u / 60
    ensures s.IsEligible(t) == s.IsEligible(u)
  {
    SameMinuteSameFields(t, u);
  }

  /** Within at most one day of steps the search meets every hour `h` at every minute `m`. */
  lemma StepWithinADay(s: BurstScheduler, now: nat, h: nat, m: nat) returns (k: nat)
    requires h < HoursPerDay && m < MinutesPerHour
    ensures 1 <= k <= MinutesPerDay
    ensures Hour(s.Candidate(now, k)) == h && Minute(s.Candidate(now, k)) == m
  {
    var n := now / 60;
    var x := 60 * h + m - (n + 1);
    k := 1 + x % 1440;
    var q := x / 1440;
    assert x == 1440 * q + x % 1440;
    assert s.Candidate(now, k) == 60 * (n + k);
    MinuteStartFields(n + k, h, m, -q);
  }

  /** Hours are restricted to a non-empty set that holds no hour of the day. */
  ghost predicate OnlyOutOfRangeHours(s: BurstScheduler) {
    s.scheduleMode == SpecificHoursMode && s.activeHours != {}
    && forall h :: h in s.activeHours ==> !(0 <= h < HoursPerDay)
  }

  /**
   * The fallback is reached exactly when the mode is "specific_hours" and
   * the set of hours is non-empty but holds no hour from 0 to 23. In every
   * other configuration an eligible minute comes within one day, well
   * inside the two-day search.
   */
  lemma {:induction false} FallbackOnlyForOutOfRangeHours(s: BurstScheduler, now: nat)
    ensures s.FirstEligibleStep(now, 1).None? <==> OnlyOutOfRangeHours(s)
    ensures s.FirstEligibleStep(now, 1).Some? ==> s.FirstEligibleStep(now, 1).value <= MinutesPerDay
  {
    if OnlyOutOfRangeHours(s) {
      forall t: nat ensures !s.HourIsActive(t) {
        assert Hour(t) < HoursPerDay;
      }
    } else {
      var h: nat := 0;
      if s.scheduleMode == SpecificHoursMode && s.activeHours != {} {
        var g :| g in s.activeHours && 0 <= g < HoursPerDay;
        h := g;
      }
      var k := StepWithinADay(s, now, h, s.window.startMinute % 60);
      assert s.HourIsActive(s.Candidate(now, k));
      assert s.IsEligible(s.Candidate(now, k));
    }
  }

  /**
   * The wait computed at an ineligible instant ends exactly at the start of
   * the next burst: no second before it is eligible and the second it
   * reaches is. This holds in every configuration except the one that
   * leads to the fallback.
   */
  lemma {:induction false} WaitEndsAtWindowStart(s: BurstScheduler, now: nat)
    requires !s.IsEligible(now)
    requires !OnlyOutOfRangeHours(s)
    ensures s.IsEligible(now + s.NextWindowDelay(now))
    ensures forall t: nat :: now <= t < now + s.NextWindowDelay(now) ==> !s.IsEligible(t)
  {
    FallbackOnlyForOutOfRangeHours(s, now);
    var k := s.FirstEligibleStep(now, 1).value;
    var c := s.Candidate(now, k);
    assert s.NextWindowDelay(now) == c - now;
    forall t: nat | now <= t < c
      ensures !s.IsEligible(t)
    {
      var j := t / 60 - now / 60;
      assert 0 <= j < k;
      if j == 0 {
        SameMinuteSameEligibility(s, t, now);
      } else {
        SameMinuteSameEligibility(s, t, s.Candidate(now, j));
      }
    }
  }

  /** In an every-hour 58-to-2 burst, 13:59:30 is eligible and 13:30:00 is not. */
  lemma EligibleNowExample(s: BurstScheduler)
    requires s.window == BurstWindow(58, 2) && s.scheduleMode == DefaultMode
    ensures s.IsEligible(13 * 3600 + 59 * 60 + 30)
    ensures !s.IsEligible(13 * 3600 + 30 * 60)
  {
  }

  /**
   * In an every-hour 58-to-2 burst, the wait from half past any hour (14:30:00
   * or 13:30:00, say) is 28 minutes, to 58 minutes past that hour.
   */
  lemma HalfPastDelay(s: BurstScheduler, hour: nat)
    requires s.window == BurstWindow(58, 2) && s.scheduleMode == DefaultMode
    ensures s.NextWindowDelay(hour * 3600 + 30 * 60) == 1680
  {
    var now := hour * 3600 + 30 * 60;
    assert now / 60 == 60 * hour + 30;
    forall j | 1 <= j < 28 ensures !s.IsEligible(s.Candidate(now, j)) {
      assert s.Candidate(now, j) / 60 == 60 * hour + 30 + j;
      assert Minute(s.Candidate(now, j)) == 30 + j;
    }
    assert Minute(s.Candidate(now, 28)) == 58;
    DelayToFirstEligible(s, now, 28);
  }

  /** Under "specific_hours" with only hour 24 listed, no hour ever matches and every wait is the fallback. */
  lemma OutOfRangeHourExample(now: nat)
    ensures Create(58, 2, Some("specific_hours"), Some([24])).NextWindowDelay(now) == FallbackDelay
  {
    assert NormalizeMode(Some("specific_hours")) == SpecificHoursMode;
    assert NormalizeHours(Some([24])) == {24};
    var s := Create(58, 2, Some("specific_hours"), Some([24]));
    FallbackOnlyForOutOfRangeHours(s, now);
  }
}
