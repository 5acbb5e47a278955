/**
 * The burst scheduler: which hours of the day are eligible, whether an
 * instant is inside an active burst, how long to sleep until the next one,
 * and the decisions `wait_for_window` and `sleep_between_attempts` make.
 */
module Scheduler {
  import opened Clock
  import opened Text
  import opened Window

  datatype Option<T> = None | Some(value: T)

  /** The mode named when none (or an empty name) is configured. */
  const DefaultMode: string := "every_hour"
  /** The only mode that restricts the eligible hours. */
  const SpecificHoursMode: string := "specific_hours"
  /** `range(1, 60 * 24 * 2)`: the search tries steps 1 to 2879, one minute apart. */
  const SearchBound: nat := 60 * 24 * 2
  /** Seconds returned when the search finds no eligible minute. */
  const FallbackDelay: int := 60
  /** The smallest wait the search returns, in seconds. */
  const MinDelay: int := 1
  /** The smallest pause between attempts, in milliseconds (0.1 seconds). */
  const MinPauseMillis: int := 100

  function Max(a: int, b: int): (r: int)
    ensures r >= a && r >= b
    ensures r == a || r == b
  {
    if a >= b then a else b
  }

  /** `(schedule_mode or "every_hour").lower()`. */
  function NormalizeMode(mode: Option<string>): (r: string)
    ensures r != []
    ensures forall i :: 0 <= i < |r| ==> !IsAsciiUpper(r[i])
  {
    match mode
    case None => DefaultMode
    case Some(m) => if m == "" then DefaultMode else ToLower(m)
  }

  /** `{int(h) for h in (active_hours or [])}`: the configured hours as a set. */
  function NormalizeHours(hours: Option<seq<int>>): (r: set<int>)
    ensures forall h :: h in r <==> hours.Some? && h in hours.value
  {
    match hours
    case None => {}
    case Some(hs) => set h | h in hs
  }

  /**
   * A scheduler as `BurstScheduler.__init__` leaves it. The source never
   * reassigns these fields afterwards, so the scheduler is a value.
   */
  datatype BurstScheduler = BurstScheduler(window: BurstWindow, scheduleMode: string, activeHours: set<int>) {

    /** `_hour_is_active`: whether the hour of `t` may hold a burst. */
    predicate HourIsActive(t: nat) {
      if scheduleMode != SpecificHoursMode then true
      else if activeHours == {} then true
      else Hour(t) in activeHours
    }

    /** The test `wait_for_window` and the search make: an active hour and a minute inside the window. */
    predicate IsEligible(t: nat) {
      HourIsActive(t) && window.Contains(Minute(t))
    }

    /** The instant the search looks at after `k` one-minute steps from `now` truncated to the minute. */
    function Candidate(now: nat, k: nat): (c: nat)
      ensures c % SecondsPerMinute == 0
      ensures c / SecondsPerMinute == now / SecondsPerMinute + k
      ensures k >= 1 ==> now < c
    {
      TruncToMinute(now) + 60 * k
    }

    /**
     * The first step from `k` on, below `SearchBound`, whose candidate is
     * eligible, or `None` when there is none.
     */
    function FirstEligibleStep(now: nat, k: nat): (r: Option<nat>)
      decreases SearchBound - k
      ensures r.Some? ==> k <= r.value < SearchBound && IsEligible(Candidate(now, r.value))
      ensures r.Some? ==> forall j :: k <= j < r.value ==> !IsEligible(Candidate(now, j))
      ensures r.None? ==> forall j :: k <= j < SearchBound ==> !IsEligible(Candidate(now, j))
    {
      if k >= SearchBound then None
      else if IsEligible(Candidate(now, k)) then Some(k)
      else FirstEligibleStep(now, k + 1)
    }

    /** What `_seconds_until_next_window(now)` returns. */
    function NextWindowDelay(now: nat): (r: int)
      ensures r >= MinDelay
    {
      match FirstEligibleStep(now, 1)
      case Some(k) => Max(Candidate(now, k) - now, MinDelay)
      case None => FallbackDelay
    }

    /**
     * `_seconds_until_next_window`: steps a candidate forward one minute at
     * a time from `now` truncated to the minute and returns the wait until
     * the first eligible one, or the fallback when none is found.
     */
    method SecondsUntilNextWindow(now: nat) returns (r: int)
      ensures r == NextWindowDelay(now)
      ensures r >= MinDelay
    {
      var candidate := TruncToMinute(now);
      for step := 1 to SearchBound
        invariant candidate == Candidate(now, step - 1)
        invariant forall j :: 1 <= j < step ==> !IsEligible(Candidate(now, j))
        invariant FirstEligibleStep(now, 1) == FirstEligibleStep(now, step)
      {
        candidate := candidate + 60;
        if IsEligible(candidate) {
          return Max(candidate - now, MinDelay);
        }
      }
      return FallbackDelay;
    }

    /**
     * One pass of the loop in `wait_for_window`: return when a stop was
     * requested or `now` is eligible, and otherwise sleep for the computed
     * wait before polling again.
     */
    method PollOnce(stopRequested: bool, now: nat) returns (a: WaitAction)
      ensures a == Return <==> stopRequested || IsEligible(now)
      ensures a.Sleep? ==> a.seconds == NextWindowDelay(now) && a.seconds >= MinDelay
    {
      if stopRequested {
        return Return;
      }
      if IsEligible(now) {
        return Return;
      }
      var sleepFor := SecondsUntilNextWindow(now);
      return Sleep(sleepFor);
    }
  }

  /** What one pass of `wait_for_window` does next. */
  datatype WaitAction = Return | Sleep(seconds: int)

  /** `BurstScheduler.__init__`. */
  function Create(startMinute: int, endMinute: int, mode: Option<string>, hours: Option<seq<int>>): (s: BurstScheduler)
    ensures s.window == BurstWindow(startMinute, endMinute)
    ensures s.scheduleMode == NormalizeMode(mode)
    ensures s.activeHours == NormalizeHours(hours)
  {
    BurstScheduler(BurstWindow(startMinute, endMinute), NormalizeMode(mode), NormalizeHours(hours))
  }

  /**
   * `sleep_between_attempts`: the pause it asks of the interruptible sleep,
   * in milliseconds. It is the requested delay, raised to 0.1 seconds when it
   * is shorter.
   */
  function PauseBetweenAttempts(delayMillis: int): (r: int)
    ensures r >= MinPauseMillis && r >= delayMillis
    ensures r == delayMillis || r == MinPauseMillis
  {
    Max(delayMillis, MinPauseMillis)
  }
}
