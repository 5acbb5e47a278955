# QueueBreaker burst scheduler, modelled in Dafny

QueueBreaker redials a phone line over and over, but only during a burst
window that recurs every hour; a typical window runs from minute 58 to
minute 2. This project models the scheduler that decides when dialing may
happen (`scheduler.py`) and proves what it promises:

- **Burst window.** `BurstWindow.contains` tests whether a minute of the
  hour is in the window. It has three cases: ends that meet mean the whole
  hour, a plain inclusive range, and a range that wraps past minute 59.
- **Hour policy.** The scheduler's mode is `"specific_hours"` (compared after
  lower-casing) or anything else. Any other mode makes every hour eligible.
  Under `"specific_hours"` an empty set of hours also makes every hour
  eligible; otherwise only the hours in the set are.
- **Wait search.** `_seconds_until_next_window` steps forward from the
  current minute, one minute at a time, for 2879 steps. It returns the
  seconds until the first eligible minute, never less than 1, or 60 if it
  finds none.
- **Decisions.** One pass of `wait_for_window` either returns (a stop was
  requested, or now is eligible) or sleeps for the computed wait.
  `sleep_between_attempts` asks for at least 0.1 seconds.

Time is a natural number of seconds of naive local time.
`Minute(t) = (t / 60) % 60` and `Hour(t) = (t / 3600) % 24`. The
scheduler's fields are set once in `__init__` and never reassigned, so the
scheduler is a datatype value. `Scheduler.Create` models `__init__`.

Files:
- `clock.dfy`: module `Clock`, with the time fields and the arithmetic about minutes.
- `text.dfy`: module `Text`, with ASCII lower-casing.
- `window.dfy`: module `Window`, with `BurstWindow` and its lemmas.
- `scheduler.dfy`: module `Scheduler`, with configuration normalisation, the hour policy, the search (a recursive specification function and the loop method proved equal to it), the `wait_for_window` decision and the pause between attempts.
- `scheduler_properties.dfy`: module `SchedulerProperties`, with the lemmas about the scheduler.

Main results:
- `SecondsUntilNextWindow` computes exactly `NextWindowDelay`. Its loop invariant is that no candidate tried so far was eligible.
- In every configuration except the one that reaches the fallback, the wait computed at an ineligible instant ends on the first eligible second: no second before it is eligible (`WaitEndsAtWindowStart`).
- The 60-second fallback is reached exactly when the mode is `"specific_hours"` and the set of hours is non-empty but holds no hour from 0 to 23. In every other configuration an eligible minute is found within one day (`FallbackOnlyForOutOfRangeHours`). The comment at `scheduler.py:106` calls the fallback unreachable. It is reachable, because the hours are never range-checked (`scheduler.py:68`). For example, `active_hours = [24]` gives 60 at every instant (`OutOfRangeHourExample`).

The docstring at `scheduler.py:54-56` says that under `"specific_hours"`
the hours must hold at least one 24-hour-clock hour. The code does not
check this, and the model follows the code: any set of integers is
accepted, and the fallback is returned silently, without a log entry.

## Model

| member | source | states |
|---|---|---|
| `Clock.Minute` | scheduler.py:80 | the minute of an instant lies in 0..59 |
| `Clock.Hour` | scheduler.py:96 | the hour of an instant lies in 0..23 |
| `Clock.TruncToMinute` | scheduler.py:99 | truncation gives the start of the minute holding `t`, at most 59 seconds before it, on a whole minute |
| `Text.ToLower` | scheduler.py:67 | lower-casing keeps the length and lower-cases each character in place |
| `Text.ToLowerEqualsIff` | scheduler.py:67 | lower-casing gives a lower-case word `w` exactly when the input spells `w` up to case |
| `Window.BurstWindow.Contains` | scheduler.py:29-42 | `BurstWindow.contains`; no contract of its own: its three cases are stated by `ContainsWholeHour`, `ContainsPlainRange` and `ContainsWrapped` and its meaning by `ContainsIsForwardArc` |
| `Window.ContainsWholeHour` | scheduler.py:32-38 | ends equal modulo 60 make every integer minute, negative or above 59 included, part of the window |
| `Window.ContainsPlainRange` | scheduler.py:40-41 | with start before end (mod 60), a minute is in the window iff its residue lies between them, both ends included |
| `Window.ContainsWrapped` | scheduler.py:42 | with start after end (mod 60), a minute is in the window iff its residue is at or after the start or at or before the end |
| `Window.ContainsIsForwardArc` | scheduler.py:29-42 | for distinct ends, membership equals lying on the forward arc of the clock face from start to end: `(m - start) % 60 <= (end - start) % 60` |
| `Window.ContainsShiftInvariant` | scheduler.py:32-34 | moving the minute, the start or the end by whole hours does not change membership |
| `Window.WrappedWindowExample` | scheduler.py:42 | window 58 to 2 holds 59, 0 and 2 and not 3 or 57 |
| `Window.PlainWindowExample` | scheduler.py:40-41 | window 10 to 20 holds exactly the minutes 10 to 20 |
| `Scheduler.NormalizeMode` | scheduler.py:67 | the stored mode is never empty and has no upper-case letters |
| `Scheduler.NormalizeHours` | scheduler.py:68 | the stored hours are exactly the configured ones, and none when none are configured |
| `Scheduler.Create` | scheduler.py:59-68 | construction keeps the window ends as given and stores the normalised mode and hours |
| `Scheduler.BurstScheduler.HourIsActive` | scheduler.py:93-96 | `_hour_is_active`; no contract of its own: its cases are stated by `HourIsActiveCases` and, from the raw configuration, by `CreateHourPolicy` |
| `Scheduler.BurstScheduler.IsEligible` | scheduler.py:80 | the eligibility test of `wait_for_window` and of the search (line 103): an active hour and a minute inside the window; no contract of its own: `WaitEndsAtWindowStart` and `FallbackOnlyForOutOfRangeHours` state what it gives |
| `Scheduler.BurstScheduler.Candidate` | scheduler.py:99-102 | the candidate after `k` steps is on a whole minute, `k` minutes after the minute of `now`, and strictly after `now` when `k >= 1` |
| `Scheduler.BurstScheduler.FirstEligibleStep` | scheduler.py:101-105 | the search result, if any, is an eligible step within the bound with no eligible step before it; no result means no step in range is eligible |
| `Scheduler.BurstScheduler.NextWindowDelay` | scheduler.py:104-107 | the wait is never below one second |
| `Scheduler.BurstScheduler.SecondsUntilNextWindow` | scheduler.py:98-107 | the loop returns exactly the wait defined by the search specification, and at least 1 |
| `Scheduler.BurstScheduler.PollOnce` | scheduler.py:76-85 | a poll returns without sleeping iff a stop was requested or now is eligible; otherwise it sleeps for the computed wait, at least one second |
| `Scheduler.PauseBetweenAttempts` | scheduler.py:87-88 | the pause is the requested delay or 0.1 s, whichever is larger |
| `SchedulerProperties.SpecificHoursModeIff` | scheduler.py:67 | the scheduler restricts hours iff a mode was configured that spells "specific_hours" in any letter case |
| `SchedulerProperties.HourIsActiveCases` | scheduler.py:93-96 | any mode other than "specific_hours" makes every hour active; so does an empty set of hours; otherwise an hour is active iff it is in the set |
| `SchedulerProperties.CreateHourPolicy` | scheduler.py:67-68 | for every configuration, an hour is active iff the mode does not spell "specific_hours" in any case, or no hours or an empty list are given, or the hour is in the list |
| `SchedulerProperties.EveryHourExample` | scheduler.py:94-95 | the mode "Every_Hour" is stored lower-cased and then every hour is active, whatever hours are listed |
| `SchedulerProperties.SpecificHoursExample` | scheduler.py:96 | with "specific_hours" and hours 9 and 14, hours 9 and 14 are active and hour 10 is not |
| `SchedulerProperties.DelayToFirstEligible` | scheduler.py:101-105 | when step `k` is the first eligible one, the wait runs from `now` to that candidate and lies in `(60(k-1), 60k]` seconds; the current minute is never chosen |
| `SchedulerProperties.DelayFallback` | scheduler.py:106-107 | when no candidate within 2879 minutes is eligible, the wait is 60 seconds |
| `SchedulerProperties.DelayDescribed` | scheduler.py:101-107 | the wait is either the 60-second fallback with no eligible step, or the time from `now` to the candidate of the first eligible step |
| `SchedulerProperties.FallbackOnlyForOutOfRangeHours` | scheduler.py:93-107 | no eligible candidate is found iff the mode is "specific_hours" and the hours are non-empty with none in 0..23; otherwise one is found within 1440 steps |
| `SchedulerProperties.WaitEndsAtWindowStart` | scheduler.py:80-85 | in every configuration but the fallback one, the wait computed at an ineligible instant lands on an eligible second and every second before it is ineligible |
| `SchedulerProperties.EligibleNowExample` | scheduler.py:80 | in an every-hour 58-to-2 window, 13:59:30 is eligible and 13:30:00 is not |
| `SchedulerProperties.HalfPastDelay` | scheduler.py:98-105 | in an every-hour 58-to-2 window, the wait from half past any hour (14:30:00, 13:30:00) is 1680 seconds |
| `SchedulerProperties.OutOfRangeHourExample` | scheduler.py:106-107 | with "specific_hours" and only hour 24, every wait is the 60-second fallback |

## Left out

- Sleeping and the blocking loop of `wait_for_window`: only one pass of its decision is modelled (`PollOnce`). `sleep_with_stop` in `utils.py` is treated as an opaque call. No claim is made about wake-up latency.
- The stop event: it is taken as a boolean `stopRequested`, meaning the event exists and is set. A missing event (`None`) is `false`.
- The clock: `datetime.now()` becomes the parameter `now`.
- Fractions of a second: time is whole seconds, so the one-second floor in `_seconds_until_next_window` is modelled but can never apply. `DelayToFirstEligible` shows the wait is always more than `60(k-1)` seconds.
- Float durations: `sleep_between_attempts` is modelled in whole milliseconds. Not-a-number inputs are not modelled.
- Calendar effects: day, month and year rollover, daylight-saving changes, time zones, and the `OverflowError` of `datetime` near year 9999. The hour is `(t / 3600) % 24`.
- Non-ASCII case mapping in `str.lower()`: only `A`-`Z` are lower-cased. The only other characters Python lower-cases into ASCII letters are the Kelvin sign (to `k`) and the dotted capital I (to `i` plus a combining mark). Neither yields "specific_hours", so the mode test is unaffected.
- Conversion of configured hours by `int()` (`scheduler.py:68`): the model takes integer hours. It does not model `int()` truncating floats toward zero, turning booleans into 0 or 1 and parsing numeric strings, nor the `ValueError` or `TypeError` it raises on other values.
- Settings values outside the declared types: the model takes the mode as an optional string and the window ends as integers. It does not model a truthy non-string mode, on which `.lower()` raises `AttributeError` (`scheduler.py:67`), a falsy one such as `0` or `false`, which becomes `"every_hour"`, or float window ends such as 58.5, which make `contains` compare floats (`scheduler.py:33-42`).
- The debug log line at `scheduler.py:84`.
- `dialer.py`, `queuebreaker.py` and `core/tests.py`: these are UI automation, settings and log file I/O, hotkey threading, and an unrelated web test. They are not part of this model.
