# Verification model of the AWTRIX controller

A Dafny model of the controller's hard core, with machine-checked proofs: civil-time scheduling, the
weather event pipeline, the broker's session protocol, and the number parsers of the command line
and the configuration file. `dafny verify dfyconfig.toml` checks all of it.

## What is modelled

**Civil time.** An instant is an integer number of nanoseconds, a civil date a day number. `Clock.Zone`
is a time zone as an ordered list of offset changes, with the resolution of a local date and time
through gaps and folds. Controllers use a zone only through `Clock.LocalTime`. Three conditions on a
zone, each weaker than the one before, say how much of civil time survives it:

- *Regular*: changes are at least as far apart as their jumps, each fold lies inside one civil date, and
  so does each gap together with the stretch its readings are shifted onto. Then local time is
  *faithful*: dates never go back, a time is resolved to an instant on its own date, and midnight is the
  first instant of its date. Among well-spaced zones exactly the regular ones are faithful.
- *Orderly*: changes are well spaced, no fold crosses midnight, and no gap moves a whole-minute reading of
  one date past an instant of a later date. Then local time is *orderly*: dates never go back, and what a
  window or a calendar, configured in hours and minutes, resolves on a date falls between the start of
  that date and the start of the next.
- *Well spaced*: only the spacing. Orderly zones are exactly those in which the claims about windows and
  notifications hold (`WindowLimits`, `CalendarLimits`).

Day and night need something else again: that midnight is the first instant of its date. Among well-spaced
zones that is so exactly when no fold crosses a midnight and no gap opens before a midnight that it skips
(`OrderlyZones.MidnightsFirstExactly`). It is so in Nuuk, whose zone is not orderly
(`DayNightLimits.NuukMidnightsFirst`).

`Cells` numbers consecutive cells of integers and is what civil months, and the occurrences of a job,
have in common; `Calendar` proves the Gregorian conversion.

**Runs.** `BoundaryRun` is the run of a controller that re-derives its state at each due instant and
computes the next due instant from the due instant, never from the clock. `EnergySaving` and `DayNight`
are two such controllers, each a class whose methods are proved against the plan it follows.
`Scheduler` is the job loop, for any number of jobs stepped in any order and cancelled anywhere;
`Notification` the recurring calendars; `System` puts jobs and controllers together. `WindowLimits`,
`OneWindow`, `DayNightLimits` and `CalendarLimits` say exactly where their claims hold.

**Weather.** `Events` detects events in a forecast with the program's in-place loop, proved against
a declarative meaning, and `EventMeanings` says what each report means in terms of what was measured;
`EventState` is the notification state machine, proved to be a function of the history of polls;
`Mapping` the overlay selection; `WeatherController` the polls, the overlay memory and the replay cache,
over whole runs.

**Broker.** `BrokerHook` has the hook as a class whose methods are compositions of locked sections;
`HookRuns` is the state machine of those sections, with calls of any number of clients interleaved;
`ClientState` is the registry, the second map that the hook keeps in step.

**Numbers.** `GoNumbers` and `LenientNumbers` are the two base-0 integer parsers and the float
recogniser, each against an independent definition of its language.

## Where a claim needs a condition

- A controller running continuously and one restarted agree in every regular zone, in state and due
  instant (`EnergySaving.ContinuousAgreesWithRestart`), and in every orderly zone in state
  (`WindowLimits.StateAgreesWithRestart`). Of all well-spaced zones the orderly ones are exactly those in
  which all windows agree (`WindowLimits.AgreesExactlyInOrderlyZones`): every fold across midnight, and
  every gap that moves a reading past the start of a later date, has a window for which a restart
  disagrees. Two concrete zones are given: falling back from 00:30 to 23:30, close to St John's before
  2011 (`WindowLimits.HalfPastMidnightDisagrees`), and going forward from 23:00 to midnight, as Nuuk does
  since 2024 (`WindowLimits.ElevenToMidnightDisagrees`).
- For one given window, in a well-spaced zone without jumps of a day, the claim holds if and only if no
  change cuts the window off: no fold across midnight repeats its opening but not its closing, and no gap
  moves the end of a window that spans midnight into a later date while it skips the next opening too
  (`OneWindow.OneWindowAgreesExactly`, and over whole runs `OneWindow.OneWindowRunsAgreeExactly`).
- `next_transition` is documented as the first start or end after `now`. It is that for every `now` if
  and only if no non-empty window opens before the one of the previous date has closed
  (`WindowLimits.FirstBoundaryExactlyWhenApart`; `WindowLimits.NotTheFirstBoundary` is a window on a
  spring-forward night for which it is not). What always holds, and is all the controller needs, is that
  the state is constant up to the instant returned (`EnergySaving.Window.TransitionMeaning`).
- A notification job finds its least occurrence from every instant, whatever its schedule and time, in
  exactly the orderly zones (`CalendarLimits.EveryJobFindsLeastExactlyInOrderlyZones`). Where the clocks
  go from 00:30 back to 23:30 a job due daily at 00:15 that is registered at the change finds nothing and
  never fires (`CalendarLimits.QuarterPastMidnightNeverFires`).
- Day/night runs move on and are at every instant in the mode of a restart if and only if no date that
  outlasts its own sun awaits a sunrise before its end, and what each date's sun announces beyond its date
  agrees with the suns of the dates it reaches (`DayNightLimits.RunsAgreeExactly`, for any sun, from
  sunrises and sunsets alone). Where the sun rises on its own date and sets by the midnight that ends it
  both hold (`DayNight.RunIsExact`). They need not when location and time zone are configured
  independently: with Sydney's sun and dates in UTC, as when no time zone is configured on a machine in UTC,
  the sunrise fired for is the one awaited next, and the job fires for it without end
  (`DayNightLimits.SydneyNeverMovesOn`).
- The two broker maps agree when no connect or disconnect begins in a race: a disconnect races with a
  connect of its client if it has removed a connection already, or its session is current or about to be
  inserted. Overlaps that do not race, such as the late disconnect of a replaced session, are harmless.
  Every race has a completion that leaves the maps in disagreement, so at the moment a call begins the
  condition is exact (`HookRuns.AgreesExactlyWithoutRace`).

## Model

| member | source | states |
|---|---|---|
| Clock.Zone.ResolveMeaning | src/clock/mod.rs:43-59 | A wall time that happens is resolved to the first instant that shows it; one that never happens is skipped by a gap and resolved to an instant that shows it moved forward by exactly that gap. |
| Clock.Zone.ResolveCount | src/clock/mod.rs:43-59 | A wall time is shown by exactly one instant, or by exactly two that are the fold's length apart, the earlier being chosen, or by none in a gap. |
| Clock.Zone.LocalDateMonotone | src/energysaving/mod.rs:151-153 | In a regular zone the local date never goes back. |
| Clock.Zone.ResolveKeepsDate | src/clock/mod.rs:54-59 | In a regular zone a time on a date is resolved to an instant on that local date, through gaps and folds. |
| Clock.Zone.MidnightIsFirst | src/clock/mod.rs:61-71 | In a regular zone resolved midnight is the first instant of its local date, also when a gap skips it. |
| Clock.LocalTime.NextMidnightIsNext | src/clock/mod.rs:61-71 | The next midnight is strictly ahead, on a later date, and the date is the same at every instant before it. |
| Clock.Zone.RegularIsExact | src/clock/mod.rs:43-71 | A well-spaced zone is regular if and only if dates never go back, resolution keeps dates and midnight comes first. |
| OrderlyZones.RegularIsOrderly | src/clock/mod.rs:43-59 | Regular zones are orderly. |
| OrderlyZones.TimeIsOrderly | src/clock/mod.rs:43-71 | In an orderly zone dates never go back, a time is resolved no earlier than its date starts and no later than the next one does, and readings a day or more apart are resolved in order. |
| OrderlyZones.LongGapSpills | src/clock/mod.rs:46-48 | A gap of a day or more always moves a whole-minute reading past an instant of a later date. |
| OrderlyZones.MidnightsFirstExactly | src/clock/mod.rs:61-71 | Of the well-spaced zones, midnight is the first instant of its date in exactly those in which no fold crosses a midnight and no gap opens before a midnight that it skips. |
| BoundaryRun.ContinuousEqualsRestarted | src/energysaving/mod.rs:29-33 | A controller run from any instant has, at any later one, the state and the due instant of one restarted there. |
| BoundaryRun.StatesAgreeExactlyWhileWaiting | src/energysaving/mod.rs:29-33 | Over all runs and restarts the states agree if and only if they agree while the controller waits. |
| BoundaryRun.DuesIncrease | src/energysaving/mod.rs:220-229 | Due instants strictly increase, by at least one unit a firing, so a controller that is behind catches up. |
| BoundaryRun.ExactOnceCaughtUp | src/energysaving/mod.rs:231-239 | Under any clock readings whatever, once the next due instant is ahead the state is that of a restart. |
| BoundaryRun.ReportsAlternate | src/energysaving/mod.rs:235-255 | Under any clock, each reported state differs from the one before it, and the last one is the current state. |
| BoundaryRun.LaggingEqualsIdeal | src/energysaving/mod.rs:231-239 | A clock that never runs ahead of the due instants reports exactly what the ideal clock reports. |
| BoundaryRun.IdealRunIsContinuous | src/scheduler/mod.rs:107-126 | Firing at each due instant up to now gives the continuous run. |
| EnergySaving.Window.UnchangedZone | src/energysaving/mod.rs:56-81 | Without zone changes a window opens and closes at its own times of day and lasts more than nothing and at most a day; one that ends no later than it starts ends the next day. |
| EnergySaving.Window.FirstPending | src/energysaving/mod.rs:103-132 | The date found is in reach and its window non-empty and not over, and no date before it in the walk has one. |
| EnergySaving.Window.Walk | src/energysaving/mod.rs:103-132 | The day-by-day loop returns the first boundary ahead of the first window that is non-empty and not over, and nothing if the days run out. |
| EnergySaving.Window.TwoDatesAreEnough | src/energysaving/mod.rs:87-96 | The state is active exactly when the non-empty window of some date, however far, contains the instant. |
| EnergySaving.Window.TransitionMeaning | src/energysaving/mod.rs:98-132 | The instant found is the start or end of a non-empty window and the state is constant up to it. |
| EnergySaving.Window.SearchFails | src/energysaving/mod.rs:98-132 | The search fails exactly when yesterday's and today's windows are empty or over and the next six are all empty. |
| EnergySaving.Window.ArmAhead | src/energysaving/mod.rs:218-229 | The next due instant is strictly ahead, whether a boundary or midnight. |
| EnergySaving.Window.QuietUntilMidnight | src/energysaving/mod.rs:218-229 | When nothing is found the state is inactive until midnight. |
| EnergySaving.Window.Agrees | src/energysaving/mod.rs:29-33 | In orderly local time the state is constant while the controller waits. |
| EnergySaving.Window.SameBoundary | src/energysaving/mod.rs:103-132 | Asked again at any instant while waiting, the search finds the same boundary. |
| EnergySaving.Window.PlanSound | src/energysaving/mod.rs:29-33 | In faithful local time state and due instant are constant from any instant until the due instant, which is strictly later. |
| EnergySaving.ContinuousAgreesWithRestart | src/energysaving/mod.rs:29-33 | For every regular zone, every start and end and every two instants, the continuous run and the restart agree in state and due instant. |
| WindowLimits.StateAgreesWithRestart | src/energysaving/mod.rs:29-33 | For every orderly zone, every start and end and every two instants, the continuous run and the restart agree in state. |
| WindowLimits.AgreesExactlyInOrderlyZones | src/energysaving/mod.rs:29-33 | Of all well-spaced zones, all windows agree with their restarts in exactly the orderly ones. |
| WindowLimits.FoldDisagrees | src/energysaving/mod.rs:87-96 | Every fold across midnight, of any length, has a window for which a restart disagrees with the waiting controller. |
| WindowLimits.GapDisagrees | src/energysaving/mod.rs:87-96 | Every gap, of any length, that moves a reading past an instant of a later date has such a window. |
| WindowLimits.HalfPastMidnightDisagrees | src/energysaving/mod.rs:87-96 | A concrete zone, falling back from 00:30 to 23:30, in which that happens. |
| WindowLimits.ElevenToMidnightDisagrees | src/energysaving/mod.rs:87-96 | A concrete zone, going from 23:00 to midnight, and a 23:45 to 23:30 window for which a restart at midnight disagrees. |
| WindowLimits.FirstBoundaryExactlyWhenApart | src/energysaving/mod.rs:98-102 | Every transition found is the first start or end ahead if and only if each non-empty window closes before the next date's non-empty one opens. |
| WindowLimits.NotTheFirstBoundary | src/energysaving/mod.rs:98-132 | For a 03:15 to 02:30 window on a spring-forward night the search returns the close at 03:30 although the next window opens at 03:15. |
| OneWindow.OneWindowAgreesExactly | src/energysaving/mod.rs:29-33 | In a well-spaced zone without jumps of a day, one window's controller agrees with its restarts while it waits if and only if no fold and no gap cuts the window off. |
| OneWindow.OneWindowRunsAgreeExactly | src/energysaving/mod.rs:29-33 | Where changes are days apart as well, its runs move on, and the states agree over all of them under the same condition exactly. |
| OneWindow.AlwaysFinds | src/energysaving/mod.rs:98-132 | There the search always finds a boundary, so the midnight fallback is never taken. |
| EnergySaving.EnergySaving.constructor | src/energysaving/mod.rs:175-184 | A new controller is inactive. |
| EnergySaving.EnergySaving.Start | src/energysaving/mod.rs:187-205 | The stored state and the first due instant are those of the plan at the current instant. |
| EnergySaving.EnergySaving.Arm | src/energysaving/mod.rs:218-229 | The due instant is the boundary found, else the next local midnight. |
| EnergySaving.EnergySaving.Update | src/energysaving/mod.rs:231-239 | The stored state becomes that of the later of clock and due instant, and is reported exactly when it changed. |
| EnergySaving.EnergySaving.Drive | src/energysaving/mod.rs:187-255 | Started and fired once per clock reading, the object is in the state, waits for the instant and has made the reports of the specified run. |
| DayNight.Site.PlanSound | src/daynight/mod.rs:171-224 | Mode and due instant are constant from any instant until the due instant, for any sun that rises on its date and sets by midnight. |
| DayNightLimits.RetryAtNextDate | src/daynight/mod.rs:188-224 | When the date has no sun, or both its events are past and tomorrow has none, the next due instant is on a later date and no instant before it is, so the job waits out exactly the rest of the date. |
| DayNightLimits.PolarDateFiresOnce | src/daynight/mod.rs:188-206 | On a date without a sun a run fires at most once: every later firing is on a later date. |
| DayNightLimits.AwaitsSunEvent | src/daynight/mod.rs:188-224 | Otherwise the next due instant is a sunrise or sunset of the current or the next date. |
| DayNightLimits.WakesForCause | src/daynight/mod.rs:171-224 | Where the sun rises on its date and sets by midnight, a due instant is one at which the mode changes or a new date begins, and nothing else. |
| DayNight.RunIsExact | src/daynight/mod.rs:133-224 | At every instant of a run, over any pattern of polar dates, the mode is day exactly when the local date's sun is known and up. |
| DayNight.NoSunriseMissed | src/daynight/mod.rs:188-224 | Whatever the controller waits for before a sunrise is due no later than the sunrise, and the mode is then day. |
| DayNightLimits.RunsAgreeExactly | src/daynight/mod.rs:171-224 | For any sun at all: every run moves on and is at every instant in the mode of a restart, if and only if no date that outlasts its own sun awaits a sunrise before its end and the suns of later dates bear out what each date's sun announces for them. |
| DayNightLimits.MovesOnExactly | src/daynight/mod.rs:188-224 | Due instants always move on if and only if no date that outlasts its own sun awaits a sunrise before its end. |
| DayNightLimits.WaitingAgreesExactly | src/daynight/mod.rs:171-224 | A restart agrees with the waiting controller if and only if the suns of later dates bear out what each date's sun announces for them. |
| DayNightLimits.StuckAtSunrise | src/daynight/mod.rs:207-224 | A sunrise that falls on the date before its own, after both of that date's events, is due again after every firing. |
| DayNightLimits.SydneyNeverMovesOn | src/daynight/mod.rs:207-224 | Sydney's sun with dates in UTC: waiting agrees, due instants do not move on, and a restart after the next midnight says day. |
| DayNightLimits.LateSunsetDisagrees | src/daynight/mod.rs:207-224 | Where the sun rises inside its date, at the midnight before a late sunset the waiting controller says day and a restart night. |
| DayNightLimits.AgreesExactlyWhenSetByMidnight | src/daynight/mod.rs:171-224 | There a restart agrees with the waiting controller if and only if the sun never sets after the midnight that ends its date. |
| DayNightLimits.NuukMidnightsFirst | src/clock/mod.rs:61-71 | Where the clocks go from 23:00 to midnight, midnight comes first although the zone is not orderly. |
| DayNight.DayNight.constructor | src/daynight/mod.rs:111-131 | A new controller is in night mode. |
| DayNight.DayNight.Start | src/daynight/mod.rs:133-153 | The stored mode and first due instant are those of the plan, polar dates included. |
| DayNight.DayNight.Update | src/daynight/mod.rs:173-183 | The mode is derived at the later of clock and due instant, and reported exactly when it changed. |
| DayNight.DayNight.Drive | src/daynight/mod.rs:133-205 | Started and fired once per clock reading, the object follows the specified run, reports included. |
| Calendar.Months.OfDay | src/notification/mod.rs:331-368 | Every day number is a date of its month, and is given back by that date. |
| Calendar.Months.CivilRoundTrip | src/notification/mod.rs:331-368 | Every civil date is given back by its day number. |
| Calendar.GregorianIsValid | src/notification/mod.rs:361-368 | The Gregorian months follow each other without gap or overlap. |
| Calendar.YearStarts | src/notification/mod.rs:342-357 | Summed month lengths meet the closed form for the first day of any year, before and after 1970. |
| Notification.Job.OnCalendarIsDate | src/notification/mod.rs:303-368 | The dates singled out by weekday, by day clamped to the month's end, or by month and clamped day are exactly one date per week, month or year, in order. |
| Notification.Job.OnCalendarMeans | src/notification/mod.rs:311-368 | A weekly job is meant for one day in seven, a monthly one for the given day or, where the month has no such day, its last, and a yearly one for that day of its month only. |
| Notification.LeapDay | src/notification/mod.rs:340-368 | A yearly 02-29 is meant for 29 February in leap years and for 28 February in others. |
| Notification.Weekdays | src/notification/mod.rs:311-326 | Weekdays count from Monday: 1 January 1970 is a Thursday and 1 January 2000 a Saturday, each date one weekday on. |
| Notification.Job.CandidatesEnclose | src/notification/mod.rs:303-357 | The two dates looked at are consecutive dates of the schedule, with the one before them past and the second ahead. |
| Notification.Job.NextIsLeast | src/notification/mod.rs:227-234 | The next occurrence is after the given instant, is an occurrence, and no occurrence lies between. |
| Notification.Job.DueInstantsEnumerateTheCalendar | src/notification/mod.rs:227-357 | Computed each from the one before, due instants strictly increase and are exactly the later occurrences of the daily, weekly, monthly or yearly schedule, in any orderly local time. |
| Notification.GregorianJob | src/notification/mod.rs:82-87 | All this applies to every schedule and time over the Gregorian calendar in any orderly local time. |
| CalendarLimits.EveryJobFindsLeastExactlyInOrderlyZones | src/notification/mod.rs:227-297 | Of the well-spaced zones without jumps of a week, every job finds its least occurrence from every instant in exactly the orderly ones. |
| CalendarLimits.FoldFindsNothing | src/notification/mod.rs:286-309 | At any fold across midnight a job due daily at midnight finds nothing. |
| CalendarLimits.GapMissesWeekly | src/notification/mod.rs:286-326 | A gap that moves a reading past an instant of a later date makes the weekly job on that reading miss it. |
| CalendarLimits.QuarterPastMidnightNeverFires | src/notification/mod.rs:304-309 | A concrete zone and daily job that is due at the largest timestamp. |
| Scheduler.ActionsAreIterates | src/scheduler/mod.rs:79-127 | Over any run of any number of jobs, a job has started its action exactly for the first iterates of its reschedule function, in order, and is due at the next. |
| Scheduler.StartsOnlyWhenElapsed | src/scheduler/mod.rs:107-119 | Over any run an action is started at most once each time its sleep is found over, so never without. |
| Scheduler.OneRound | src/scheduler/mod.rs:107-126 | A round with the sleep over starts the action once, for the instant it was due at, and makes the job due at the instant its reschedule function gives for that one; a round before changes nothing. |
| Scheduler.CancelStopsJobs | src/scheduler/mod.rs:112-133 | After a cancel a job starts at most the one action whose wait was already past the cancel check; jobs registered later start none. |
| Scheduler.CancelledJobsReturn | src/scheduler/mod.rs:129-139 | Every step a cancelled job takes brings it closer to returning, and a returned job stays returned. |
| Scheduler.StopEnds | src/scheduler/mod.rs:135-139 | After a cancel, with nothing registered any more, only as many events as the jobs have steps left can change anything. |
| Scheduler.StopWaitsForAll | src/scheduler/mod.rs:135-139 | After a cancel no event can change anything if and only if every job has returned. |
| Scheduler.Scheduler.Schedule | src/scheduler/mod.rs:92-111 | A registered job waits for its first due instant and has started nothing; other jobs are untouched. |
| Scheduler.Scheduler.CancelAll | src/scheduler/mod.rs:129-133 | Cancelling sets the flag and touches no job. |
| Scheduler.Scheduler.PollWait | src/scheduler/mod.rs:107-119 | The biased wait looks at the cancel before the sleep: it is the two steps of the model in that order. |
| Scheduler.Scheduler.EndAction | src/scheduler/mod.rs:119-125 | An ended action returns when cancelled and else waits for the instant its reschedule function gives from the due instant. |
| System.NotificationsFollowTheCalendar | src/notification/mod.rs:110-136 | However a scheduler's jobs interleave, the instants a notification job started for are exactly the occurrences from registration to the last one started, in strict order. |
| System.ControllerJobIsExact | src/scheduler/mod.rs:92-127 | Any sound controller on a scheduler job has, under any clock, the state of a restart once it has caught up. |
| System.EnergySavingJobIsExact | src/energysaving/mod.rs:187-205 | The same for energy saving, in any faithful local time. |
| System.DayNightJobIsExact | src/daynight/mod.rs:153-168 | The same for day and night. |
| Events.FreezingIsFrost | src/weather/events/mod.rs:146-178 | Reported freezing precipitation comes with a severe frost risk that starts no later. |
| Events.DetectionUnique | src/weather/events/mod.rs:88-93 | A forecast has only one detection of a type: the meaning determines it. |
| Events.Detected | src/weather/events/mod.rs:100-126 | A detection has the earliest start and the highest severity that count in the closed horizon, both attained, and is absent exactly when no step counts. |
| Events.RecordEvent | src/weather/events/mod.rs:180-198 | Only the type's slot changes: it keeps the earlier start and the higher severity. |
| Events.CheckPoint | src/weather/events/mod.rs:146-178 | Every type's slot is updated by what the step counts for it. |
| Events.Scan | src/weather/events/mod.rs:118-124 | The in-place loop leaves in each slot the detection of its type over all steps. |
| Events.DetectEvents | src/weather/events/mod.rs:102-144 | The candidates are the detections of the enabled types, one each, in strictly ascending order of type. |
| Events.ReportedInTypeOrder | src/weather/events/mod.rs:126-143 | The candidates are in strictly ascending order of event type, so each type has at most one. |
| Events.CandidateReported | src/weather/events/mod.rs:126-143 | A candidate is reported exactly when its type is enabled and it is the forecast's detection of that type. |
| Events.MorePointsReportMore | src/weather/events/mod.rs:105-264 | Adding steps never drops an event, delays its start or lowers its severity, although frost looks at other steps. |
| Events.ReportIgnoresOrder | src/weather/events/mod.rs:105-144 | Forecasts with the same steps, in any order and multiplicity, report the same. |
| Events.Bucket | src/weather/events/mod.rs:129-134 | The rounded start is the half hour at or before the start, before 1970 too. |
| Events.FingerprintInjective | src/weather/events/mod.rs:126-143 | Fingerprints are equal exactly when type, half hour and severity are. |
| Events.FingerprintText | src/weather/events/mod.rs:126-143 | Three fingerprints as text, one of a start before 1970: type, half hour in seconds, severity. |
| EventMeanings.HorizonMeans | src/weather/events/mod.rs:110-122 | For any configured hours, huge or negative, the saturating horizon admits exactly the steps from now to that many hours ahead, both ends included. |
| EventMeanings.ThunderstormMeans | src/weather/events/mod.rs:200-206 | Thunder is reported exactly when some step ahead has code 95, 96 or 99, from the first such step, and is severe exactly when some has 96 or 99. |
| EventMeanings.FreezingPrecipMeans | src/weather/events/mod.rs:157-163 | Freezing precipitation is reported, always severe, exactly when some step ahead has one of its four codes, from the first such step. |
| EventMeanings.FrostRiskMeans | src/weather/events/mod.rs:218-264 | Frost is severe exactly when some step ahead has a freezing code or at least 0.1 mm at 0.5 degrees at most; it is reported for these and for cold steps with a small dew-point spread and enough precipitation within the wet window, from the first of either. |
| EventMeanings.HeavyRainMeans | src/weather/events/mod.rs:266-274 | Heavy rain is reported exactly when some step ahead has code 82 or more precipitation than the limit, from the first such step, and is severe exactly when some has code 82. |
| EventMeanings.StrongGustsMeans | src/weather/events/mod.rs:276-285 | Gusts are reported exactly when some step ahead has more than either limit, from the first such step, and are severe exactly when some has more than the severe one. |
| EventMeanings.SnowMeans | src/weather/events/mod.rs:287-307 | Snow is reported exactly when some step ahead has one of its six codes, from the first such step, and is severe exactly when some such has more than 0.5 cm. |
| EventMeanings.FogMeans | src/weather/events/mod.rs:309-322 | Fog is reported exactly when some step ahead has one of its codes with the visibility unknown or below either limit, from the first such step, and is severe exactly when some such is below the severe limit. |
| Events.OverlayHasWarning | src/weather/events/mod.rs:157-216 | When the overlay horizon fits in the notification horizon, a thunder, frost, storm or snow overlay comes with its enabled event, starting no later than any step that caused the overlay. |
| Mapping.SelectedIsStrongest | src/weather/mapping/mod.rs:133-169 | The selected overlay is that of some step in the half-open window and none there is stronger; absent when no step has one. |
| Mapping.SelectionIgnoresOrder | src/weather/mapping/mod.rs:148-169 | Forecasts with the same steps select the same overlay. |
| Mapping.SelectedByCodes | src/weather/mapping/mod.rs:103-169 | The overlay is the first of thunder, frost, storm, snow, rain and drizzle to have a step with one of its weather codes from now to before the configured minutes ahead, however many these are. |
| EventState.StateManager.constructor | src/weather/state/mod.rs:51-60 | Every event type starts inactive and never sent. |
| EventState.StateManager.Find | src/weather/state/mod.rs:79-83 | The last candidate of a type wins. |
| EventState.StateManager.Update | src/weather/state/mod.rs:85-111 | Only that type's state changes, by the rule; notified exactly when found and the rule says so. |
| EventState.StateManager.Process | src/weather/state/mod.rs:67-113 | All states step at once, and the notified candidates are those of the old states, each once, in strictly ascending order of type. |
| EventState.NotifiedInTypeOrder | src/weather/state/mod.rs:76-103 | What a poll notifies is in strictly ascending order of event type, so nothing is notified twice. |
| EventState.LastWins | src/weather/state/mod.rs:78-83 | Of several candidates of a type the last one is the one that counts. |
| EventState.StateManager.OnFetchFailure | src/weather/state/mod.rs:115-116 | A failed fetch changes nothing. |
| EventState.StateIsHistory | src/weather/state/mod.rs:34-116 | Over any polls the whole state is a function of history: active while found and missed by fewer successful polls than it takes, with that count, the last sighting and the last notification. |
| EventState.NotifiesByState | src/weather/state/mod.rs:89-102 | A poll notifies exactly when history says new, returned, escalated, changed or due again. |
| EventState.CloseNotificationsHaveCause | src/weather/state/mod.rs:62-66 | Two notifications closer than the repeat interval have a return, an escalation or a change as cause. |
| EventState.EscalationChangesFingerprint | src/weather/state/mod.rs:91-102 | Fed by the detector, an escalation always changes the fingerprint too. |
| WeatherController.Controller.constructor | src/weather/controller/mod.rs:134-165 | A new controller shows no overlay, remembers no batch and has no active event. |
| WeatherController.Controller.ApplyOverlay | src/weather/controller/mod.rs:320-333 | The overlay is remembered, and published only when it differs. |
| WeatherController.Controller.Poll | src/weather/controller/mod.rs:233-318 | Memory, published overlays and sent notifications of a poll that succeeds, fails or is cancelled. |
| WeatherController.Controller.SendAll | src/weather/controller/mod.rs:308-350 | Each candidate goes, in order, to every client connected when its turn comes. |
| WeatherController.SentInTurn | src/weather/controller/mod.rs:315-350 | Which candidate goes to which client at which place among all the sends of a poll, and how many sends there are. |
| WeatherController.Controller.OnDeviceConnected | src/weather/controller/mod.rs:198-231 | A connecting device is sent the whole remembered batch while both ages are below their limits, else nothing. |
| WeatherController.OverlaysFollowTheForecast | src/weather/controller/mod.rs:233-333 | Over any polls published overlays never repeat consecutively, and the last is the selection of the latest poll that was not cancelled. |
| WeatherController.StatesAreHistories | src/weather/controller/mod.rs:284-318 | Over any polls each event's state is that of the run as the event saw it, cancelled polls leaving no trace. |
| WeatherController.PollNotifiesByHistory | src/weather/controller/mod.rs:273-311 | Over any run a poll notifies exactly the detected events whose history gives a cause. |
| WeatherController.PolicyMeans | src/weather/controller/mod.rs:284-289 | For any configured count, however large, a repeat is due exactly when that many minutes have passed, and an event is dropped after the configured number of misses. |
| WeatherController.SilenceKeepsCache | src/weather/controller/mod.rs:92-99 | Polls that notify nothing neither drop nor refresh the remembered batch. |
| WeatherController.ReplayIsLastBatch | src/weather/controller/mod.rs:198-231 | After any run the replay is the batch of the last poll that notified, exactly while both ages, since that poll and since its fetch began, are below their limits. |
| WeatherController.ReplayWhileFresh | src/weather/controller/mod.rs:203-220 | The same in minutes: the batch is replayed exactly while the configured repeat minutes since it was sent and the configured stale minutes since its fetch began have not passed, without overflow. |
| WeatherController.NothingToReplay | src/weather/controller/mod.rs:203-213 | Before any notification nothing is replayed. |
| ClientState.Registry.Register | src/clientstate/mod.rs:63-67 | The client gets an empty state; others are untouched. |
| ClientState.Registry.Unregister | src/clientstate/mod.rs:73-76 | Only that client goes, if it was there. |
| ClientState.WithStats | src/clientstate/mod.rs:82-96 | Only the stats of that client change, and only if it is registered. |
| ClientState.WithApp | src/clientstate/mod.rs:102-107 | Only the app of that client changes, and only if it is registered. |
| ClientState.Registry.UpdateStats | src/clientstate/mod.rs:82-96 | A registered client's stats change; an unknown one is never added. |
| ClientState.Registry.UpdateCurrentApp | src/clientstate/mod.rs:102-107 | A registered client's app changes; an unknown one is never added. |
| ClientState.Registry.ConnectedIds | src/clientstate/mod.rs:113-117 | The IDs are strictly ascending and are exactly the registered ones. |
| BrokerHook.ControllerHook.constructor | src/broker/hook.rs:108-126 | A new hook is open and both maps are empty. |
| BrokerHook.ControllerHook.Authenticate | src/broker/hook.rs:124-143 | Allowed if and only if the hook is open and both credentials are given and equal; not authorized if and only if closing. |
| BrokerHook.ControllerHook.Connected | src/broker/hook.rs:145-158 | The session replaces any other, stored as not ready, the client is registered afresh, and the connection is reported. |
| BrokerHook.ControllerHook.Disconnected | src/broker/hook.rs:160-182 | Both entries go if the session is current, and nothing changes otherwise. |
| BrokerHook.ControllerHook.Published | src/broker/hook.rs:184-226 | What each topic stores, and that a device is reported ready by stats only, when its session becomes ready. |
| BrokerHook.RoutesByEnding | src/broker/hook.rs:184-226 | Each of the five topics is recognised by its ending, whatever precedes it. |
| BrokerHook.RoutesNothingElse | src/broker/hook.rs:184-226 | A topic is ignored exactly when it has none of these endings. |
| BrokerHook.ControllerHook.MarkReady | src/broker/hook.rs:228-238 | Ready exactly when the publisher's session is current and was not ready, and then marked. |
| BrokerHook.StoredAsPublished | src/broker/hook.rs:184-226 | What a registered client publishes is what the registry then has of it, its other field and other clients untouched; unreadable stats and unregistered clients store nothing. |
| BrokerHook.FirstStatsMakeReady | src/broker/hook.rs:145-238 | The first stats of a session that has just connected make its device ready, the next do not. |
| BrokerHook.ControllerHook.StateFailed | src/broker/hook.rs:244-247 | A failure closes the hook and is reported. |
| HookRuns.RegisteredIffConnected | src/broker/hook.rs:145-182 | Over any run in which no call begins in a race, with all else overlapping at lock granularity, a client with no connect or disconnect between its sections is registered if and only if it has a connection. |
| HookRuns.RaceDisagrees | src/broker/hook.rs:145-182 | From any state at all, a race has a completion that leaves the client idle and the maps in disagreement. |
| HookRuns.AgreesExactlyWithoutRace | src/broker/hook.rs:145-182 | After a run without races, all completions of a call that begins leave the maps in agreement if and only if it races with none in flight. |
| HookRuns.OverlapDisagrees | src/broker/hook.rs:160-173 | A concrete run: a disconnect overtaken by a reconnect between its two sections leaves the client connected and not registered. |
| HookRuns.TakeoverCompletes | src/broker/hook.rs:145-158 | Once a takeover has inserted its session, however many stale calls come and go, its second section leaves the new session current and registered. |
| HookRuns.TakeoverHolds | src/broker/hook.rs:145-158 | A connect that no call in flight can harm ends, whatever stale calls come and go, with its session current and registered. |
| HookRuns.ReadyOnlyByItsOwnStats | src/broker/hook.rs:184-238 | Over any run in which a session publishes no stats itself it is neither reported nor marked ready, whatever replaced sessions publish. |
| HookRuns.ReadyWithFirstStats | src/broker/hook.rs:184-238 | Over any run in which a session stays current, however calls interleave, it is reported ready exactly once more if it was not ready and has completed a publish of stats, and otherwise not. |
| HookRuns.ConnectedReportsReady | src/broker/hook.rs:145-238 | From the insertion of its connect on, a session that is not ended or replaced is reported ready exactly once, with the first stats it completes. |
| HookRuns.SessionSurvives | src/broker/hook.rs:69-72 | From then on no late disconnect or publish of a replaced session removes the current session or its registration. |
| HookRuns.ReadyAtMostOncePerConnect | src/broker/hook.rs:228-238 | Over any run, races included, a session is reported ready at most as often as it connected. |
| HookRuns.CallAlone | src/broker/hook.rs:145-226 | A call whose sections nothing interrupts does to the maps what the hook object does. |
| HookRuns.ClosedAdmitsNone | src/broker/hook.rs:265-268 | Over any run after the hook has closed no call begins and no session is inserted but those admitted before. |
| GoNumbers.UnderscoreRuleIsGrammar | src/cli/mod.rs:478-493 | The rule on each underscore's neighbours accepts exactly digits with single underscores between them, or one right after a prefix. |
| GoNumbers.ParsesExactlyTheLiterals | src/cli/mod.rs:438-476 | The parser returns v exactly when the text is a base-0 literal with optional sign that stands for v, and v fits in 64 bits. |
| GoNumbers.PlusMeans | src/cli/mod.rs:438-476 | A plus sign before an unsigned literal changes nothing, whatever its base. |
| GoNumbers.MinusMeans | src/cli/mod.rs:438-476 | A minus sign negates the value; only the least 64-bit number has no literal without its sign. |
| GoNumbers.FormatRoundTrip | src/cli/mod.rs:438-476 | Every 64-bit value printed in base 2, 8, 10 or 16 is parsed back. |
| LenientNumbers.ParsersAgree | src/config/lenient.rs:104-132 | On text without underscores the two parsers return the same value or both refuse. |
| LenientNumbers.ConfigurationAgrees | src/config/lenient.rs:83-102 | Whenever the command line reads an integer, the configuration file reads the same integer. |
| LenientNumbers.ResolvesExactly | src/config/lenient.rs:83-102 | A scalar that starts like a number is, without its underscores, the 64-bit integer it stands for, and only if it stands for none a float, exactly when it has the form of one. |
| LenientNumbers.FloatLanguage | src/config/lenient.rs:134-154 | The recogniser accepts exactly the texts its regular expression denotes. |

## Left out

- Instants and dates at the ends of the representable range: the civil-time core is over all integers, so resolution errors and a missing tomorrow do not occur; the weather horizons do saturate.
- The zone database: a zone is an arbitrary explicit list of changes, and the properties name the condition it has to meet.
- Sunrise and sunset themselves: the sun is an arbitrary partial function of the date, with its conditions stated.
- Floating point: measurements and thresholds are optional reals, so NaN, rounding and the overflow of the frost window are not modelled, nor is the value of a number read as a float.
- How long a job sleeps: the scheduler model lets a sleep end at any step, so it says which instants actions run for and in which order, not when.
- Lock poisoning and dropped weak references: locks are healthy and controllers live; a state failure is only the closing of the hook and the report it causes.
- A connecting device interleaved inside a poll: a poll is one step, and the replay reads the memory before or after it.
- Publishing: a send is recorded, not delivered; failures to publish, their counts and all logging are not part of the model, nor are notification texts, icons and local times in them.
- Fetching and the simulated forecast: a poll is given how its fetch ended, with the forecast and both clock readings.
- rmqtt, sockets, the artificial publish delay of the broker's tests, and the timed shutdown: the hook's calls are the only entry points, and a callback runs with the section that makes it due.
- Serialization of JSON and YAML, settings, and the fields of the stats payload.
- Parsing of schedules, weekdays, times and of every command-line option but integers, with `single_dash_long_form`: one-pass matching against tables, easier than what is here.
- HookRuns.RegisteredIffConnected: asks that no call began in a race, because a run with races can also happen to end with the maps agreeing; the condition is exact for what a call can still lead to when it begins.
- CalendarLimits.EveryJobFindsLeastExactlyInOrderlyZones: leaves out zones with a jump of a week or more, because the library's offsets lie within 26 hours of UTC and cannot jump that far.
- OneWindow.OneWindowAgreesExactly: leaves out zones with a jump of a day or more, as at the date line, for which only the condition over all windows is given; `OneWindow.OneWindowRunsAgreeExactly` also leaves out zones whose changes are less than four days apart.
- WeatherController.Controller.Poll: the connected clients are a parameter per candidate, because they are the registry's at the time of each publish.
