/** In which zones every notification job finds its least occurrence. */
module CalendarLimits {
  import opened Calendar
  import opened Clock
  import opened Notification
  import opened OrderlyZones
  import opened Wrappers

  // ---- Folds across midnight ----

  /** At a fold across midnight a job due daily at midnight finds nothing: both dates it looks at are
      past. */
  lemma FoldFindsNothing(zone: Zone, i: nat, months: Months)
    requires zone.WellSpaced() && i < |zone.changes| && zone.FoldCrosses(i) && months.Valid()
    ensures Job(Daily, 0, zone.Time(), months).Found(zone.changes[i].at) == None
  {
    var job, earlier := Job(Daily, 0, zone.Time(), months), DateOf(zone.Opens(i));
    FoldDates(zone, i);
    FoldMidnights(zone, i);
    ReadingBeforeFoldEnds(zone, i, earlier * DAY);
    ReadingBeforeFoldEnds(zone, i, (earlier + 1) * DAY);
    BothPast(job, zone.changes[i].at, earlier, earlier + 1);
  }

  lemma FoldMidnights(zone: Zone, i: nat)
    requires i < |zone.changes| && DateOf(zone.Opens(i)) < DateOf(zone.Closes(i) - 1)
    ensures DateOf(zone.Opens(i)) * DAY < (DateOf(zone.Opens(i)) + 1) * DAY < zone.Closes(i)
  {
  }

  lemma BothPast(job: Job, from: int, current: int, next: int)
    requires job.local.resolve(current, job.time) <= from && job.local.resolve(next, job.time) <= from
    ensures job.FirstAfter(from, [current, next]) == None
  {
    assert [current, next][1..] == [next];
    assert job.FirstAfter(from, [next]) == job.FirstAfter(from, [next][1..]) == None;
  }

  // ---- Gaps that spill ----

  /** The candidates of a weekly job looked for after its date are a week or more after that date. */
  lemma WeekLater(job: Job, date: int, today: int)
    requires job.months.Valid() && job.schedule == Weekly(WeekdayOf(date)) && date < today
    ensures var (current, next) := job.Candidates(today); date + DAYS_IN_WEEK <= current < next
  {
  }

  /** A weekly job on a skipped reading misses it, once the next date has begun before its time. */
  lemma GapMissesWeekly(job: Job, zone: Zone, i: nat, date: int, shown: int)
    requires Keeps(job.local, zone) && job.months.Valid() && job.schedule == Weekly(WeekdayOf(date))
    requires zone.WellSpaced() && i < |zone.changes| && zone.Jump(i) < DAYS_IN_WEEK * DAY
    requires Alone(zone, i, date, job.time, shown) && date < DateOf(shown)
    ensures !job.FindsLeast()
  {
    var from := shown - zone.changes[i].offset;
    AloneDates(zone, i, date, job.time, shown);
    AloneAfter(zone, i, date, job.time, shown, date);
    WeekLater(job, date, DateOf(shown));
    var (current, next) := job.Candidates(DateOf(shown));
    WeekResolvedAfter(job, zone, i, date, current);
    WeekResolvedAfter(job, zone, i, date, next);
    MissedBetween(job, from, date, current, next);
  }

  lemma WeekOn(date: int, later: int, time: int, jump: int)
    requires date + DAYS_IN_WEEK <= later && jump < DAYS_IN_WEEK * DAY
    ensures date * DAY + time + jump < later * DAY + time
  {
  }

  lemma WeekResolvedAfter(job: Job, zone: Zone, i: nat, date: int, later: int)
    requires Keeps(job.local, zone) && date + DAYS_IN_WEEK <= later
    requires zone.WellSpaced() && i < |zone.changes| && zone.Jump(i) < DAYS_IN_WEEK * DAY
    requires zone.SkippedBy(date * DAY + job.time, i)
    ensures job.local.resolve(date, job.time) < job.local.resolve(later, job.time)
  {
    WeekAfterOn(zone, i, date, later, job.time);
  }

  lemma WeekAfterOn(zone: Zone, i: nat, date: int, later: int, time: TimeOfDay)
    requires date + DAYS_IN_WEEK <= later
    requires zone.WellSpaced() && i < |zone.changes| && zone.Jump(i) < DAYS_IN_WEEK * DAY
    requires zone.SkippedBy(date * DAY + time, i)
    ensures zone.ResolveLocal(date, time) < zone.ResolveLocal(later, time)
  {
    WeekOn(date, later, time, zone.Jump(i));
    LaterThanGap(zone, i, date * DAY + time, later * DAY + time);
  }

  lemma MissedBetween(job: Job, from: int, date: int, current: int, next: int)
    requires job.months.Valid() && job.OnCalendar(date) && job.Candidates(job.local.dateOf(from)) == (current, next)
    requires from < job.local.resolve(date, job.time)
    requires job.local.resolve(date, job.time) < job.local.resolve(current, job.time)
    requires job.local.resolve(date, job.time) < job.local.resolve(next, job.time)
    ensures !job.FindsLeast()
  {
    assert [current, next][1..] == [next];
    assert job.Occurs(job.local.resolve(date, job.time));
    assert !job.IsLeastAfter(job.Found(from), from);
  }

  // ---- The exact condition ----

  /** Of the well-spaced zones without jumps of a week, those in which every job, whatever its schedule
      and time, finds its least occurrence from every instant are the orderly ones. */
  lemma EveryJobFindsLeastExactlyInOrderlyZones(zone: Zone, months: Months)
    requires zone.WellSpaced() && months.Valid()
    requires forall i :: 0 <= i < |zone.changes| ==> zone.Jump(i) < DAYS_IN_WEEK * DAY
    ensures (forall schedule, time :: Job(schedule, time, zone.Time(), months).FindsLeast()) <==> zone.Orderly()
  {
    if zone.Orderly() {
      TimeIsOrderly(zone);
      forall schedule, time
        ensures Job(schedule, time, zone.Time(), months).FindsLeast()
      {
        Job(schedule, time, zone.Time(), months).AlwaysFindsLeast();
      }
    } else {
      var job := SomeJobMisses(zone, months);
      assert !Job(job.schedule, job.time, zone.Time(), months).FindsLeast();
    }
  }

  lemma SomeJobMisses(zone: Zone, months: Months) returns (job: Job)
    requires zone.WellSpaced() && !zone.Orderly() && months.Valid()
    requires forall i :: 0 <= i < |zone.changes| ==> zone.Jump(i) < DAYS_IN_WEEK * DAY
    ensures job.local == zone.Time() && job.months == months && !job.FindsLeast()
  {
    if i :| 0 <= i < |zone.changes| && zone.FoldCrosses(i) {
      job := Job(Daily, 0, zone.Time(), months);
      FoldFindsNothing(zone, i, months);
      assert !job.IsLeastAfter(job.Found(zone.changes[i].at), zone.changes[i].at);
    } else {
      var i :| 0 <= i < |zone.changes| && zone.GapSpills(i);
      var date, time, shown := SpillsAlone(zone, i);
      TimeKeeps(zone);
      job := Job(Weekly(WeekdayOf(date)), time, zone.Time(), months);
      GapMissesWeekly(job, zone, i, date, shown);
    }
  }

  /** Where the clocks go from 00:30 back to 23:30, a job due daily at 00:15 that is registered at the
      change finds nothing, and is due at the last instant there is. */
  lemma QuarterPastMidnightNeverFires(months: Months)
    requires months.Valid()
    ensures var job := Job(Daily, HOUR / 4, CROSSING.Time(), months);
            job.Found(10 * DAY + HOUR / 2) == None && job.NextOccurrence(10 * DAY + HOUR / 2) == MAX_INSTANT
  {
    DateAtCrossing();
    OneChange(CROSSING, 9 * DAY + HOUR / 4);
    OneChange(CROSSING, 10 * DAY + HOUR / 4);
    BothPast(Job(Daily, HOUR / 4, CROSSING.Time(), months), 10 * DAY + HOUR / 2, 9, 10);
  }

  lemma DateAtCrossing()
    ensures CROSSING.LocalDate(10 * DAY + HOUR / 2) == 9
  {
    CROSSING.SegmentIs(10 * DAY + HOUR / 2, 1);
  }
}
