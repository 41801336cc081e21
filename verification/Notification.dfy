/** Scheduled notifications: each job fires daily, weekly, monthly or yearly at a local time. */
module Notification {
  import opened Cells
  import opened Calendar
  import opened Clock
  import opened Wrappers

  const DAYS_IN_WEEK := 7

  type MonthOfYear = m: int | 1 <= m <= 12 witness 1

  type Weekday = w: int | 0 <= w < DAYS_IN_WEEK

  /** When a job fires; weekdays count from Monday as 0. */
  datatype Schedule =
    | Daily
    | Weekly(weekday: Weekday)
    | Monthly(day: int)
    | Yearly(month: MonthOfYear, day: int)

  /** The weekday of a date; day 0 is a Thursday. */
  function WeekdayOf(date: int): Weekday { (date + 3) % DAYS_IN_WEEK }

  datatype Job = Job(schedule: Schedule, time: MinuteOfDay, local: LocalTime, months: Months) {

    ghost predicate Valid() { local.Orderly() && months.Valid() }

    /** Day `day` in a month of `last` days: its last day when the month is shorter. */
    static function DayIn(day: int, last: int): int { Max(1, Min(day, last)) }

    function Clamped(k: int, day: int): int { months.first(k) + DayIn(day, months.length(k)) - 1 }

    /** The two dates looked at from local date `today`: this period's and the next's. */
    function Candidates(today: int): (int, int)
      requires months.Valid()
    {
      match schedule
      case Daily => (today, today + 1)
      case Weekly(weekday) =>
        var thisWeek := today + (weekday - WeekdayOf(today)) % DAYS_IN_WEEK;
        (thisWeek, thisWeek + DAYS_IN_WEEK)
      case Monthly(day) =>
        var k := months.OfDay(today).number;
        (Clamped(k, day), Clamped(k + 1, day))
      case Yearly(month, day) =>
        var year := Year(months.OfDay(today).number);
        (Clamped(Number(year, month), day), Clamped(Number(year + 1, month), day))
    }

    /** The first of `dates` whose time is resolved to an instant after `from`. */
    function FirstAfter(from: int, dates: seq<int>): Option<int> {
      if dates == [] then None
      else if local.resolve(dates[0], time) > from then Some(local.resolve(dates[0], time))
      else FirstAfter(from, dates[1..])
    }

    /** What the two candidate dates give. */
    function Found(from: int): Option<int>
      requires months.Valid()
    {
      var (current, next) := Candidates(local.dateOf(from));
      FirstAfter(from, [current, next])
    }

    function NextOccurrence(from: int): int
      requires months.Valid()
    {
      match Found(from)
      case Some(t) => t
      case None => MAX_INSTANT
    }

    /** The dates the job is meant for, told from the civil date alone. */
    predicate OnCalendar(date: int)
      requires months.Valid()
    {
      var c := months.OfDay(date);
      var last := months.length(c.number);
      match schedule
      case Daily => true
      case Weekly(weekday) => WeekdayOf(date) == weekday
      case Monthly(day) => c.day == DayIn(day, last)
      case Yearly(month, day) => Month(c.number) == month && c.day == DayIn(day, last)
    }

    /** `t` is the instant of some date the job is meant for. */
    ghost predicate Occurs(t: int)
      requires months.Valid()
    {
      exists date :: OnCalendar(date) && t == local.resolve(date, time)
    }

    // ---- What a schedule means ----

    /** `date` is the last of its month. */
    predicate EndsMonth(date: int)
      requires months.Valid()
    {
      months.OfDay(date + 1).number != months.OfDay(date).number
    }

    lemma LastOfMonth(date: int)
      requires months.Valid()
      ensures EndsMonth(date) <==> months.OfDay(date).day == months.length(months.OfDay(date).number)
      ensures months.OfDay(date).day <= months.length(months.OfDay(date).number)
    {
      var c := months.OfDay(date);
      if c.day < months.length(c.number) {
        months.CivilRoundTrip(Civil(c.number, c.day + 1));
      } else {
        assert months.Adjoins(c.number) && months.Adjoins(c.number + 1);
        months.CivilRoundTrip(Civil(c.number + 1, 1));
      }
    }

    /** A date is the one meant by day `day` of its month: that day, or an earlier one that ends a month which
        does not have it. */
    predicate DayOrLast(date: int, day: int)
      requires months.Valid()
    {
      var c := months.OfDay(date);
      c.day == day || (c.day < day && EndsMonth(date))
    }

    /** A monthly job is meant for the given day, or for the last of a month that is shorter, and a yearly one
        for that day in its month. */
    lemma OnCalendarMeans(date: int)
      requires months.Valid()
      ensures match schedule
              case Daily => OnCalendar(date)
              case Weekly(weekday) => OnCalendar(date) <==> (date + 3 - weekday) % 7 == 0
              case Monthly(day) => day >= 1 ==> (OnCalendar(date) <==> DayOrLast(date, day))
              case Yearly(month, day) =>
                day >= 1 ==>
                  (OnCalendar(date) <==> months.OfDay(date).number % 12 + 1 == month && DayOrLast(date, day))
    {
      LastOfMonth(date);
    }

    // ---- The dates of a schedule in order ----

    /** The date of period `k`: one per day, week, month or year. */
    function Date(k: int): int {
      match schedule
      case Daily => k
      case Weekly(weekday) => DAYS_IN_WEEK * k + weekday - 3
      case Monthly(day) => Clamped(k, day)
      case Yearly(month, day) => Clamped(Number(k, month), day)
    }

    function PeriodOf(date: int): int
      requires months.Valid()
    {
      match schedule
      case Daily => date
      case Weekly(_) => (date + 3) / DAYS_IN_WEEK
      case Monthly(_) => months.OfDay(date).number
      case Yearly(_, _) => Year(months.OfDay(date).number)
    }

    lemma ClampedWithin(k: int, day: int)
      requires months.Valid()
      ensures months.first(k) <= Clamped(k, day) < months.first(k) + months.length(k) == months.first(k + 1)
    {
      assert months.Adjoins(k);
    }

    lemma ClampedDate(k: int, day: int)
      requires months.Valid()
      ensures months.OfDay(Clamped(k, day)) == Civil(k, DayIn(day, months.length(k)))
    {
      ClampedWithin(k, day);
      months.CivilRoundTrip(Civil(k, DayIn(day, months.length(k))));
    }

    lemma DatesInOrder(k: int)
      requires Valid()
      ensures Date(k) < Date(k + 1)
    {
      match schedule
      case Daily =>
      case Weekly(_) =>
      case Monthly(day) =>
        ClampedWithin(k, day);
        ClampedWithin(k + 1, day);
      case Yearly(month, day) =>
        var j := Number(k, month);
        ClampedWithin(j, day);
        ClampedWithin(j + 12, day);
        months.FirstIncreases();
        Order(months.first, j + 1, j + 12);
    }

    lemma DateOfPeriod(date: int)
      requires Valid() && OnCalendar(date)
      ensures date == Date(PeriodOf(date))
    {
      var c := months.OfDay(date);
      assert c.number == Number(Year(c.number), Month(c.number));
    }

    lemma WeeklyDate(weekday: Weekday, k: int)
      ensures WeekdayOf(DAYS_IN_WEEK * k + weekday - 3) == weekday
    {
    }

    lemma DateOnCalendar(k: int)
      requires Valid()
      ensures OnCalendar(Date(k))
    {
      match schedule
      case Daily =>
      case Weekly(weekday) => WeeklyDate(weekday, k);
      case Monthly(day) => ClampedDate(k, day);
      case Yearly(month, day) =>
        ClampedDate(Number(k, month), day);
        MonthOfNumber(k, month);
    }

    /** A schedule's dates in order are exactly those the civil calendar singles out. */
    lemma OnCalendarIsDate(date: int)
      requires Valid()
      ensures OnCalendar(date) <==> exists k :: date == Date(k)
    {
      if OnCalendar(date) {
        DateOfPeriod(date);
      }
      if k :| date == Date(k) {
        DateOnCalendar(k);
      }
    }

    /** The candidates are two consecutive dates of the schedule around today: the date before the
        first is past, and the second is still ahead. */
    lemma CandidatesEnclose(today: int) returns (k: int)
      requires Valid()
      ensures Candidates(today) == (Date(k), Date(k + 1))
      ensures Date(k - 1) < today < Date(k + 1)
    {
      match schedule
      case Daily =>
        k := today;
      case Weekly(weekday) =>
        k := (today + (weekday - WeekdayOf(today)) % DAYS_IN_WEEK + 3 - weekday) / DAYS_IN_WEEK;
      case Monthly(day) =>
        k := months.OfDay(today).number;
        ClampedWithin(k - 1, day);
        ClampedWithin(k + 1, day);
      case Yearly(month, day) =>
        k := Year(months.OfDay(today).number);
        YearEncloses(month, day, today);
    }

    lemma YearEncloses(month: MonthOfYear, day: int, today: int)
      requires Valid()
      ensures var year := Year(months.OfDay(today).number);
              Clamped(Number(year - 1, month), day) < today < Clamped(Number(year + 1, month), day)
    {
      var k := months.OfDay(today).number;
      var before, after := Number(Year(k) - 1, month), Number(Year(k) + 1, month);
      ClampedWithin(before, day);
      ClampedWithin(after, day);
      months.FirstIncreases();
      assert months.Adjoins(k);
      if before + 1 < k {
        Order(months.first, before + 1, k);
      }
      if k + 1 < after {
        Order(months.first, k + 1, after);
      }
    }

    // ---- Every job enumerates its calendar ----

    /** The instant of the date of period `k`. */
    function Occurrence(k: int): int { local.resolve(Date(k), time) }

    lemma OccurrencesIncrease()
      requires Valid()
      ensures Increasing(k => Occurrence(k))
    {
      var f := k => Occurrence(k);
      forall k
        ensures Steps(f, k)
      {
        DatesInOrder(k);
      }
    }

    lemma OccursIsOccurrence(t: int)
      requires Valid()
      ensures Occurs(t) <==> exists k :: t == Occurrence(k)
    {
      if Occurs(t) {
        var date :| OnCalendar(date) && t == local.resolve(date, time);
        OnCalendarIsDate(date);
        var k :| date == Date(k);
        assert t == Occurrence(k);
      }
      if k :| t == Occurrence(k) {
        OnCalendarIsDate(Date(k));
        assert OnCalendar(Date(k));
      }
    }

    lemma DateAgainst(from: int, date: int)
      requires Valid()
      ensures date < local.dateOf(from) ==> local.resolve(date, time) <= from
      ensures local.dateOf(from) < date ==> from < local.resolve(date, time)
    {
    }

    /** One of the two candidates is always the first occurrence after `from`. */
    lemma NextIsOccurrence(from: int) returns (k: int)
      requires Valid()
      ensures Occurrence(k) <= from < Occurrence(k + 1)
      ensures Found(from) == Some(Occurrence(k + 1)) && NextOccurrence(from) == Occurrence(k + 1)
    {
      var today := local.dateOf(from);
      k := CandidatesEnclose(today);
      DateAgainst(from, Date(k - 1));
      DateAgainst(from, Date(k + 1));
      var (current, next) := Candidates(today);
      TwoCandidates(from, current, next);
      k := if Occurrence(k) <= from then k else k - 1;
    }

    lemma TwoCandidates(from: int, current: int, next: int)
      requires from < local.resolve(next, time)
      ensures FirstAfter(from, [current, next])
           == Some(local.resolve(if from < local.resolve(current, time) then current else next, time))
    {
      assert [current, next][1..] == [next];
    }

    /** The next occurrence is the least instant after `from` at which the job is meant to fire. */
    lemma NextIsLeast(from: int, t: int)
      requires Valid()
      ensures from < NextOccurrence(from) && Occurs(NextOccurrence(from))
      ensures Occurs(t) && from < t ==> NextOccurrence(from) <= t
    {
      var k := NextIsOccurrence(from);
      OccursIsOccurrence(NextOccurrence(from));
      if Occurs(t) && from < t {
        OccursIsOccurrence(t);
        var j :| t == Occurrence(j);
        OccurrencesIncrease();
        NextIsLeastStart(k => Occurrence(k), from, k, j);
      }
    }

    /** `found` is the least instant after `from` at which the job is meant to fire. */
    ghost predicate IsLeastAfter(found: Option<int>, from: int)
      requires months.Valid()
    {
      && found.Some? && from < found.value && Occurs(found.value)
      && forall t :: Occurs(t) && from < t ==> found.value <= t
    }

    /** From any instant the job finds its least occurrence after it. */
    ghost predicate FindsLeast()
      requires months.Valid()
    {
      forall from :: IsLeastAfter(Found(from), from)
    }

    lemma AlwaysFindsLeast()
      requires Valid()
      ensures FindsLeast()
    {
      forall from
        ensures IsLeastAfter(Found(from), from)
      {
        var k := NextIsOccurrence(from);
        NextIsLeast(from, from);
        forall t | Occurs(t) && from < t
          ensures Found(from).value <= t
        {
          NextIsLeast(from, t);
        }
      }
    }

    ghost function Next(): int -> int
      requires Valid()
    {
      from => NextOccurrence(from)
    }

    lemma NextAdvances()
      requires Valid()
      ensures Advances(k => Occurrence(k), Next())
    {
      var f := k => Occurrence(k);
      forall n
        ensures AdvancesFrom(f, Next(), n)
      {
        NextAdvancesFrom(n);
      }
    }

    lemma NextAdvancesFrom(n: int)
      requires Valid()
      ensures AdvancesFrom(k => Occurrence(k), Next(), n)
    {
      var f := k => Occurrence(k);
      var k := NextIsOccurrence(n);
      assert f(k) <= n < f(k + 1) && Next()(n) == f(k + 1);
    }

    /** Every job enumerates its calendar: registered at `from`, it is due at the iterates of
        `NextOccurrence`, each computed from the one before. They come in strict order, and an
        instant is one of them exactly when it is after `from` and the job is meant to fire then. */
    lemma DueInstantsEnumerateTheCalendar(from: int, t: int, i: nat)
      requires Valid()
      ensures Iterate(Next(), from, i + 1) < Iterate(Next(), from, i + 2)
      ensures (exists n: nat :: Reached(Next(), from, n, t)) <==> from < t && Occurs(t)
    {
      var f := k => Occurrence(k);
      OccurrencesIncrease();
      NextAdvances();
      IterateEnumerates(f, Next(), from, t, i);
      OccursIsOccurrence(t);
      assert (exists k :: t == Occurrence(k)) <==> exists k :: t == f(k) by {
        if k :| t == Occurrence(k) {
          assert t == f(k);
        }
      }
    }
  }

  /** A yearly job on 29 February is meant for 28 February outside leap years. */
  lemma LeapDay(date: int, time: MinuteOfDay, local: LocalTime)
    ensures Gregorian().Valid()
    ensures var c := Gregorian().OfDay(date);
            Job(Yearly(2, 29), time, local, Gregorian()).OnCalendar(date) <==>
              Month(c.number) == 2 && c.day == if IsLeap(Year(c.number)) then 29 else 28
  {
    GregorianIsValid();
  }

  /** Day 0 is Thursday, 1 January 1970; 1 January 2000 is a Saturday, and weekdays follow each other. */
  lemma Weekdays(date: int)
    ensures First(Number(1970, 1)) == 0 && WeekdayOf(0) == 3
    ensures WeekdayOf(First(Number(2000, 1))) == 5
    ensures WeekdayOf(date + 1) == (WeekdayOf(date) + 1) % 7
  {
    NewYear2000();
    NextWeekday(date);
  }

  lemma NextWeekday(date: int)
    ensures WeekdayOf(date + 1) == (WeekdayOf(date) + 1) % 7
  {
  }

  lemma NewYear2000()
    ensures First(Number(2000, 1)) == 10957
  {
    YearStarts(2000);
  }

  /** The Gregorian calendar is one that jobs can use. */
  lemma GregorianJob(schedule: Schedule, time: MinuteOfDay, local: LocalTime)
    requires local.Orderly()
    ensures Job(schedule, time, local, Gregorian()).Valid()
  {
    GregorianIsValid();
  }
}
