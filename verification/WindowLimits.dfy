/** Where the energy-saving claims end: when a restart agrees with the controller that waits, exactly,
    and when the transition found is the first boundary ahead. */
module WindowLimits {
  import opened BoundaryRun
  import opened Cells
  import opened Clock
  import opened EnergySaving
  import opened OrderlyZones
  import opened Wrappers

  // ---- The first boundary ----

  predicate IsBoundary(w: Window, date: int, t: int) {
    w.ForDate(date).Some? && (t == w.Opens(date) || t == w.Closes(date))
  }

  /** Every transition found is the first boundary after the instant asked from. */
  ghost predicate FindsFirstBoundaries(w: Window) {
    forall now, t, date :: IsBoundary(w, date, t) && now < t && w.NextTransition(now).Some? ==>
      w.NextTransition(now).value <= t
  }

  /** The window of `date` closes before a non-empty one of the next date opens. */
  predicate ClosesInTime(w: Window, date: int) {
    w.ForDate(date).Some? && w.ForDate(date + 1).Some? ==> w.Closes(date) <= w.Opens(date + 1)
  }

  ghost predicate WindowsApart(w: Window) {
    forall date :: ClosesInTime(w, date)
  }

  /** Central European time around one spring-forward night: on date 10, 02:00 becomes 03:00. */
  const SPRING := Zone(HOUR, [Change(10 * DAY + HOUR, 2 * HOUR)])

  const LATE := Window(3 * HOUR + HOUR / 4, 2 * HOUR + HOUR / 2, SPRING.Time())

  lemma SpringIsRegular()
    ensures SPRING.Regular()
  {
    assert SPRING.Opens(0) == 10 * DAY + 2 * HOUR && SPRING.Closes(0) == 10 * DAY + 3 * HOUR;
    assert SPRING.KeepsDate(0);
  }

  lemma LateWindows()
    ensures LATE.Opens(9) == 9 * DAY + 2 * HOUR + HOUR / 4
    ensures LATE.Closes(9) == 10 * DAY + HOUR + HOUR / 2
    ensures LATE.Opens(10) == 10 * DAY + HOUR + HOUR / 4
    ensures LATE.Closes(10) == 11 * DAY + HOUR / 2
  {
    OneChange(SPRING, 9 * DAY + LATE.start);
    OneChange(SPRING, 10 * DAY + LATE.end);
    OneChange(SPRING, 10 * DAY + LATE.start);
    OneChange(SPRING, 11 * DAY + LATE.end);
  }

  /** The transition found need not be the first boundary ahead: on a spring-forward night a window
      from 03:15 to 02:30 closes at 03:30, after the next one has opened, and at 03:00 the closing
      is what is found. The state is constant up to it all the same. */
  lemma NotTheFirstBoundary()
    ensures var now := 10 * DAY + HOUR;
            && LATE.local.Faithful()
            && LATE.NextTransition(now) == Some(LATE.Closes(9))
            && LATE.ForDate(10).Some? && now < LATE.Opens(10) < LATE.Closes(9)
  {
    var now := 10 * DAY + HOUR;
    SpringIsRegular();
    SPRING.RegularIsExact();
    LATE.local.FaithfulIsOrderly();
    LateWindows();
    SpringDate();
    FindsTheClosing(LATE, 9, now);
  }

  lemma SpringDate()
    ensures SPRING.LocalDate(10 * DAY + HOUR) == 10
  {
    SpringIsRegular();
    SPRING.SegmentIs(10 * DAY + HOUR, 1);
  }

  lemma FindsTheClosing(w: Window, date: int, now: int)
    requires w.local.Orderly() && date <= w.local.dateOf(now) <= date + 1
    requires w.Opens(date) <= now < w.Closes(date)
    requires date == w.local.dateOf(now) ==> w.Closes(date - 1) <= now
    ensures w.NextTransition(now) == Some(w.Closes(date))
  {
    forall d | d < date
      ensures !w.Pending(d, now)
    {
      if d < w.local.dateOf(now) - 1 {
        w.OldWindowsAreOver(d, now);
      }
    }
    w.SearchFinds(date, now);
  }

  /** When the transition found is, at every instant, the first boundary ahead: exactly when no
      non-empty window opens before the one of the date before it has closed. */
  lemma FirstBoundaryExactlyWhenApart(w: Window)
    requires w.local.Orderly()
    ensures FindsFirstBoundaries(w) <==> WindowsApart(w)
  {
    if WindowsApart(w) {
      forall now, t, date | IsBoundary(w, date, t) && now < t && w.NextTransition(now).Some?
        ensures w.NextTransition(now).value <= t
      {
        FirstWhenApart(w, now, date, t);
      }
    } else {
      var date :| !ClosesInTime(w, date);
      var now := w.Opens(date + 1) - 1;
      w.WindowsOpenInOrder(date, date + 1);
      ClosesBeforeAfterNext(w, date - 1);
      FindsTheClosing(w, date, now);
      assert IsBoundary(w, date + 1, w.Opens(date + 1));
    }
  }

  lemma ClosesBeforeAfterNext(w: Window, date: int)
    requires w.local.Orderly()
    ensures w.Closes(date) < w.Opens(date + 2)
  {
    w.WindowDates(date, w.Opens(date + 1));
    w.WindowsOpenInOrder(date + 1, date + 2);
  }

  lemma FirstWhenApart(w: Window, now: int, date: int, t: int)
    requires w.local.Orderly() && WindowsApart(w)
    requires IsBoundary(w, date, t) && now < t && w.NextTransition(now).Some?
    ensures w.NextTransition(now).value <= t
  {
    var found := w.FirstPending(w.local.dateOf(now) - 1, now, MAX_WINDOW_SEARCH_DAYS).value;
    w.NoneBeforeSearch(now);
    BoundariesInOrder(w, now, found, date, t);
  }

  lemma BoundariesInOrder(w: Window, now: int, found: int, date: int, t: int)
    requires w.local.Orderly() && ClosesInTime(w, found)
    requires w.Pending(found, now) && w.NonePendingBefore(found, now)
    requires IsBoundary(w, date, t) && now < t
    ensures w.Boundary(found, now) <= t
  {
    assert w.Pending(date, now);
    if found < date {
      ApartFromLater(w, found, date);
    }
  }

  lemma ApartFromLater(w: Window, d: int, e: int)
    requires w.local.Orderly() && ClosesInTime(w, d)
    requires d < e && w.ForDate(d).Some? && w.ForDate(e).Some?
    ensures w.Closes(d) <= w.Opens(e)
  {
    w.WindowDates(d, w.Opens(e));
    w.WindowDates(e, w.Opens(e));
  }

  // ---- Folds across midnight ----

  /** At `now` local time goes back from `date` to `earlier`, while `date`'s window is open and those of
      the two dates a restart looks at, and of the date before, are over. */
  predicate GoesBackDuring(w: Window, date: int, earlier: int, now: int) {
    && w.local.dateOf(now - 1) == date && w.local.dateOf(now) == earlier
    && w.Opens(date) < now < w.Closes(date)
    && w.Closes(date - 1) < now && w.Closes(earlier) < now && w.Closes(earlier - 1) < now
  }

  lemma MissesTheOpenWindow(w: Window, date: int, earlier: int, now: int)
    requires GoesBackDuring(w, date, earlier, now)
    ensures !WaitingAgrees(w.Controller())
  {
    var began := now - 1;
    assert w.Pending(date, began) && !w.Pending(date - 1, began);
    assert w.FirstPending(date - 1, began, MAX_WINDOW_SEARCH_DAYS) == Some(date);
    assert began <= now < w.Arm(began) && w.IsActive(began) && !w.IsActive(now);
    assert w.Controller().at(began) != w.Controller().at(now) && now < w.Controller().next(began);
  }

  /** The first whole minute from `length` on. */
  lemma WholeMinutes(length: int) returns (minutes: int)
    requires 0 < length <= DAY
    ensures length <= minutes < length + MINUTE && minutes <= DAY && minutes % MINUTE == 0
  {
    minutes := (length + MINUTE - 1) / MINUTE * MINUTE;
  }

  /** The window of each date from midnight on lasts for `length`. */
  predicate FromMidnight(w: Window, length: int) {
    0 < length <= DAY && w.start == 0 && w.end == if length == DAY then 0 else length
  }

  lemma FromMidnightInstants(w: Window, zone: Zone, length: int, date: int)
    requires Keeps(w.local, zone) && FromMidnight(w, length)
    ensures w.Opens(date) == zone.Compatible(date * DAY)
    ensures w.Closes(date) == zone.Compatible(date * DAY + length)
  {
    FromMidnightReading(w, length, date);
    assert w.Opens(date) == zone.ResolveLocal(date, w.start);
    assert w.Closes(date) == zone.ResolveLocal(w.EndDate(date), w.end);
  }

  lemma FromMidnightReading(w: Window, length: int, date: int)
    requires FromMidnight(w, length)
    ensures w.EndDate(date) * DAY + w.end == date * DAY + length
  {
  }

  lemma LastDayOf(wall: int)
    ensures DateOf(wall - 1) * DAY < wall <= DateOf(wall - 1) * DAY + DAY
  {
  }

  lemma FoldWindowIsOpen(w: Window, zone: Zone, i: nat, date: int, length: int)
    requires Keeps(w.local, zone) && FromMidnight(w, length)
    requires zone.WellSpaced() && i < |zone.changes| && zone.changes[i].offset < zone.Before(i)
    requires date * DAY < zone.Closes(i) <= date * DAY + length
    ensures w.Opens(date) < zone.changes[i].at < w.Closes(date)
  {
    FromMidnightInstants(w, zone, length, date);
    ReadingBeforeFoldEnds(zone, i, date * DAY);
    OpenAfterFold(zone, i, date * DAY + length);
  }

  lemma FoldWindowIsOver(w: Window, zone: Zone, i: nat, date: int, length: int, before: int)
    requires Keeps(w.local, zone) && FromMidnight(w, length)
    requires zone.WellSpaced() && i < |zone.changes| && zone.changes[i].offset < zone.Before(i)
    requires date * DAY + length < zone.Closes(i) + DAY && before < date
    ensures w.Closes(before) < zone.changes[i].at
  {
    FromMidnightInstants(w, zone, length, before);
    DayApart(before, 0, date, 0);
    ReadingBeforeFoldEnds(zone, i, before * DAY + length);
  }

  lemma FoldGoesBack(w: Window, zone: Zone, i: nat, date: int, length: int)
    requires Keeps(w.local, zone) && FromMidnight(w, length)
    requires zone.WellSpaced() && i < |zone.changes| && zone.FoldCrosses(i)
    requires date == DateOf(zone.Closes(i) - 1) && date * DAY < zone.Closes(i) <= date * DAY + length
    requires date * DAY + length < zone.Closes(i) + DAY
    ensures GoesBackDuring(w, date, DateOf(zone.Opens(i)), zone.changes[i].at)
  {
    FoldDates(zone, i);
    FoldWindowIsOpen(w, zone, i, date, length);
    FoldWindowIsOver(w, zone, i, date, length, date - 1);
    FoldWindowIsOver(w, zone, i, date, length, DateOf(zone.Opens(i)));
    FoldWindowIsOver(w, zone, i, date, length, DateOf(zone.Opens(i)) - 1);
  }

  /** Every fold across midnight makes some window's controller disagree with its restart: at the
      change the local date goes back, and the two dates looked at no longer include the one whose
      window is open. */
  lemma FoldDisagrees(zone: Zone, i: nat) returns (w: Window)
    requires zone.WellSpaced() && i < |zone.changes| && zone.FoldCrosses(i)
    ensures w.local == zone.Time() && !WaitingAgrees(w.Controller())
  {
    var date := DateOf(zone.Closes(i) - 1);
    LastDayOf(zone.Closes(i));
    var length := WholeMinutes(zone.Closes(i) - date * DAY);
    TimeKeeps(zone);
    w := Window(0, if length == DAY then 0 else length, zone.Time());
    FoldGoesBack(w, zone, i, date, length);
    MissesTheOpenWindow(w, date, DateOf(zone.Opens(i)), zone.changes[i].at);
  }

  // ---- Gaps that spill ----

  /** At `began` the window of `date` is open and the first that is not over, and stays open past `now`;
      a restart at `now` looks at two dates whose windows have not opened. */
  predicate SkipsAheadDuring(w: Window, date: int, began: int, now: int) {
    && date <= w.local.dateOf(began) <= date + 1
    && (w.local.dateOf(began) == date ==> w.Closes(date - 1) <= began)
    && w.Opens(date) <= began < now < w.Closes(date)
    && now < w.Opens(w.local.dateOf(now) - 1) && now < w.Opens(w.local.dateOf(now))
  }

  lemma LosesTheOpenWindow(w: Window, date: int, began: int, now: int)
    requires SkipsAheadDuring(w, date, began, now)
    ensures !WaitingAgrees(w.Controller())
  {
    assert w.Pending(date, began);
    assert w.FirstPending(w.local.dateOf(began) - 1, began, MAX_WINDOW_SEARCH_DAYS) == Some(date);
    assert began <= now < w.Arm(began) && w.IsActive(began) && !w.IsActive(now);
    assert w.Controller().at(began) != w.Controller().at(now) && now < w.Controller().next(began);
  }

  /** The window of each date goes on until the same time the next day. */
  predicate AllDay(w: Window) { w.start == w.end }

  lemma OpensBeforeGap(w: Window, zone: Zone, i: nat, date: int, shown: int, d: int)
    requires Keeps(w.local, zone) && AllDay(w)
    requires zone.WellSpaced() && i < |zone.changes| && Alone(zone, i, date, w.start, shown) && d < date
    ensures w.Closes(d - 1) == w.Opens(d) < zone.changes[i].at
  {
    AloneBefore(zone, i, date, w.start, shown, d);
  }

  lemma OpensAfterGap(w: Window, zone: Zone, i: nat, date: int, shown: int, d: int)
    requires Keeps(w.local, zone) && AllDay(w)
    requires zone.WellSpaced() && i < |zone.changes| && Alone(zone, i, date, w.start, shown) && date <= d
    ensures shown - zone.changes[i].offset < w.Opens(d) == w.Closes(d - 1)
  {
    AloneAfter(zone, i, date, w.start, shown, d);
  }

  lemma AloneSkipsAhead(w: Window, zone: Zone, i: nat, date: int, shown: int)
    requires Keeps(w.local, zone) && AllDay(w)
    requires zone.WellSpaced() && i < |zone.changes| && Alone(zone, i, date, w.start, shown) && date < DateOf(shown)
    ensures SkipsAheadDuring(w, date - 1, zone.changes[i].at - 1, shown - zone.changes[i].offset)
  {
    AloneDates(zone, i, date, w.start, shown);
    OpensBeforeGap(w, zone, i, date, shown, date - 1);
    OpensAfterGap(w, zone, i, date, shown, date);
    OpensAfterGap(w, zone, i, date, shown, DateOf(shown) - 1);
    OpensAfterGap(w, zone, i, date, shown, DateOf(shown));
  }

  /** Every gap that moves a reading past the start of a later date makes some window's controller
      disagree with its restart: the window that closes at that reading is still open, and opened more
      than one local date ago. */
  lemma GapDisagrees(zone: Zone, i: nat) returns (w: Window)
    requires zone.WellSpaced() && i < |zone.changes| && zone.GapSpills(i)
    ensures w.local == zone.Time() && !WaitingAgrees(w.Controller())
  {
    var date, time, shown := SpillsAlone(zone, i);
    TimeKeeps(zone);
    w := Window(time, time, zone.Time());
    AloneDisagrees(w, zone, i, date, shown);
  }

  lemma AloneDisagrees(w: Window, zone: Zone, i: nat, date: int, shown: int)
    requires Keeps(w.local, zone) && AllDay(w)
    requires zone.WellSpaced() && i < |zone.changes| && Alone(zone, i, date, w.start, shown) && date < DateOf(shown)
    ensures !WaitingAgrees(w.Controller())
  {
    AloneSkipsAhead(w, zone, i, date, shown);
    LosesTheOpenWindow(w, date - 1, zone.changes[i].at - 1, shown - zone.changes[i].offset);
  }

  // ---- The exact condition ----

  /** The exact condition of the headline claim: of the well-spaced zones, those in which the
      controllers of all windows agree with their restarts are the orderly ones. */
  lemma AgreesExactlyInOrderlyZones(zone: Zone)
    requires zone.WellSpaced()
    ensures (forall start, end :: WaitingAgrees(Window(start, end, zone.Time()).Controller())) <==> zone.Orderly()
  {
    if zone.Orderly() {
      TimeIsOrderly(zone);
      forall start, end
        ensures WaitingAgrees(Window(start, end, zone.Time()).Controller())
      {
        Window(start, end, zone.Time()).Agrees();
      }
    } else {
      var w := SomeDisagrees(zone);
      assert !WaitingAgrees(Window(w.start, w.end, zone.Time()).Controller());
    }
  }

  lemma SomeDisagrees(zone: Zone) returns (w: Window)
    requires zone.WellSpaced() && !zone.Orderly()
    ensures w.local == zone.Time() && !WaitingAgrees(w.Controller())
  {
    if i :| 0 <= i < |zone.changes| && zone.FoldCrosses(i) {
      w := FoldDisagrees(zone, i);
    } else {
      var i :| 0 <= i < |zone.changes| && zone.GapSpills(i);
      w := GapDisagrees(zone, i);
    }
  }

  /** In an orderly zone a controller running continuously and one restarted at any later instant agree
      in their state. */
  lemma StateAgreesWithRestart(start: MinuteOfDay, end: MinuteOfDay, zone: Zone, began: int, now: int)
    requires zone.Orderly() && began <= now
    ensures var p := Window(start, end, zone.Time()).Controller();
            MovesOn(p.next) && RunTo(p, Started(p, began), now).state == p.at(now)
  {
    var w := Window(start, end, zone.Time());
    TimeIsOrderly(zone);
    w.ArmMovesOn();
    w.Agrees();
    StateAgrees(w.Controller(), began, now);
  }

  // ---- Two zones where a restart disagrees ----

  lemma HalfPastMidnightDisagrees() returns (w: Window)
    ensures CROSSING.WellSpaced() && CROSSING.FoldCrosses(0)
    ensures w.local == CROSSING.Time() && !WaitingAgrees(w.Controller())
  {
    assert CROSSING.Opens(0) == 10 * DAY - HOUR / 2 && CROSSING.Closes(0) == 10 * DAY + HOUR / 2;
    w := FoldDisagrees(CROSSING, 0);
  }

  const NEARLY_ALL_DAY := Window(24 * HOUR - HOUR / 4, 24 * HOUR - HOUR / 2, NUUK.Time())

  /** A window from 23:45 to 23:30 that opened the evening before closes at 00:30, but a restart at
      midnight finds no open window. */
  lemma ElevenToMidnightDisagrees()
    ensures !WaitingAgrees(NEARLY_ALL_DAY.Controller())
  {
    NuukWindows();
    LosesTheOpenWindow(NEARLY_ALL_DAY, 8, 10 * DAY + HOUR - 1, 10 * DAY + HOUR);
  }

  lemma NuukWindows()
    ensures SkipsAheadDuring(NEARLY_ALL_DAY, 8, 10 * DAY + HOUR - 1, 10 * DAY + HOUR)
  {
    NuukDates();
    OneChange(NUUK, 8 * DAY + NEARLY_ALL_DAY.start);
    OneChange(NUUK, 9 * DAY + NEARLY_ALL_DAY.end);
    OneChange(NUUK, 9 * DAY + NEARLY_ALL_DAY.start);
    OneChange(NUUK, 10 * DAY + NEARLY_ALL_DAY.start);
  }

  lemma NuukDates()
    ensures NUUK.LocalDate(10 * DAY + HOUR - 1) == 9 && NUUK.LocalDate(10 * DAY + HOUR) == 10
  {
    NUUK.SegmentIs(10 * DAY + HOUR - 1, 0);
    NUUK.SegmentIs(10 * DAY + HOUR, 1);
  }
}
