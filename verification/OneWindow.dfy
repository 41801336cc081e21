/** Exactly when the controller of one given window agrees with its restarts. */
module OneWindow {
  import opened BoundaryRun
  import opened Cells
  import opened Clock
  import opened EnergySaving
  import opened OrderlyZones
  import opened WindowLimits
  import opened Wrappers

  // ---- What a window needs of local time ----

  /** Looking at two dates is enough for this window; a window that is still to close though two dates old
      leaves the next one open; windows open in order, and not before the midnights ahead of them. */
  ghost predicate Seen(w: Window) {
    && (forall d, t :: w.Covers(d, t) ==> w.IsActive(t))
    && (forall d, t :: w.Pending(d, t) && d < w.local.dateOf(t) - 1 ==> w.Covers(w.local.dateOf(t) - 1, t))
    && (forall d, e :: d < e ==> w.Opens(d) < w.Opens(e))
    && (forall t, e :: w.local.dateOf(t) + 2 <= e ==> w.local.NextMidnight(t) <= w.Opens(e))
  }

  lemma SeenAgrees(w: Window)
    requires Seen(w)
    ensures WaitingAgrees(w.Controller())
  {
    forall t, u | t <= u < w.Arm(t)
      ensures w.IsActive(u) == w.IsActive(t)
    {
      match w.FirstPending(w.local.dateOf(t) - 1, t, MAX_WINDOW_SEARCH_DAYS)
      case Some(date) =>
        SameUntilBoundary(w, date, t, u);
        SameUntilBoundary(w, date, t, t);
      case None =>
        InactiveUntilMidnight(w, t, u);
        InactiveUntilMidnight(w, t, t);
    }
  }

  lemma SameUntilBoundary(w: Window, date: int, t: int, u: int)
    requires Seen(w) && t <= u < w.Boundary(date, t)
    requires w.FirstPending(w.local.dateOf(t) - 1, t, MAX_WINDOW_SEARCH_DAYS) == Some(date)
    ensures w.IsActive(u) <==> w.Opens(date) <= t
  {
    if w.Opens(date) <= t {
      assert w.Covers(date, u);
    } else if w.IsActive(u) {
      var e := if w.Covers(w.local.dateOf(u), u) then w.local.dateOf(u) else w.local.dateOf(u) - 1;
      FirstOfAll(w, date, t, u, e);
    }
  }

  lemma FirstOfAll(w: Window, date: int, t: int, u: int, e: int)
    requires Seen(w) && t < w.Opens(date) && t <= u
    requires w.FirstPending(w.local.dateOf(t) - 1, t, MAX_WINDOW_SEARCH_DAYS) == Some(date)
    requires w.Covers(e, u)
    ensures w.Opens(date) <= u
  {
    var f := w.local.dateOf(t) - 1;
    assert w.Pending(e, t);
    assert w.Covers(f, t) ==> w.Pending(f, t);
    assert date <= e;
  }

  lemma InactiveUntilMidnight(w: Window, t: int, u: int)
    requires Seen(w) && w.NextTransition(t).None? && t <= u < w.Arm(t)
    ensures !w.IsActive(u)
  {
    if w.IsActive(u) {
      var e := if w.Covers(w.local.dateOf(u), u) then w.local.dateOf(u) else w.local.dateOf(u) - 1;
      NoneAtAll(w, t, u, e);
    }
  }

  lemma NoneAtAll(w: Window, t: int, u: int, e: int)
    requires Seen(w) && w.NextTransition(t).None? && t <= u && w.Covers(e, u)
    ensures w.local.NextMidnight(t) <= u
  {
    var f := w.local.dateOf(t) - 1;
    assert w.Pending(e, t);
    assert w.Covers(f, t) ==> w.Pending(f, t);
    assert w.local.dateOf(t) + 2 <= e;
  }

  // ---- What cuts a window off ----

  /** Fold `i` crosses a midnight, and the window opens between that midnight and the end of the fold, and
      does not close there. */
  predicate FoldCuts(w: Window, zone: Zone, i: nat)
    requires i < |zone.changes|
  {
    var past := zone.Closes(i) - DateOf(zone.Closes(i) - 1) * DAY;
    zone.FoldCrosses(i) && w.start < past && (w.end <= w.start || past <= w.end)
  }

  /** Gap `i` skips the end of a window that spans midnight, on `date`, and moves it past an instant of a later
      date; and the window of `date` does not open after the gap. */
  predicate GapCutsAt(w: Window, zone: Zone, i: nat, date: int, shown: int)
    requires i < |zone.changes|
  {
    && w.end <= w.start && zone.MovesPast(i, date * DAY + w.end, shown) && date < DateOf(shown)
    && date * DAY + w.start < zone.Closes(i)
  }

  ghost predicate GapCuts(w: Window, zone: Zone, i: nat)
    requires i < |zone.changes|
  {
    exists date, shown :: GapCutsAt(w, zone, i, date, shown)
  }

  ghost predicate Uncut(w: Window, zone: Zone) {
    forall i :: 0 <= i < |zone.changes| ==> !FoldCuts(w, zone, i) && !GapCuts(w, zone, i)
  }

  /** No change skips or repeats a day or more. */
  ghost predicate ShortJumps(zone: Zone) {
    forall i :: 0 <= i < |zone.changes| ==> zone.Jump(i) < DAY
  }

  // ---- An uncut window is seen ----

  lemma OpensAt(w: Window, zone: Zone, d: int)
    requires Keeps(w.local, zone)
    ensures w.Opens(d) == zone.Compatible(d * DAY + w.start)
  {
    assert w.Opens(d) == zone.ResolveLocal(d, w.start);
  }

  lemma ClosesAt(w: Window, zone: Zone, d: int)
    requires Keeps(w.local, zone)
    ensures w.Closes(d) == zone.Compatible(w.EndDate(d) * DAY + w.end)
  {
    assert w.Closes(d) == zone.ResolveLocal(w.EndDate(d), w.end);
  }

  lemma DayLater(zone: Zone, d: int, s: TimeOfDay, e: int, t: TimeOfDay)
    requires zone.WellSpaced() && ShortJumps(zone) && d < e && s <= t
    ensures zone.ResolveLocal(d, s) < zone.ResolveLocal(e, t)
  {
    DayApart(d, s, e, t);
    DayApartInOrder(zone, d * DAY + s, e * DAY + t);
  }

  lemma DayApartInOrder(zone: Zone, v: int, wall: int)
    requires zone.WellSpaced() && ShortJumps(zone) && v + DAY <= wall
    ensures zone.Compatible(v) < zone.Compatible(wall)
  {
    ResolvedInOrder(zone, v, wall);
  }

  /** A window still to close is of today, of yesterday, or two dates old with yesterday's open. */
  lemma StillToClose(w: Window, zone: Zone, d: int, t: int)
    requires Keeps(w.local, zone) && zone.WellSpaced() && ShortJumps(zone) && Uncut(w, zone)
    requires t < w.Closes(d)
    ensures w.local.dateOf(t) <= d + 1 || (w.local.dateOf(t) == d + 2 && w.Covers(d + 1, t))
  {
    assert w.Closes(d) == zone.ResolveLocal(w.EndDate(d), w.end);
    var i := DateBeforeClosing(zone, w.EndDate(d), w.end, t);
    assert w.local.dateOf(t) == zone.LocalDate(t);
    if w.local.dateOf(t) > d + 1 {
      NextIsOpen(w, zone, i, d + 1, t);
    }
  }

  lemma DateBeforeClosing(zone: Zone, date: int, time: TimeOfDay, t: int) returns (i: nat)
    requires zone.WellSpaced() && ShortJumps(zone) && t < zone.ResolveLocal(date, time)
    ensures zone.LocalDate(t) <= date + 1
    ensures zone.LocalDate(t) > date ==>
              i < |zone.changes| && zone.MovesPast(i, date * DAY + time, zone.Local(t)) && zone.Segment(t) == i + 1
  {
    BeforeResolved(zone, date * DAY + time, t);
    i := zone.FirstOpen(date * DAY + time, 0);
    if zone.Local(t) < date * DAY + time {
      NoLaterDate(zone.Local(t), date, time);
    } else {
      AtMostOneLater(zone.Local(t), date, time, zone.Jump(i));
    }
  }

  lemma NoLaterDate(shown: int, date: int, time: TimeOfDay)
    requires shown < date * DAY + time
    ensures DateOf(shown) <= date
  {
  }

  lemma AtMostOneLater(shown: int, date: int, time: TimeOfDay, jump: int)
    requires shown < date * DAY + time + jump && jump < DAY
    ensures DateOf(shown) <= date + 1
  {
  }

  lemma NextIsOpen(w: Window, zone: Zone, i: nat, date: int, t: int)
    requires Keeps(w.local, zone) && zone.WellSpaced() && ShortJumps(zone) && Uncut(w, zone)
    requires i < |zone.changes| && w.end <= w.start && zone.MovesPast(i, date * DAY + w.end, zone.Local(t))
    requires zone.Segment(t) == i + 1 && date < DateOf(zone.Local(t)) && t < zone.ResolveLocal(date, w.end)
    ensures w.Covers(date, t)
  {
    assert !GapCuts(w, zone, i);
    assert !GapCutsAt(w, zone, i, date, zone.Local(t));
    HasOpened(w, zone, i, date, t);
    ClosesDayLater(w, zone, i, date);
  }

  lemma HasOpened(w: Window, zone: Zone, i: nat, date: int, t: int)
    requires Keeps(w.local, zone) && zone.WellSpaced()
    requires i < |zone.changes| && zone.Before(i) < zone.changes[i].offset && zone.Segment(t) == i + 1
    requires zone.Closes(i) <= date * DAY + w.start && date < DateOf(zone.Local(t))
    ensures w.Opens(date) < t
  {
    OpensAt(w, zone, date);
    LaterShown(zone.Local(t), date, w.start);
    ResolvedBy(zone, i, date * DAY + w.start, t);
  }

  lemma ClosesDayLater(w: Window, zone: Zone, i: nat, date: int)
    requires Keeps(w.local, zone) && zone.WellSpaced() && ShortJumps(zone)
    requires i < |zone.changes| && w.end <= w.start && zone.SkippedBy(date * DAY + w.end, i)
    ensures zone.ResolveLocal(date, w.end) < w.Closes(date)
  {
    ResolvedDayLater(zone, i, date, w.end);
    assert w.Closes(date) == zone.ResolveLocal(date + 1, w.end);
  }

  lemma ResolvedDayLater(zone: Zone, i: nat, date: int, time: TimeOfDay)
    requires zone.WellSpaced() && i < |zone.changes| && zone.Jump(i) < DAY && zone.SkippedBy(date * DAY + time, i)
    ensures zone.ResolveLocal(date, time) < zone.ResolveLocal(date + 1, time)
  {
    DayApart(date, time, date + 1, time);
    DayLaterThanGap(zone, i, date * DAY + time, (date + 1) * DAY + time);
  }

  lemma DayLaterThanGap(zone: Zone, i: nat, wall: int, later: int)
    requires zone.WellSpaced() && i < |zone.changes| && zone.Jump(i) < DAY && zone.SkippedBy(wall, i)
    requires wall + DAY <= later
    ensures zone.Compatible(wall) < zone.Compatible(later)
  {
    LaterThanGap(zone, i, wall, later);
  }

  lemma LaterShown(shown: int, date: int, time: TimeOfDay)
    requires date < DateOf(shown)
    ensures date * DAY + time < shown
  {
  }

  /** A reading shown between a change and `t` has been resolved before `t`. */
  lemma ResolvedBy(zone: Zone, i: nat, wall: int, t: int)
    requires zone.WellSpaced() && i < |zone.changes| && zone.Before(i) < zone.changes[i].offset
    requires zone.Segment(t) == i + 1 && zone.Closes(i) <= wall < zone.Local(t)
    ensures zone.Compatible(wall) < t
  {
    zone.SegmentIs(wall - zone.changes[i].offset, i + 1);
    zone.ResolveHappens(wall, wall - zone.changes[i].offset);
  }

  /** An open window is not of a date to come. */
  lemma OpenIsNotAhead(w: Window, zone: Zone, d: int, t: int)
    requires Keeps(w.local, zone) && zone.WellSpaced() && ShortJumps(zone) && Uncut(w, zone)
    requires w.Covers(d, t)
    ensures d <= w.local.dateOf(t)
  {
    OpensAt(w, zone, d);
    zone.DateOfReading(d, w.start);
    assert w.local.dateOf(t) == zone.LocalDate(t);
    if zone.LocalDate(t) < d {
      var i := AfterResolved(zone, d * DAY + w.start, t);
      FoldHolds(zone, i, zone.Local(t), d, w.start);
      assert !FoldCuts(w, zone, i);
      ClosedInFold(w, zone, i, d);
    }
  }

  lemma ClosedInFold(w: Window, zone: Zone, i: nat, d: int)
    requires Keeps(w.local, zone) && zone.WellSpaced()
    requires i < |zone.changes| && zone.FoldCrosses(i) && !FoldCuts(w, zone, i)
    requires DateOf(zone.Closes(i) - 1) == d && d * DAY + w.start < zone.Closes(i)
    ensures w.Closes(d) < zone.changes[i].at
  {
    ClosesAt(w, zone, d);
    ReadingBeforeFoldEnds(zone, i, d * DAY + w.end);
  }

  /** A fold that repeats `shown`, of a date before `d`, up to some time of `d`, crosses the midnight of `d`. */
  lemma FoldHolds(zone: Zone, i: nat, shown: int, d: int, time: TimeOfDay)
    requires i < |zone.changes| && zone.changes[i].offset < zone.Before(i) && zone.Jump(i) < DAY
    requires zone.Opens(i) <= shown && DateOf(shown) < d && d * DAY + time < zone.Closes(i)
    ensures zone.FoldCrosses(i) && DateOf(zone.Closes(i) - 1) == d
  {
    zone.DateOfMonotone(zone.Opens(i), shown);
  }

  lemma UncutIsSeen(w: Window, zone: Zone)
    requires Keeps(w.local, zone) && zone.WellSpaced() && ShortJumps(zone) && Uncut(w, zone)
    ensures Seen(w)
  {
    forall d, t | w.Covers(d, t)
      ensures w.IsActive(t)
    {
      OpenIsNotAhead(w, zone, d, t);
      StillToClose(w, zone, d, t);
    }
    forall d, t | w.Pending(d, t) && d < w.local.dateOf(t) - 1
      ensures w.Covers(w.local.dateOf(t) - 1, t)
    {
      StillToClose(w, zone, d, t);
    }
    forall d, e | d < e
      ensures w.Opens(d) < w.Opens(e)
    {
      OpensLater(w, zone, d, w.start, e);
    }
    forall t, e | w.local.dateOf(t) + 2 <= e
      ensures w.local.NextMidnight(t) <= w.Opens(e)
    {
      OpensLater(w, zone, w.local.dateOf(t) + 1, 0, e);
    }
  }

  lemma OpensLater(w: Window, zone: Zone, d: int, time: TimeOfDay, e: int)
    requires Keeps(w.local, zone) && zone.WellSpaced() && ShortJumps(zone)
    requires d < e && time <= w.start
    ensures w.local.resolve(d, time) < w.Opens(e)
  {
    DayLater(zone, d, time, e, w.start);
    assert w.local.resolve(d, time) == zone.ResolveLocal(d, time);
    assert w.Opens(e) == zone.ResolveLocal(e, w.start);
  }

  // ---- A cut window disagrees ----

  lemma FoldCutDisagrees(w: Window, zone: Zone, i: nat)
    requires Keeps(w.local, zone) && zone.WellSpaced() && ShortJumps(zone)
    requires i < |zone.changes| && FoldCuts(w, zone, i)
    ensures !WaitingAgrees(w.Controller())
  {
    var date := DateOf(zone.Closes(i) - 1);
    FoldDates(zone, i);
    LastDayOf(zone.Closes(i));
    AdjacentDates(zone, i);
    CutIsOpen(w, zone, i, date);
    CutIsOver(w, zone, i, date, date - 1);
    CutIsOver(w, zone, i, date, date - 2);
    assert w.local.dateOf(zone.changes[i].at) == zone.LocalDate(zone.changes[i].at);
    assert w.local.dateOf(zone.changes[i].at - 1) == zone.LocalDate(zone.changes[i].at - 1);
    MissesTheOpenWindow(w, date, date - 1, zone.changes[i].at);
  }

  lemma AdjacentDates(zone: Zone, i: nat)
    requires i < |zone.changes| && zone.FoldCrosses(i) && zone.Jump(i) < DAY
    ensures DateOf(zone.Opens(i)) == DateOf(zone.Closes(i) - 1) - 1
  {
  }

  lemma CutIsOpen(w: Window, zone: Zone, i: nat, date: int)
    requires Keeps(w.local, zone) && zone.WellSpaced() && i < |zone.changes| && FoldCuts(w, zone, i)
    requires date == DateOf(zone.Closes(i) - 1) && zone.Closes(i) <= date * DAY + DAY
    ensures w.Opens(date) < zone.changes[i].at < w.Closes(date)
  {
    OpensAt(w, zone, date);
    ReadingBeforeFoldEnds(zone, i, date * DAY + w.start);
    EndsAfter(w, date, zone.Closes(i));
    ClosesAt(w, zone, date);
    OpenAfterFold(zone, i, w.EndDate(date) * DAY + w.end);
  }

  lemma EndsAfter(w: Window, date: int, closes: int)
    requires closes <= date * DAY + DAY && (w.end <= w.start || closes <= date * DAY + w.end)
    ensures closes <= w.EndDate(date) * DAY + w.end
  {
  }

  lemma CutIsOver(w: Window, zone: Zone, i: nat, date: int, before: int)
    requires Keeps(w.local, zone) && zone.WellSpaced() && i < |zone.changes| && FoldCuts(w, zone, i)
    requires date == DateOf(zone.Closes(i) - 1) && date * DAY < zone.Closes(i) && before < date
    ensures w.Closes(before) < zone.changes[i].at
  {
    ClosesAt(w, zone, before);
    EndsBefore(w, before, date, zone.Closes(i));
    ReadingBeforeFoldEnds(zone, i, w.EndDate(before) * DAY + w.end);
  }

  lemma EndsBefore(w: Window, before: int, date: int, closes: int)
    requires before < date && date * DAY + w.start < closes
    ensures w.EndDate(before) * DAY + w.end < closes
  {
  }

  lemma GapCutDisagrees(w: Window, zone: Zone, i: nat)
    requires Keeps(w.local, zone) && zone.WellSpaced() && ShortJumps(zone)
    requires i < |zone.changes| && GapCuts(w, zone, i)
    ensures !WaitingAgrees(w.Controller())
  {
    var date, shown :| GapCutsAt(w, zone, i, date, shown);
    var now := shown - zone.changes[i].offset;
    GapCutDates(w, zone, i, date, shown);
    OpensBeforeCut(w, zone, i, date, shown);
    ClosesAfterCut(w, zone, i, date, shown);
    OpensAfterCut(w, zone, i, date, shown, DateOf(shown) - 1);
    OpensAfterCut(w, zone, i, date, shown, DateOf(shown));
    LosesTheOpenWindow(w, date - 1, zone.changes[i].at - 1, now);
  }

  lemma GapCutDates(w: Window, zone: Zone, i: nat, date: int, shown: int)
    requires Keeps(w.local, zone) && zone.WellSpaced() && ShortJumps(zone)
    requires i < |zone.changes| && GapCutsAt(w, zone, i, date, shown)
    ensures date - 1 <= w.local.dateOf(zone.changes[i].at - 1) <= date
    ensures w.local.dateOf(shown - zone.changes[i].offset) == DateOf(shown)
    ensures zone.changes[i].at <= shown - zone.changes[i].offset
  {
    ShownAfterGap(zone, i, date * DAY + w.end, shown);
    zone.SegmentIs(zone.changes[i].at - 1, i);
    DateWithin(zone.Opens(i) - 1, date, w.end);
    assert w.local.dateOf(zone.changes[i].at - 1) == zone.LocalDate(zone.changes[i].at - 1);
    assert w.local.dateOf(shown - zone.changes[i].offset) == zone.LocalDate(shown - zone.changes[i].offset);
  }

  lemma OpensBeforeCut(w: Window, zone: Zone, i: nat, date: int, shown: int)
    requires Keeps(w.local, zone) && zone.WellSpaced() && ShortJumps(zone)
    requires i < |zone.changes| && GapCutsAt(w, zone, i, date, shown)
    ensures w.Opens(date - 1) < zone.changes[i].at && w.Closes(date - 2) < zone.changes[i].at
  {
    EarlierReadings(date, w.start, zone.Closes(i), zone.Opens(i));
    ResolvedBeforeCut(zone, i, date - 1, w.start);
    ResolvedBeforeCut(zone, i, date - 1, w.end);
    assert w.Opens(date - 1) == zone.ResolveLocal(date - 1, w.start);
    assert w.Closes(date - 2) == zone.ResolveLocal(date - 1, w.end);
  }

  lemma ResolvedBeforeCut(zone: Zone, i: nat, date: int, time: TimeOfDay)
    requires zone.WellSpaced() && i < |zone.changes| && date * DAY + time < zone.Opens(i)
    ensures zone.ResolveLocal(date, time) < zone.changes[i].at
  {
    ReadingBefore(zone, i, date * DAY + time);
  }

  lemma EarlierReadings(date: int, time: TimeOfDay, closes: int, opens: int)
    requires date * DAY + time < closes < opens + DAY
    ensures (date - 1) * DAY + time < opens
  {
  }

  lemma ClosesAfterCut(w: Window, zone: Zone, i: nat, date: int, shown: int)
    requires Keeps(w.local, zone) && zone.WellSpaced()
    requires i < |zone.changes| && GapCutsAt(w, zone, i, date, shown)
    ensures shown - zone.changes[i].offset < w.Closes(date - 1)
  {
    ClosesAt(w, zone, date - 1);
    ShownAfterGap(zone, i, date * DAY + w.end, shown);
  }

  lemma OpensAfterCut(w: Window, zone: Zone, i: nat, date: int, shown: int, d: int)
    requires Keeps(w.local, zone) && zone.WellSpaced() && ShortJumps(zone)
    requires i < |zone.changes| && GapCutsAt(w, zone, i, date, shown) && date <= d
    ensures shown - zone.changes[i].offset < w.Opens(d)
  {
    OpensAt(w, zone, d);
    NotShownBefore(date, d, w.start);
    LaterAfter(zone, i, date * DAY + w.end, shown, d * DAY + w.start);
  }

  lemma NotShownBefore(date: int, d: int, time: TimeOfDay)
    requires date <= d
    ensures d == date || date * DAY + time + DAY <= d * DAY + time
  {
  }

  // ---- The exact condition ----

  /** In a well-spaced zone without jumps of a day, one window's controller agrees with its restarts exactly
      when no fold and no gap cuts the window off. */
  lemma OneWindowAgreesExactly(start: MinuteOfDay, end: MinuteOfDay, zone: Zone)
    requires zone.WellSpaced() && ShortJumps(zone)
    ensures var w := Window(start, end, zone.Time()); WaitingAgrees(w.Controller()) <==> Uncut(w, zone)
  {
    TimeKeeps(zone);
    AgreesExactlyWhenUncut(Window(start, end, zone.Time()), zone);
  }

  lemma AgreesExactlyWhenUncut(w: Window, zone: Zone)
    requires Keeps(w.local, zone) && zone.WellSpaced() && ShortJumps(zone)
    ensures WaitingAgrees(w.Controller()) <==> Uncut(w, zone)
  {
    if Uncut(w, zone) {
      UncutIsSeen(w, zone);
      SeenAgrees(w);
    } else if i :| 0 <= i < |zone.changes| && FoldCuts(w, zone, i) {
      FoldCutDisagrees(w, zone, i);
    } else {
      var i :| 0 <= i < |zone.changes| && GapCuts(w, zone, i);
      GapCutDisagrees(w, zone, i);
    }
  }

  // ---- Runs of one window ----

  /** Changes are days apart. */
  ghost predicate DaysApart(zone: Zone) {
    forall i :: 0 < i < |zone.changes| ==> zone.changes[i].at - zone.changes[i - 1].at >= 4 * DAY
  }

  /** A window is emptied only by a gap that skips its start. */
  lemma EmptiedByGap(w: Window, zone: Zone, d: int) returns (i: nat)
    requires Keeps(w.local, zone) && zone.WellSpaced() && w.ForDate(d).None?
    ensures i < |zone.changes| && zone.SkippedBy(d * DAY + w.start, i)
  {
    var opens, closes := d * DAY + w.start, w.EndDate(d) * DAY + w.end;
    OpensAt(w, zone, d);
    ClosesAt(w, zone, d);
    EndsLater(w, d);
    i := zone.FirstOpen(opens, 0);
    if !zone.ToAmbiguous(opens).Gap? {
      ResolvedInOrder(zone, opens, closes);
    }
  }

  lemma EndsLater(w: Window, d: int)
    ensures d * DAY + w.start < w.EndDate(d) * DAY + w.end
  {
  }

  /** When changes are days apart, one of two consecutive dates has a window. */
  lemma OneOfTwo(w: Window, zone: Zone, d: int)
    requires Keeps(w.local, zone) && zone.WellSpaced() && ShortJumps(zone) && DaysApart(zone)
    ensures w.ForDate(d).Some? || w.ForDate(d + 1).Some?
  {
    if w.ForDate(d).None? && w.ForDate(d + 1).None? {
      var i := EmptiedByGap(w, zone, d);
      var k := EmptiedByGap(w, zone, d + 1);
      DayApart(d, w.start, d + 1, w.start);
      TwoGaps(zone, i, k, d * DAY + w.start, (d + 1) * DAY + w.start);
      assert false;
    }
  }

  lemma TwoGaps(zone: Zone, i: nat, k: nat, v: int, wall: int)
    requires zone.WellSpaced() && ShortJumps(zone) && DaysApart(zone) && i < |zone.changes| && k < |zone.changes|
    requires zone.SkippedBy(v, i) && v + DAY <= wall <= v + 2 * DAY
    ensures !zone.SkippedBy(wall, k)
  {
    assert zone.Jump(i) < DAY;
    if k < i {
      zone.ChangesApart(k, i);
    } else if i < k {
      if i + 1 < k {
        zone.ChangesApart(i + 1, k);
      }
      NextChangeLater(zone, i);
    }
  }

  lemma NextChangeLater(zone: Zone, i: nat)
    requires zone.WellSpaced() && DaysApart(zone) && i + 1 < |zone.changes| && zone.Before(i) < zone.changes[i].offset
    ensures zone.Closes(i) + 4 * DAY <= zone.Closes(i + 1)
    ensures zone.Before(i + 1) < zone.changes[i + 1].offset ==> zone.Closes(i) + 4 * DAY <= zone.Opens(i + 1)
  {
    assert zone.changes[i + 1].at - zone.changes[i + 1 - 1].at >= 4 * DAY;
  }

  /** The window of two dates ahead is still ahead. */
  lemma TwoDatesAhead(w: Window, zone: Zone, d: int, t: int)
    requires Keeps(w.local, zone) && zone.WellSpaced() && ShortJumps(zone)
    requires w.local.dateOf(t) + 2 <= d
    ensures t < w.Opens(d)
  {
    OpensAt(w, zone, d);
    zone.DateOfReading(d, w.start);
    assert w.local.dateOf(t) == zone.LocalDate(t);
    if zone.Compatible(d * DAY + w.start) <= t {
      var i := AfterResolved(zone, d * DAY + w.start, t);
      assert zone.Jump(i) < DAY;
      MoreThanDayApart(zone.Local(t), d, w.start);
    }
  }

  lemma MoreThanDayApart(shown: int, d: int, time: TimeOfDay)
    requires DateOf(shown) + 2 <= d
    ensures shown + DAY < d * DAY + time
  {
  }

  lemma AlwaysFinds(w: Window, zone: Zone, t: int)
    requires Keeps(w.local, zone) && zone.WellSpaced() && ShortJumps(zone) && DaysApart(zone)
    ensures w.NextTransition(t).Some?
  {
    var d := w.local.dateOf(t) + 2;
    OneOfTwo(w, zone, d);
    TwoDatesAhead(w, zone, d, t);
    TwoDatesAhead(w, zone, d + 1, t);
    assert w.Pending(d, t) || w.Pending(d + 1, t);
  }

  lemma OneWindowMovesOn(w: Window, zone: Zone)
    requires Keeps(w.local, zone) && zone.WellSpaced() && ShortJumps(zone) && DaysApart(zone)
    ensures MovesOn(w.Controller().next)
  {
    forall t
      ensures t < w.Arm(t)
    {
      AlwaysFinds(w, zone, t);
    }
  }

  /** Where changes are days apart as well, the runs of one window's controller move on, and over all of them
      it is in the state of a restart exactly when no fold and no gap cuts the window off. */
  lemma OneWindowRunsAgreeExactly(start: MinuteOfDay, end: MinuteOfDay, zone: Zone)
    requires zone.WellSpaced() && ShortJumps(zone) && DaysApart(zone)
    ensures var w := Window(start, end, zone.Time());
            && MovesOn(w.Controller().next)
            && (Uncut(w, zone) <==>
                forall began, now :: began <= now ==>
                  RunTo(w.Controller(), Started(w.Controller(), began), now).state == w.Controller().at(now))
  {
    var w := Window(start, end, zone.Time());
    TimeKeeps(zone);
    OneWindowMovesOn(w, zone);
    AgreesExactlyWhenUncut(w, zone);
    StatesAgreeExactlyWhileWaiting(w.Controller());
  }
}
