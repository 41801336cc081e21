/** What an orderly zone guarantees, and where the changes of any zone put the readings around them. */
module OrderlyZones {
  import opened Clock

  // ---- Orderly zones give orderly local time ----

  lemma RegularIsOrderly(zone: Zone)
    requires zone.Regular()
    ensures zone.Orderly()
  {
    forall i | 0 <= i < |zone.changes|
      ensures !zone.FoldCrosses(i) && !zone.GapSpills(i)
    {
      assert zone.KeepsDate(i);
      if wall, shown :| zone.Spills(i, wall, shown) {
        zone.DateOfMonotone(zone.Opens(i), wall);
        zone.DateOfMonotone(shown, zone.Closes(i) + zone.Jump(i) - 1);
        assert false;
      }
    }
  }

  lemma NotBeforeItsDate(zone: Zone, wall: int, t: int)
    requires zone.WellSpaced() && zone.FoldsKeepDates() && zone.Compatible(wall) <= t
    ensures DateOf(wall) <= zone.LocalDate(t)
  {
    zone.Shown(wall);
    zone.DateOfMonotone(wall, zone.Local(zone.Compatible(wall)));
    zone.LocalDateMonotone(zone.Compatible(wall), t);
  }

  lemma NotMovedPast(zone: Zone, i: nat, wall: int, shown: int)
    requires i < |zone.changes| && !zone.GapSpills(i) && wall % MINUTE == 0 && zone.MovesPast(i, wall, shown)
    ensures DateOf(shown) <= DateOf(wall)
  {
    assert !zone.Spills(i, wall, shown);
  }

  lemma JustBeforeGapReading(zone: Zone, wall: int, i: nat)
    requires zone.Orderly() && wall % MINUTE == 0
    requires i < |zone.changes| && zone.SkippedBy(wall, i) && i == zone.FirstOpen(wall, 0)
    ensures zone.LocalDate(zone.Compatible(wall) - 1) <= DateOf(wall)
  {
    var r := wall - zone.Before(i);
    zone.ShownInGap(wall, i);
    if wall == zone.Opens(i) {
      zone.SegmentIs(r - 1, i);
      zone.DateOfMonotone(wall - 1, wall);
    } else {
      SecondOfSegment(zone, r, i + 1);
      NotMovedPast(zone, i, wall, wall + zone.Jump(i) - 1);
    }
  }

  lemma SecondOfSegment(zone: Zone, t: int, i: nat)
    requires zone.WellSpaced() && 0 < i == zone.Segment(t) && zone.changes[i - 1].at < t
    ensures zone.Local(t - 1) == zone.Local(t) - 1
  {
    zone.SegmentIs(t - 1, i);
  }

  lemma NotAfterItsDate(zone: Zone, wall: int, t: int)
    requires zone.Orderly() && wall % MINUTE == 0 && t < zone.Compatible(wall)
    ensures zone.LocalDate(t) <= DateOf(wall)
  {
    var r := zone.Compatible(wall);
    if zone.ToAmbiguous(wall).Gap? {
      JustBeforeGapReading(zone, wall, zone.FirstOpen(wall, 0));
      zone.LocalDateMonotone(t, r - 1);
    } else {
      zone.Shown(wall);
      zone.LocalDateMonotone(t, r);
    }
  }

  // ---- Zones in which midnight comes first ----

  /** Of the well-spaced zones, those in which midnight is the first instant of its date are exactly those
      in which no fold crosses a midnight and no gap opens before a midnight that it skips. */
  lemma MidnightsFirstExactly(zone: Zone)
    requires zone.WellSpaced()
    ensures zone.Time().MidnightsFirst() <==> zone.FoldsKeepDates() && zone.KeepsMidnights()
  {
    if zone.FoldsKeepDates() && zone.KeepsMidnights() {
      var local := zone.Time();
      forall date, t
        ensures local.Midnight(date) <= t <==> date <= local.dateOf(t)
      {
        MidnightIsFirst(zone, date, t);
      }
    } else if i :| 0 <= i < |zone.changes| && zone.FoldCrosses(i) {
      DatesGoBack(zone, i);
    } else {
      var i, date :| 0 <= i < |zone.changes| && zone.SkippedBy(date * DAY, i) && zone.Opens(i) != date * DAY;
      MidnightIsLate(zone, i, date);
    }
  }

  lemma MidnightIsFirst(zone: Zone, date: int, t: int)
    requires zone.WellSpaced() && zone.FoldsKeepDates() && zone.KeepsMidnights()
    ensures zone.ResolveLocal(date, 0) <= t <==> date <= zone.LocalDate(t)
  {
    zone.DateOfReading(date, 0);
    if zone.Compatible(date * DAY) <= t {
      NotBeforeItsDate(zone, date * DAY, t);
    } else {
      BeforeMidnight(zone, date, t);
    }
  }

  lemma BeforeMidnight(zone: Zone, date: int, t: int)
    requires zone.WellSpaced() && zone.KeepsMidnights() && t < zone.Compatible(date * DAY)
    ensures zone.LocalDate(t) < date
  {
    var i := zone.FirstOpen(date * DAY, 0);
    assert zone.ToAmbiguous(date * DAY).Gap? ==> zone.SkippedBy(date * DAY, i);
    zone.BeforeReading(date * DAY, t);
    EarlierDay(zone.Local(t), date);
  }

  lemma EarlierDay(wall: int, date: int)
    requires wall < date * DAY
    ensures DateOf(wall) < date
  {
  }

  lemma DatesGoBack(zone: Zone, i: nat)
    requires zone.WellSpaced() && i < |zone.changes| && zone.FoldCrosses(i)
    ensures !zone.Time().MidnightsFirst()
  {
    FoldDates(zone, i);
    if zone.Time().MidnightsFirst() {
      zone.Time().DatesInOrder(zone.changes[i].at - 1, zone.changes[i].at);
    }
  }

  lemma MidnightIsLate(zone: Zone, i: nat, date: int)
    requires zone.WellSpaced() && i < |zone.changes| && zone.SkippedBy(date * DAY, i) && zone.Opens(i) != date * DAY
    ensures !zone.Time().MidnightsFirst()
  {
    var local, at := zone.Time(), zone.changes[i].at;
    DateAfterGap(zone, i, date);
    ReadingInside(zone, i, date * DAY);
    assert at < local.Midnight(date) && date <= local.dateOf(at);
  }

  lemma DateAfterGap(zone: Zone, i: nat, date: int)
    requires zone.WellSpaced() && i < |zone.changes| && zone.SkippedBy(date * DAY, i)
    ensures date <= zone.LocalDate(zone.changes[i].at)
  {
    zone.SegmentIs(zone.changes[i].at, i + 1);
    zone.DateOfReading(date, 0);
    zone.DateOfMonotone(date * DAY, zone.Closes(i));
  }

  // ---- The same time on different dates ----

  /** Readings further apart than any jump between them are resolved in order. */
  lemma ResolvedInOrder(zone: Zone, v: int, w: int)
    requires zone.WellSpaced() && v < w
    requires var i := zone.FirstOpen(v, 0); zone.ToAmbiguous(v).Gap? ==> v + zone.Jump(i) < w
    ensures zone.Compatible(v) < zone.Compatible(w)
  {
    var i, j := zone.FirstOpen(v, 0), zone.FirstOpen(w, 0);
    assert i <= j;
    if i < j {
      ShownBy(zone, v, w);
      zone.Shown(w);
      InOrderAcross(zone, zone.Compatible(v), w - zone.Before(j), i, j, w);
    }
  }

  lemma ShownBy(zone: Zone, wall: int, bound: int)
    requires zone.WellSpaced()
    requires var i := zone.FirstOpen(wall, 0); zone.ToAmbiguous(wall).Gap? ==> wall + zone.Jump(i) < bound
    ensures var i, r := zone.FirstOpen(wall, 0), zone.Compatible(wall);
            zone.Segment(r) == i || (zone.Segment(r) == i + 1 && zone.Local(r) < bound)
  {
    zone.Shown(wall);
  }

  lemma InOrderAcross(zone: Zone, t: int, u: int, i: nat, j: nat, w: int)
    requires i < j
    requires zone.Segment(t) == i || (zone.Segment(t) == i + 1 && zone.Local(t) < w)
    requires (zone.Segment(u) == j && zone.Local(u) == w) || zone.Segment(u) == j + 1
    ensures t < u
  {
    if zone.Segment(t) < zone.Segment(u) {
      assert t < zone.changes[zone.Segment(u) - 1].at <= u;
    }
  }

  /** What a gap may do to the readings at one time of day, from the one on `date` on: it skips that
      reading and none before it, moves it past `shown`, and then shows the next one after `shown`. */
  ghost predicate Alone(zone: Zone, i: nat, date: int, time: TimeOfDay, shown: int)
    requires i < |zone.changes|
  {
    && zone.MovesPast(i, date * DAY + time, shown) && date * DAY + time - DAY < zone.Opens(i)
    && forall d :: date <= d ==> SkippedOrLater(zone, i, d * DAY + time, shown)
  }

  predicate SkippedOrLater(zone: Zone, i: nat, wall: int, shown: int)
    requires i < |zone.changes|
  {
    wall < zone.Closes(i) || shown < wall
  }

  /** A gap that spills does so at some whole minute of the day, alone. */
  lemma SpillsAlone(zone: Zone, i: nat) returns (date: int, time: MinuteOfDay, shown: int)
    requires i < |zone.changes| && zone.GapSpills(i)
    ensures Alone(zone, i, date, time, shown) && date < DateOf(shown)
  {
    var wall;
    if zone.Jump(i) < DAY {
      wall, shown :| zone.Spills(i, wall, shown);
    } else {
      wall, shown := LongGapSpills(zone, i);
    }
    MinutesOfDay(wall);
    date, time := wall / DAY, wall % DAY;
    SpillsAloneAt(zone, i, wall, shown, date, time);
  }

  lemma MinutesOfDay(wall: int)
    ensures wall % DAY % MINUTE == wall % MINUTE
  {
  }

  lemma SpillsAloneAt(zone: Zone, i: nat, wall: int, shown: int, date: int, time: TimeOfDay)
    requires i < |zone.changes| && zone.MovesPast(i, wall, shown) && wall == date * DAY + time
    requires zone.Jump(i) < DAY || (wall - DAY < zone.Opens(i) && NoneBetween(zone.Closes(i), shown, wall))
    ensures Alone(zone, i, date, time, shown)
  {
    forall d | date <= d
      ensures SkippedOrLater(zone, i, d * DAY + time, shown)
    {
      assert d * DAY + time == wall + (d - date) * DAY;
    }
  }

  /** No reading from `first` to `last` is at the time of day of `wall`. */
  ghost predicate NoneBetween(first: int, last: int, wall: int) {
    forall n :: first <= wall + n * DAY ==> last < wall + n * DAY
  }

  /** A gap of a day or more spills. */
  lemma LongGapSpills(zone: Zone, i: nat) returns (wall: int, shown: int)
    requires i < |zone.changes| && zone.Before(i) < zone.changes[i].offset && zone.Jump(i) >= DAY
    ensures zone.Spills(i, wall, shown) && zone.GapSpills(i)
    ensures wall - DAY < zone.Opens(i) && NoneBetween(zone.Closes(i), shown, wall)
  {
    var opens, closes := zone.Opens(i), zone.Closes(i);
    var midnight := (DateOf(opens) + 1) * DAY;
    if midnight <= opens + 2 * MINUTE && closes <= midnight + DAY {
      wall, shown := PastSecondMidnight(opens, closes);
    } else {
      wall, shown := PastTheEnd(opens, closes);
    }
    assert zone.Spills(i, wall, shown);
  }

  /** A day from just before a midnight to the next: a minute after the first, past the second. */
  lemma PastSecondMidnight(opens: int, closes: int) returns (wall: int, shown: int)
    requires opens + DAY <= closes <= (DateOf(opens) + 1) * DAY + DAY <= opens + 2 * MINUTE + DAY
    ensures wall % MINUTE == 0 && opens <= wall < closes <= shown < wall + (closes - opens)
    ensures DateOf(wall) < DateOf(shown)
    ensures wall - DAY < opens && NoneBetween(closes, shown, wall)
  {
    var date := DateOf(opens) + 1;
    wall, shown := date * DAY + MINUTE, (date + 1) * DAY;
  }

  /** Otherwise: one of the first whole minutes skipped, past the end of the gap. */
  lemma PastTheEnd(opens: int, closes: int) returns (wall: int, shown: int)
    requires opens + DAY <= closes
    requires opens + 2 * MINUTE < (DateOf(opens) + 1) * DAY || (DateOf(opens) + 1) * DAY + DAY < closes
    ensures wall % MINUTE == 0 && opens <= wall < closes <= shown < wall + (closes - opens)
    ensures DateOf(wall) < DateOf(shown)
    ensures wall - DAY < opens && NoneBetween(closes, shown, wall)
  {
    var first := (opens / MINUTE + 1) * MINUTE;
    wall, shown := if (closes - first) % DAY == 0 then first + MINUTE else first, closes;
    FirstMinutes(opens, first);
    NotAtTheEnd(closes, first, wall);
    EarlierDate(opens, closes, wall);
  }

  lemma FirstMinutes(opens: int, first: int)
    requires first == (opens / MINUTE + 1) * MINUTE
    ensures opens < first <= opens + MINUTE && first % MINUTE == 0 && (first + MINUTE) % MINUTE == 0
  {
  }

  lemma EarlierDate(opens: int, closes: int, wall: int)
    requires opens + DAY <= closes && opens < wall <= opens + 2 * MINUTE
    requires opens + 2 * MINUTE < (DateOf(opens) + 1) * DAY || (DateOf(opens) + 1) * DAY + DAY < closes
    ensures DateOf(wall) < DateOf(closes)
  {
  }

  lemma NotAtTheEnd(closes: int, first: int, wall: int)
    requires wall == if (closes - first) % DAY == 0 then first + MINUTE else first
    ensures NoneBetween(closes, closes, wall)
  {
  }

  /** In an orderly zone readings a day or more apart are resolved in order. */
  lemma LaterDateLater(zone: Zone, d: int, e: int, s: TimeOfDay, t: TimeOfDay)
    requires zone.Orderly() && d < e && s <= t
    ensures zone.ResolveLocal(d, s) < zone.ResolveLocal(e, t)
  {
    var wall := d * DAY + s;
    if zone.ToAmbiguous(wall).Gap? {
      GapsAreShort(zone, zone.FirstOpen(wall, 0));
    }
    DayApart(d, s, e, t);
    ResolvedInOrder(zone, wall, e * DAY + t);
  }

  lemma DayApart(d: int, s: TimeOfDay, e: int, t: TimeOfDay)
    requires d < e && s <= t
    ensures d * DAY + s + DAY <= e * DAY + t
  {
  }

  lemma GapsAreShort(zone: Zone, i: nat)
    requires zone.Orderly() && i < |zone.changes| && zone.Before(i) < zone.changes[i].offset
    ensures zone.Jump(i) < DAY
  {
    if zone.Jump(i) >= DAY {
      var wall, shown := LongGapSpills(zone, i);
      assert false;
    }
  }

  lemma WholeMinute(date: int, time: MinuteOfDay)
    ensures (date * DAY + time) % MINUTE == 0
  {
  }

  lemma WithinItsDate(zone: Zone, date: int, time: MinuteOfDay, t: int)
    requires zone.Orderly()
    ensures zone.ResolveLocal(date, time) <= t ==> date <= zone.LocalDate(t)
    ensures t < zone.ResolveLocal(date, time) ==> zone.LocalDate(t) <= date
  {
    zone.DateOfReading(date, time);
    WholeMinute(date, time);
    if zone.ResolveLocal(date, time) <= t {
      NotBeforeItsDate(zone, date * DAY + time, t);
    } else {
      NotAfterItsDate(zone, date * DAY + time, t);
    }
  }

  lemma TimeIsOrderly(zone: Zone)
    requires zone.Orderly()
    ensures zone.Time().Orderly()
  {
    forall t, u | t <= u
      ensures zone.LocalDate(t) <= zone.LocalDate(u)
    {
      zone.LocalDateMonotone(t, u);
    }
    forall date, time: MinuteOfDay, t
      ensures zone.ResolveLocal(date, time) <= t ==> date <= zone.LocalDate(t)
      ensures t < zone.ResolveLocal(date, time) ==> zone.LocalDate(t) <= date
    {
      WithinItsDate(zone, date, time, t);
    }
    forall d, e, s: MinuteOfDay, t: MinuteOfDay | d < e && s <= t
      ensures zone.ResolveLocal(d, s) < zone.ResolveLocal(e, t)
    {
      LaterDateLater(zone, d, e, s, t);
    }
  }

  /** Local time is what the zone says. The zone's side is what these are found by, so that a proof about
      local time sees into the zone only where it names it. */
  ghost predicate Keeps(local: LocalTime, zone: Zone) {
    && (forall t {:trigger zone.LocalDate(t)} :: local.dateOf(t) == zone.LocalDate(t))
    && (forall date, time: TimeOfDay {:trigger zone.ResolveLocal(date, time)} ::
          local.resolve(date, time) == zone.ResolveLocal(date, time))
  }

  lemma TimeKeeps(zone: Zone)
    ensures Keeps(zone.Time(), zone)
  {
  }

  // ---- Around one change ----

  lemma ReadingBefore(zone: Zone, i: nat, wall: int)
    requires zone.WellSpaced() && i < |zone.changes| && wall < zone.Opens(i)
    ensures zone.Compatible(wall) < zone.changes[i].at
  {
    var j, r := zone.FirstOpen(wall, 0), zone.Compatible(wall);
    assert wall < zone.Closes(i) && j <= i;
    zone.Shown(wall);
    if j < i {
      assert zone.Segment(r) <= j + 1 && r < zone.changes[i].at;
    }
  }

  lemma ReadingInside(zone: Zone, i: nat, wall: int)
    requires zone.WellSpaced() && i < |zone.changes| && zone.Opens(i) <= wall < zone.Closes(i)
    ensures zone.Compatible(wall) == wall - zone.Before(i)
  {
    var j := zone.FirstOpen(wall, 0);
    if j < i {
      zone.ChangesApart(j, i);
    }
  }

  /** A reading after those that change `i` skips or repeats is resolved after any instant that shows
      an earlier one with the offset of the change. */
  lemma ReadingAfter(zone: Zone, i: nat, wall: int, t: int)
    requires zone.WellSpaced() && i < |zone.changes| && zone.Closes(i) <= wall
    requires zone.Segment(t) == i + 1 && zone.Local(t) < wall
    ensures t < zone.Compatible(wall)
  {
    var j := zone.FirstOpen(wall, 0);
    if j < i {
      zone.ChangesApart(j, i);
    }
    zone.Shown(wall);
    if i + 1 < j {
      InOrderAcross(zone, t, wall - zone.Before(j), i + 1, j, wall);
    }
  }

  /** The instant with the offset of change `i` that shows a reading which a gap moves others past. */
  lemma ShownAfterGap(zone: Zone, i: nat, wall: int, shown: int)
    requires zone.WellSpaced() && i < |zone.changes| && zone.MovesPast(i, wall, shown)
    ensures var t := shown - zone.changes[i].offset;
            && zone.changes[i].at <= t < zone.Compatible(wall)
            && zone.Segment(t) == i + 1 && zone.Local(t) == shown
  {
    ReadingInside(zone, i, wall);
    zone.ShownInGap(wall, i);
    zone.SegmentIs(shown - zone.changes[i].offset, i + 1);
  }

  /** From `date` on, the readings at that time of day are resolved after `shown`. */
  lemma AloneAfter(zone: Zone, i: nat, date: int, time: TimeOfDay, shown: int, d: int)
    requires zone.WellSpaced() && i < |zone.changes| && Alone(zone, i, date, time, shown) && date <= d
    ensures shown - zone.changes[i].offset < zone.ResolveLocal(d, time)
  {
    assert SkippedOrLater(zone, i, d * DAY + time, shown);
    LaterAfter(zone, i, date * DAY + time, shown, d * DAY + time);
  }

  lemma LaterAfter(zone: Zone, i: nat, wall: int, shown: int, later: int)
    requires zone.WellSpaced() && i < |zone.changes| && zone.MovesPast(i, wall, shown)
    requires wall <= later && SkippedOrLater(zone, i, later, shown)
    ensures shown - zone.changes[i].offset < zone.Compatible(later)
  {
    if later < zone.Closes(i) {
      ReadingInside(zone, i, later);
    } else {
      ShownAfterGap(zone, i, wall, shown);
      ReadingAfter(zone, i, later, shown - zone.changes[i].offset);
    }
  }

  /** Before `date`, they are resolved before the gap. */
  lemma AloneBefore(zone: Zone, i: nat, date: int, time: TimeOfDay, shown: int, d: int)
    requires zone.WellSpaced() && i < |zone.changes| && Alone(zone, i, date, time, shown) && d < date
    ensures zone.ResolveLocal(d, time) < zone.changes[i].at
  {
    ReadingBefore(zone, i, d * DAY + time);
  }

  /** The dates on either side of a gap. */
  lemma AloneDates(zone: Zone, i: nat, date: int, time: TimeOfDay, shown: int)
    requires zone.WellSpaced() && i < |zone.changes| && Alone(zone, i, date, time, shown)
    ensures date - 1 <= zone.LocalDate(zone.changes[i].at - 1) <= date
    ensures zone.LocalDate(shown - zone.changes[i].offset) == DateOf(shown)
  {
    ShownAfterGap(zone, i, date * DAY + time, shown);
    zone.SegmentIs(zone.changes[i].at - 1, i);
    DateWithin(zone.Opens(i) - 1, date, time);
  }

  lemma DateWithin(wall: int, date: int, time: TimeOfDay)
    requires date * DAY + time - DAY <= wall < date * DAY + time
    ensures date - 1 <= DateOf(wall) <= date
  {
  }

  /** A reading more than the gap after a skipped one is resolved after it. */
  lemma LaterThanGap(zone: Zone, i: nat, wall: int, later: int)
    requires zone.WellSpaced() && i < |zone.changes| && zone.SkippedBy(wall, i) && wall + zone.Jump(i) < later
    ensures zone.Compatible(wall) < zone.Compatible(later)
  {
    ReadingInside(zone, i, wall);
    if later < zone.Closes(i) {
      ReadingInside(zone, i, later);
    } else {
      GapShows(zone, i, wall);
      ReadingAfter(zone, i, later, zone.Compatible(wall));
    }
  }

  lemma GapShows(zone: Zone, i: nat, wall: int)
    requires zone.WellSpaced() && i < |zone.changes| && zone.SkippedBy(wall, i)
    ensures zone.Segment(zone.Compatible(wall)) == i + 1
    ensures zone.Local(zone.Compatible(wall)) == wall + zone.Jump(i)
  {
    ReadingInside(zone, i, wall);
    zone.ShownInGap(wall, i);
  }

  /** Before the instant a reading is resolved to, all readings are earlier, except in the stretch a gap
      moves it past. */
  lemma BeforeResolved(zone: Zone, wall: int, t: int)
    requires zone.WellSpaced() && t < zone.Compatible(wall)
    ensures || zone.Local(t) < wall
            || (var i := zone.FirstOpen(wall, 0);
                i < |zone.changes| && zone.MovesPast(i, wall, zone.Local(t)) && zone.Segment(t) == i + 1)
  {
    var i := zone.FirstOpen(wall, 0);
    if zone.ToAmbiguous(wall).Gap? {
      if t < zone.changes[i].at {
        ReadingBeforeGap(zone, i, t);
      } else {
        ShownSinceGap(zone, i, wall, t);
      }
    } else {
      zone.BeforeReading(wall, t);
    }
  }

  lemma ReadingBeforeGap(zone: Zone, i: nat, t: int)
    requires zone.WellSpaced() && i < |zone.changes| && zone.Before(i) < zone.changes[i].offset
    requires t < zone.changes[i].at
    ensures zone.Local(t) < zone.Opens(i)
  {
    zone.SegmentIs(zone.changes[i].at - 1, i);
    zone.SegmentsInOrder(t, zone.changes[i].at - 1);
    var j := zone.Segment(t);
    if j < i {
      assert t < zone.changes[j].at;
      zone.ChangesApart(j, i);
    }
  }

  lemma ShownSinceGap(zone: Zone, i: nat, wall: int, t: int)
    requires zone.WellSpaced() && i < |zone.changes| && zone.SkippedBy(wall, i)
    requires zone.changes[i].at <= t < zone.Compatible(wall)
    ensures zone.Segment(t) == i + 1 && zone.MovesPast(i, wall, zone.Local(t))
  {
    GapShows(zone, i, wall);
    zone.SegmentIs(t, i + 1);
  }

  /** After the instant a reading is resolved to, the local date is earlier than the reading's only while
      a fold repeats the end of the date before it. */
  lemma AfterResolved(zone: Zone, wall: int, t: int) returns (i: nat)
    requires zone.WellSpaced() && zone.Compatible(wall) <= t && zone.LocalDate(t) < DateOf(wall)
    ensures i < |zone.changes| && zone.changes[i].offset < zone.Before(i) && zone.changes[i].at <= t
    ensures zone.Opens(i) <= zone.Local(t) && wall < zone.Closes(i)
  {
    var r := zone.Compatible(wall);
    zone.Shown(wall);
    if zone.Local(t) >= wall {
      zone.DateOfMonotone(wall, zone.Local(t));
    }
    zone.SegmentsInOrder(r, t);
    i := zone.Segment(t) - 1;
    ShownSoFar(zone, i, r);
  }

  /** Before change `i` only readings before the end of those it skips or repeats are shown. */
  lemma ShownSoFar(zone: Zone, i: nat, t: int)
    requires zone.WellSpaced() && i < |zone.changes| && zone.Segment(t) <= i
    ensures zone.Local(t) < zone.Closes(i)
  {
    var j := zone.Segment(t);
    assert t < zone.changes[j].at;
    if j < i {
      zone.ChangesApart(j, i);
    }
  }

  // ---- Folds ----

  /** Readings before the end of a fold are resolved before the change. */
  lemma ReadingBeforeFoldEnds(zone: Zone, i: nat, wall: int)
    requires zone.WellSpaced() && i < |zone.changes| && zone.changes[i].offset < zone.Before(i)
    requires wall < zone.Closes(i)
    ensures zone.Compatible(wall) < zone.changes[i].at
  {
    if wall < zone.Opens(i) {
      ReadingBefore(zone, i, wall);
    } else {
      ReadingInside(zone, i, wall);
    }
  }

  lemma FoldDates(zone: Zone, i: nat)
    requires zone.WellSpaced() && i < |zone.changes| && zone.FoldCrosses(i)
    ensures zone.LocalDate(zone.changes[i].at - 1) == DateOf(zone.Closes(i) - 1)
    ensures zone.LocalDate(zone.changes[i].at) == DateOf(zone.Opens(i))
    ensures DateOf(zone.Opens(i)) < DateOf(zone.Closes(i) - 1)
  {
    FoldReadings(zone, i);
    zone.DateOfMonotone(zone.Opens(i), zone.Closes(i) - 1);
  }

  lemma FoldReadings(zone: Zone, i: nat)
    requires zone.WellSpaced() && i < |zone.changes| && zone.changes[i].offset < zone.Before(i)
    ensures zone.Local(zone.changes[i].at - 1) == zone.Closes(i) - 1
    ensures zone.Local(zone.changes[i].at) == zone.Opens(i)
  {
    zone.SegmentIs(zone.changes[i].at - 1, i);
    zone.SegmentIs(zone.changes[i].at, i + 1);
  }

  lemma OpenAfterFold(zone: Zone, i: nat, wall: int)
    requires zone.WellSpaced() && i < |zone.changes| && zone.changes[i].offset < zone.Before(i)
    requires zone.Closes(i) <= wall
    ensures zone.changes[i].at < zone.Compatible(wall)
  {
    zone.SegmentIs(zone.changes[i].at, i + 1);
    ReadingAfter(zone, i, wall, zone.changes[i].at);
  }

  // ---- Zones with one change ----

  /** Resolution in a zone with a single change. */
  lemma OneChange(z: Zone, wall: int)
    requires |z.changes| == 1
    ensures z.Compatible(wall) == wall - if wall < z.Closes(0) then z.initial else z.changes[0].offset
  {
    assert z.FirstOpen(wall, 0) == if wall < z.Closes(0) then 0 else 1;
  }

  /** Clocks that go from 00:30 back to 23:30, much as St John's did until 2011 (00:01 to 23:01). */
  const CROSSING := Zone(0, [Change(10 * DAY + HOUR / 2, -HOUR)])

  /** Clocks that go from 23:00 to midnight, as Nuuk's do in spring since 2024. */
  const NUUK := Zone(-2 * HOUR, [Change(10 * DAY + HOUR, -HOUR)])

  lemma NuukSpills()
    ensures NUUK.WellSpaced() && NUUK.GapSpills(0)
  {
    assert NUUK.Opens(0) == 10 * DAY - HOUR && NUUK.Closes(0) == 10 * DAY;
    assert NUUK.Spills(0, 10 * DAY - HOUR / 2, 10 * DAY);
  }
}
