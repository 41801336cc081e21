/** For an arbitrary sun, whose events may lie far from their dates: when day/night runs move on, and when
    a restart agrees with the controller that waits. */
module DayNightLimits {
  import opened BoundaryRun
  import opened Cells
  import opened Clock
  import opened DayNight
  import opened OrderlyZones
  import opened Wrappers

  lemma WithinDate(site: Site, d: int, t: int)
    requires site.local.MidnightsFirst()
    ensures site.local.dateOf(t) == d <==> site.local.Midnight(d) <= t < site.MidnightAfter(d)
    ensures site.MidnightAfter(d) <= t <==> d < site.local.dateOf(t)
  {
  }

  /** The date happens at all: no gap skips it whole. */
  predicate Happens(site: Site, d: int) { site.local.Midnight(d) < site.MidnightAfter(d) }

  /** The last instant of the date is after both events of its sun. */
  predicate EndsAfterBoth(site: Site, d: int, s: Sun) {
    Happens(site, d) && Max(s.sunrise, s.sunset) < site.MidnightAfter(d)
  }

  // ---- When due instants move on ----

  /** A date after whose events tomorrow's sunrise is awaited ends no later than that sunrise. */
  predicate AwaitsLaterSunrise(site: Site, d: int) {
    site.sun(d).Some? && site.sun(d + 1).Some? && EndsAfterBoth(site, d, site.sun(d).value) ==>
      site.MidnightAfter(d) <= site.sun(d + 1).value.sunrise
  }

  /** The due instants of every run move on exactly when no date that outlasts its own sun awaits a sunrise
      before its end. */
  lemma MovesOnExactly(site: Site)
    requires site.local.MidnightsFirst()
    ensures MovesOn(site.Controller().next) <==> forall d :: AwaitsLaterSunrise(site, d)
  {
    if forall d :: AwaitsLaterSunrise(site, d) {
      forall t
        ensures t < site.Reschedule(t)
      {
        var d := site.local.dateOf(t);
        WithinDate(site, d, t);
        assert AwaitsLaterSunrise(site, d);
      }
    } else {
      var d :| !AwaitsLaterSunrise(site, d);
      var last := site.MidnightAfter(d) - 1;
      WithinDate(site, d, last);
      assert site.Controller().next(last) == site.sun(d + 1).value.sunrise <= last;
    }
  }

  /** A sunrise that comes, a day early, after both events of the date before its own: fired for, it is
      what is awaited again, and no firing gets past it. */
  lemma StuckAtSunrise(site: Site, d: int, k: nat)
    requires site.sun(d).Some? && site.sun(d + 1).Some?
    requires var rise := site.sun(d + 1).value.sunrise;
             && site.local.dateOf(rise) == d
             && Max(site.sun(d).value.sunrise, site.sun(d).value.sunset) <= rise
    ensures Due(site.Controller(), site.sun(d + 1).value.sunrise, k) == site.sun(d + 1).value.sunrise
  {
    if k > 0 {
      StuckAtSunrise(site, d, k - 1);
    }
  }

  // ---- When restarts agree ----

  /** Date `e` is day from its first instant until `until`, or its end. */
  predicate LitUntil(site: Site, e: int, until: int) {
    && site.sun(e).Some?
    && site.sun(e).value.sunrise <= site.local.Midnight(e)
    && Min(until, site.MidnightAfter(e)) <= site.sun(e).value.sunset
  }

  /** The sun of date `e` is not up at any time of it before `until`. */
  predicate DarkUntil(site: Site, e: int, until: int) {
    site.sun(e).Some? ==>
      Min(site.sun(e).value.sunset, Min(until, site.MidnightAfter(e)))
      <= Max(site.sun(e).value.sunrise, site.local.Midnight(e))
  }

  /** A date after `d` that begins before `until`. */
  predicate Between(site: Site, d: int, e: int, until: int) {
    d < e && Happens(site, e) && site.local.Midnight(e) < until
  }

  ghost predicate DayAfter(site: Site, d: int, until: int) {
    forall e :: Between(site, d, e, until) ==> LitUntil(site, e, until)
  }

  ghost predicate NightAfter(site: Site, d: int, until: int) {
    forall e :: Between(site, d, e, until) ==> DarkUntil(site, e, until)
  }

  /** What the sun of date `d` announces for later dates is so by the suns of those dates: while its sunrise
      is awaited on the date, and while tomorrow's is, night until it; while its sunset is awaited, day. */
  ghost predicate OverhangAgrees(site: Site, d: int) {
    Happens(site, d) && site.sun(d).Some? ==>
      var s := site.sun(d).value;
      && (site.local.Midnight(d) < s.sunrise ==> NightAfter(site, d, s.sunrise))
      && (Max(site.local.Midnight(d), s.sunrise) < Min(site.MidnightAfter(d), s.sunset) ==> DayAfter(site, d, s.sunset))
      && (EndsAfterBoth(site, d, s) && site.sun(d + 1).Some? ==> NightAfter(site, d, site.sun(d + 1).value.sunrise))
  }

  ghost predicate OverhangsAgree(site: Site) {
    forall d :: OverhangAgrees(site, d)
  }

  lemma DayAfterAt(site: Site, d: int, until: int, u: int)
    requires site.local.MidnightsFirst() && DayAfter(site, d, until)
    requires site.MidnightAfter(d) <= u < until
    ensures site.ModeAt(u) == Day
  {
    var e := site.local.dateOf(u);
    WithinDate(site, e, u);
    WithinDate(site, d, u);
    assert Between(site, d, e, until);
  }

  lemma NightAfterAt(site: Site, d: int, until: int, u: int)
    requires site.local.MidnightsFirst() && NightAfter(site, d, until)
    requires site.MidnightAfter(d) <= u < until
    ensures site.ModeAt(u) == Night
  {
    var e := site.local.dateOf(u);
    WithinDate(site, e, u);
    WithinDate(site, d, u);
    assert Between(site, d, e, until);
  }

  ghost predicate Throughout(site: Site, d: int, until: int, mode: Mode) {
    forall u :: site.MidnightAfter(d) <= u < until ==> site.ModeAt(u) == mode
  }

  lemma LitThroughout(site: Site, d: int, until: int, e: int)
    requires site.local.MidnightsFirst() && Throughout(site, d, until, Day) && Between(site, d, e, until)
    ensures LitUntil(site, e, until)
  {
    var first, last := site.local.Midnight(e), Min(until, site.MidnightAfter(e)) - 1;
    WithinDate(site, e, first);
    WithinDate(site, e, last);
    WithinDate(site, d, first);
    WithinDate(site, d, last);
    assert site.ModeAt(first) == Day && site.ModeAt(last) == Day;
  }

  lemma DarkThroughout(site: Site, d: int, until: int, e: int)
    requires site.local.MidnightsFirst() && Throughout(site, d, until, Night) && Between(site, d, e, until)
    ensures DarkUntil(site, e, until)
  {
    if site.sun(e).Some? {
      var u := Max(site.sun(e).value.sunrise, site.local.Midnight(e));
      WithinDate(site, e, u);
      WithinDate(site, d, u);
      assert u < Min(site.sun(e).value.sunset, site.MidnightAfter(e)) ==> site.ModeAt(u) == Day;
    }
  }

  lemma AgreesUntilNext(site: Site, t: int, u: int)
    requires site.local.MidnightsFirst() && OverhangsAgree(site) && t <= u < site.Reschedule(t)
    ensures site.ModeAt(u) == site.ModeAt(t)
  {
    var d := site.local.dateOf(t);
    WithinDate(site, d, t);
    WithinDate(site, d, u);
    assert OverhangAgrees(site, d);
    if site.MidnightAfter(d) <= u {
      var s := site.sun(d).value;
      if t < s.sunrise {
        NightAfterAt(site, d, s.sunrise, u);
      } else if t < s.sunset {
        DayAfterAt(site, d, s.sunset, u);
      } else {
        NightAfterAt(site, d, site.sun(d + 1).value.sunrise, u);
      }
    }
  }

  lemma Waits(site: Site, t: int, u: int)
    requires WaitingAgrees(site.Controller()) && t <= u < site.Reschedule(t)
    ensures site.ModeAt(u) == site.ModeAt(t)
  {
    assert u < site.Controller().next(t) && site.Controller().at(u) == site.ModeAt(u);
  }

  /** What is awaited at `t`, on date `d`, is so throughout. */
  lemma ThroughoutWait(site: Site, d: int, t: int)
    requires WaitingAgrees(site.Controller()) && t < site.MidnightAfter(d)
    ensures Throughout(site, d, site.Reschedule(t), site.ModeAt(t))
  {
    forall u | site.MidnightAfter(d) <= u < site.Reschedule(t)
      ensures site.ModeAt(u) == site.ModeAt(t)
    {
      Waits(site, t, u);
    }
  }

  lemma NightFollows(site: Site, d: int, t: int)
    requires site.local.MidnightsFirst() && WaitingAgrees(site.Controller())
    requires t < site.MidnightAfter(d) && site.ModeAt(t) == Night
    ensures NightAfter(site, d, site.Reschedule(t))
  {
    ThroughoutWait(site, d, t);
    forall e | Between(site, d, e, site.Reschedule(t))
      ensures DarkUntil(site, e, site.Reschedule(t))
    {
      DarkThroughout(site, d, site.Reschedule(t), e);
    }
  }

  lemma DayFollows(site: Site, d: int, t: int)
    requires site.local.MidnightsFirst() && WaitingAgrees(site.Controller())
    requires t < site.MidnightAfter(d) && site.ModeAt(t) == Day
    ensures DayAfter(site, d, site.Reschedule(t))
  {
    ThroughoutWait(site, d, t);
    forall e | Between(site, d, e, site.Reschedule(t))
      ensures LitUntil(site, e, site.Reschedule(t))
    {
      LitThroughout(site, d, site.Reschedule(t), e);
    }
  }

  lemma OverhangFollows(site: Site, d: int)
    requires site.local.MidnightsFirst() && WaitingAgrees(site.Controller())
    ensures OverhangAgrees(site, d)
  {
    if Happens(site, d) && site.sun(d).Some? {
      var s := site.sun(d).value;
      var first, up, last := site.local.Midnight(d), Max(site.local.Midnight(d), s.sunrise), site.MidnightAfter(d) - 1;
      WithinDate(site, d, first);
      WithinDate(site, d, up);
      WithinDate(site, d, last);
      if first < s.sunrise {
        NightFollows(site, d, first);
      }
      if up < Min(site.MidnightAfter(d), s.sunset) {
        DayFollows(site, d, up);
      }
      if EndsAfterBoth(site, d, s) {
        NightFollows(site, d, last);
      }
    }
  }

  /** While it waits, a restart never changes the mode exactly when what each date's sun announces beyond
      the date agrees with the suns of the dates it reaches. */
  lemma WaitingAgreesExactly(site: Site)
    requires site.local.MidnightsFirst()
    ensures WaitingAgrees(site.Controller()) <==> OverhangsAgree(site)
  {
    if OverhangsAgree(site) {
      forall t, u | t <= u < site.Reschedule(t)
        ensures site.ModeAt(u) == site.ModeAt(t)
      {
        AgreesUntilNext(site, t, u);
      }
    }
    if WaitingAgrees(site.Controller()) {
      forall d
        ensures OverhangAgrees(site, d)
      {
        OverhangFollows(site, d);
      }
    }
  }

  /** The exact condition, for any sun at all, from its sunrises and sunsets alone: every run moves on, and
      is at every instant in the mode of a restart, exactly when no date that outlasts its own sun awaits a
      sunrise before its end, and what each date's sun announces beyond the date agrees with the suns of
      the dates it reaches. */
  lemma RunsAgreeExactly(site: Site)
    requires site.local.MidnightsFirst()
    ensures (&& MovesOn(site.Controller().next)
             && forall began, now :: began <= now ==>
                  RunTo(site.Controller(), Started(site.Controller(), began), now).state == site.Controller().at(now))
            <==> (forall d :: AwaitsLaterSunrise(site, d)) && OverhangsAgree(site)
  {
    MovesOnExactly(site);
    WaitingAgreesExactly(site);
    if MovesOn(site.Controller().next) {
      StatesAgreeExactlyWhileWaiting(site.Controller());
    }
  }

  // ---- What a run wakes for ----

  /** The sun tells what comes after `t`: an event of today's, or tomorrow's sunrise. */
  predicate SunTells(site: Site, t: int) {
    && site.SunAt(t).Some?
    && (t < site.SunAt(t).value.sunrise || t < site.SunAt(t).value.sunset || site.sun(site.local.dateOf(t) + 1).Some?)
  }

  /** A retry, when no sun tells, is due at the first instant of a later local date, and the date does not
      change before it. */
  lemma RetryAtNextDate(site: Site, t: int, u: int)
    requires site.local.MidnightsFirst() && !SunTells(site, t)
    ensures site.local.dateOf(t) < site.local.dateOf(site.Reschedule(t))
    ensures t <= u < site.Reschedule(t) ==> site.local.dateOf(u) == site.local.dateOf(t)
  {
    var d := site.local.dateOf(t);
    WithinDate(site, d, t);
    WithinDate(site, d, u);
    WithinDate(site, d, site.Reschedule(t));
  }

  /** On a date without a sun a run fires at most once. */
  lemma PolarDateFiresOnce(site: Site, first: int, j: nat, k: nat)
    requires site.local.MidnightsFirst() && MovesOn(site.Controller().next) && j < k
    requires site.SunAt(Due(site.Controller(), first, j)).None?
    ensures site.local.dateOf(Due(site.Controller(), first, j)) < site.local.dateOf(Due(site.Controller(), first, k))
  {
    var p := site.Controller();
    var t := Due(p, first, j);
    RetryAtNextDate(site, t, t);
    assert Due(p, first, j + 1) == site.Reschedule(t);
    if j + 1 < k {
      IteratesInOrder(p.next, first, j + 1, k);
    }
    site.local.DatesInOrder(Due(p, first, j + 1), Due(p, first, k));
  }

  /** When the sun tells, what is awaited is a sunrise or a sunset, of today or of tomorrow. */
  lemma AwaitsSunEvent(site: Site, t: int)
    requires SunTells(site, t)
    ensures exists d :: site.local.dateOf(t) <= d <= site.local.dateOf(t) + 1 && site.sun(d).Some?
                     && site.Reschedule(t) in {site.sun(d).value.sunrise, site.sun(d).value.sunset}
  {
    var today := site.local.dateOf(t);
    if t < site.SunAt(t).value.sunrise || t < site.SunAt(t).value.sunset {
      assert site.sun(today).Some?;
    } else {
      assert site.sun(today + 1).Some?;
    }
  }

  /** Where the sun rises on its date and sets by midnight, a run wakes for nothing but a change of mode, a
      local midnight at which the mode may or may not change, being the one exception: up to the due instant
      the mode is constant, and there it changes or a new date begins. */
  lemma WakesForCause(site: Site, t: int)
    requires site.local.MidnightsFirst() && site.RisesOnItsDate() && site.SetsByMidnight()
    ensures var r := site.Reschedule(t);
            && t < r
            && (site.ModeAt(r) != site.ModeAt(r - 1) || site.local.dateOf(r - 1) < site.local.dateOf(r))
  {
    var r := site.Reschedule(t);
    site.RescheduleAhead(t);
    site.ConstantUntilEvent(t, r - 1);
    if SunTells(site, t) {
      SunEventCause(site, t);
    } else {
      RetryAtNextDate(site, t, r - 1);
    }
  }

  lemma SunEventCause(site: Site, t: int)
    requires site.local.MidnightsFirst() && site.RisesOnItsDate() && site.SetsByMidnight()
    requires SunTells(site, t) && t < site.Reschedule(t)
    requires site.ModeAt(site.Reschedule(t) - 1) == site.ModeAt(t)
    ensures var r := site.Reschedule(t);
            site.ModeAt(r) != site.ModeAt(t) || site.local.dateOf(r - 1) < site.local.dateOf(r)
  {
    var d, r := site.local.dateOf(t), site.Reschedule(t);
    var s := site.sun(d).value;
    WithinDate(site, d, t);
    WithinDate(site, d, r - 1);
    WithinDate(site, d, r);
    if t < s.sunrise {
      assert site.ModeAt(r) == Day && site.ModeAt(t) == Night;
    } else if t < s.sunset {
      assert site.ModeAt(t) == Day;
      assert site.local.dateOf(r) == d ==> site.ModeAt(r) == Night;
    } else {
      assert site.ModeAt(r) == Day && site.ModeAt(t) == Night;
    }
  }

  // ---- A sun that rises on its date ----

  /** No sunrise is at the very first instant of its date. */
  ghost predicate RisesAfterMidnight(site: Site) {
    forall d :: site.sun(d).Some? ==> site.local.dateOf(site.sun(d).value.sunrise - 1) == d
  }

  /** A sunset after the midnight that ends its date: at that midnight the waiting controller still says
      day, and a restart, looking at the new date, says night. */
  lemma LateSunsetDisagrees(site: Site, d: int)
    requires site.local.MidnightsFirst() && site.RisesOnItsDate() && RisesAfterMidnight(site)
    requires site.sun(d).Some? && site.MidnightAfter(d) < site.sun(d).value.sunset
    ensures var rise, midnight := site.sun(d).value.sunrise, site.MidnightAfter(d);
            && rise <= midnight < site.Reschedule(rise)
            && site.ModeAt(rise) == Day && site.ModeAt(midnight) == Night
  {
    var midnight := site.MidnightAfter(d);
    WithinDate(site, d, site.sun(d).value.sunrise);
    WithinDate(site, d, midnight);
    WithinDate(site, d, midnight - 1);
    NotUpAt(site, midnight);
  }

  /** Nothing is up at the first instant of a date. */
  lemma NotUpAt(site: Site, t: int)
    requires site.local.MidnightsFirst() && RisesAfterMidnight(site)
    requires site.local.dateOf(t - 1) < site.local.dateOf(t)
    ensures site.ModeAt(t) == Night
  {
    var e := site.local.dateOf(t);
    if site.sun(e).Some? {
      WithinDate(site, e, site.sun(e).value.sunrise - 1);
      WithinDate(site, e, t - 1);
      WithinDate(site, e, t);
    }
  }

  /** Where the sun rises strictly inside its local date, a restart agrees exactly when it never sets after
      the midnight that ends it. */
  lemma AgreesExactlyWhenSetByMidnight(site: Site)
    requires site.local.MidnightsFirst() && site.RisesOnItsDate() && RisesAfterMidnight(site)
    ensures WaitingAgrees(site.Controller()) <==> site.SetsByMidnight()
  {
    if site.SetsByMidnight() {
      site.PlanSound();
    } else {
      var d :| site.sun(d).Some? && site.MidnightAfter(d) < site.sun(d).value.sunset;
      LateSunsetDisagrees(site, d);
      var rise, midnight := site.sun(d).value.sunrise, site.MidnightAfter(d);
      assert site.Controller().at(midnight) != site.Controller().at(rise) && midnight < site.Controller().next(rise);
    }
  }

  /** Where the clocks go from 23:00 to midnight, as in Nuuk, midnight comes first all the same. */
  lemma NuukMidnightsFirst()
    ensures NUUK.Time().MidnightsFirst() && !NUUK.Orderly()
  {
    NuukSpills();
    NuukKeepsMidnights();
    MidnightsFirstExactly(NUUK);
  }

  lemma NuukKeepsMidnights()
    ensures NUUK.FoldsKeepDates() && NUUK.KeepsMidnights()
  {
    forall date
      ensures !NUUK.SkippedBy(date * DAY, 0)
    {
      NotSkipped(date);
    }
  }

  lemma NotSkipped(date: int)
    ensures !NUUK.SkippedBy(date * DAY, 0)
  {
    assert NUUK.Opens(0) == 10 * DAY - HOUR && NUUK.Closes(0) == 10 * DAY;
  }

  // ---- A sun far from its dates ----

  const UTC := Zone(0, [])

  /** Sydney's sun by UTC dates: it rises at 19:00 the date before and sets at 09:00. */
  const SYDNEY := Site(d => Some(Sun(d * DAY - 5 * HOUR, d * DAY + 9 * HOUR)), UTC.Time())

  lemma SydneyAt(t: int)
    ensures SYDNEY.local.dateOf(t) == DateOf(t) && SYDNEY.local.Midnight(t) == t * DAY
    ensures SYDNEY.MidnightAfter(t) == t * DAY + DAY
  {
  }

  lemma SydneyOverhangs(d: int)
    ensures OverhangAgrees(SYDNEY, d)
  {
    SydneyAt(d);
    forall e, until | Between(SYDNEY, d, e, until) && until <= d * DAY + 19 * HOUR
      ensures false
    {
      SydneyAt(e);
    }
  }

  lemma SydneyOn(d: int, time: TimeOfDay)
    ensures SYDNEY.local.dateOf(d * DAY + time) == d
  {
    SydneyAt(d * DAY + time);
    UTC.DateOfReading(d, time);
  }

  lemma SydneyNext(d: int, t: int)
    requires SYDNEY.local.dateOf(t) == d && d * DAY + 9 * HOUR <= t
    ensures SYDNEY.Reschedule(t) == d * DAY + 19 * HOUR && SYDNEY.ModeAt(t) == Night
  {
    assert SYDNEY.sun(d + 1) == Some(Sun(d * DAY + 19 * HOUR, d * DAY + 33 * HOUR));
  }

  lemma SydneyEvents(d: int)
    ensures var rise := d * DAY + 19 * HOUR;
            && SYDNEY.Reschedule(d * DAY + 9 * HOUR) == SYDNEY.Reschedule(rise) == rise
            && SYDNEY.ModeAt(rise) == Night && SYDNEY.ModeAt((d + 1) * DAY + HOUR) == Day
            && SYDNEY.local.dateOf(rise) == d
  {
    SydneyOn(d, 9 * HOUR);
    SydneyOn(d, 19 * HOUR);
    SydneyOn(d + 1, HOUR);
    SydneyNext(d, d * DAY + 9 * HOUR);
    SydneyNext(d, d * DAY + 19 * HOUR);
  }

  /** A controller in Sydney with no time zone configured, on a machine in UTC: waiting, a restart would
      agree with it, but every sunrise it fires for is the one it awaits next. Its job fires for that instant
      without end, and never gets to the day that begins there. */
  lemma SydneyNeverMovesOn(d: int, k: nat)
    ensures SYDNEY.local.MidnightsFirst() && OverhangsAgree(SYDNEY) && !MovesOn(SYDNEY.Controller().next)
    ensures var rise := d * DAY + 19 * HOUR;
            && SYDNEY.Reschedule(d * DAY + 9 * HOUR) == rise
            && Due(SYDNEY.Controller(), rise, k) == rise && SYDNEY.ModeAt(rise) == Night
            && SYDNEY.ModeAt((d + 1) * DAY + HOUR) == Day
  {
    MidnightsFirstExactly(UTC);
    SydneyEvents(d);
    StuckAtSunrise(SYDNEY, d, k);
    assert SYDNEY.Controller().next(d * DAY + 19 * HOUR) == d * DAY + 19 * HOUR;
    forall e
      ensures OverhangAgrees(SYDNEY, e)
    {
      SydneyOverhangs(e);
    }
  }
}
