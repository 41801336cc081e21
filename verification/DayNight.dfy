/** Day and night from sunrise and sunset, for an arbitrary sun, and the scheduled transitions
    between the two. */
module DayNight {
  import opened BoundaryRun
  import opened Clock
  import opened Wrappers

  datatype Mode = Day | Night

  /** Sunrise and sunset. */
  datatype Sun = Sun(sunrise: int, sunset: int)

  datatype Site = Site(sun: int -> Option<Sun>, local: LocalTime) {

    function SunAt(t: int): Option<Sun> { sun(local.dateOf(t)) }

    /** The mode derived at `t`: day only while today's sun is known and up. */
    function ModeAt(t: int): Mode {
      match SunAt(t)
      case Some(s) => if s.sunrise <= t < s.sunset then Day else Night
      case None => Night
    }

    function NextEventAfter(t: int, s: Sun): int {
      if t < s.sunrise then s.sunrise
      else if t < s.sunset then s.sunset
      else
        match sun(local.dateOf(t) + 1)
        case Some(tomorrow) => tomorrow.sunrise
        case None => local.NextMidnight(t)
    }

    function Reschedule(fired: int): int {
      match SunAt(fired)
      case Some(s) => NextEventAfter(fired, s)
      case None => local.NextMidnight(fired)
    }

    function Controller(): Plan<Mode> { Plan(t => ModeAt(t), t => Reschedule(t)) }

    /** Where the sun rises at all it rises on its local date, before it sets. */
    ghost predicate RisesOnItsDate() {
      forall d :: sun(d).Some? ==>
        sun(d).value.sunrise < sun(d).value.sunset && local.dateOf(sun(d).value.sunrise) == d
    }

    /** The midnight that ends local date `d`. */
    function MidnightAfter(d: int): int { local.Midnight(d + 1) }

    ghost predicate SetsByMidnight() {
      forall d :: sun(d).Some? ==> sun(d).value.sunset <= MidnightAfter(d)
    }

    lemma DateOrMidnight(t: int, u: int)
      requires local.MidnightsFirst() && t <= u
      ensures local.NextMidnight(t) == MidnightAfter(local.dateOf(t)) > t
      ensures u < local.NextMidnight(t) <==> local.dateOf(u) == local.dateOf(t)
    {
      local.DatesInOrder(t, u);
    }

    /** Between sunset and tomorrow's sunrise there is one midnight. */
    lemma BeforeTomorrowsRise(t: int, u: int)
      requires local.MidnightsFirst() && RisesOnItsDate() && sun(local.dateOf(t) + 1).Some?
      requires t <= u < sun(local.dateOf(t) + 1).value.sunrise
      ensures local.dateOf(u) == local.dateOf(t) || local.dateOf(u) == local.dateOf(t) + 1
    {
      local.DatesInOrder(t, u);
      local.DatesInOrder(u, sun(local.dateOf(t) + 1).value.sunrise);
    }

    lemma RescheduleAhead(t: int)
      requires local.MidnightsFirst() && RisesOnItsDate()
      ensures t < Reschedule(t)
    {
      DateOrMidnight(t, t);
    }

    lemma AroundSunrise(d: int)
      requires local.MidnightsFirst() && RisesOnItsDate() && SetsByMidnight() && sun(d).Some?
      ensures Reschedule(sun(d).value.sunrise - 1) == sun(d).value.sunrise
      ensures ModeAt(sun(d).value.sunrise) == Day
    {
    }

    lemma ConstantUntilEvent(t: int, u: int)
      requires local.MidnightsFirst() && RisesOnItsDate() && SetsByMidnight()
      requires t <= u < Reschedule(t)
      ensures ModeAt(u) == ModeAt(t) && Reschedule(u) == Reschedule(t)
    {
      var d := local.dateOf(t);
      DateOrMidnight(t, u);
      if SunAt(t).None? || t < SunAt(t).value.sunset {
        assert local.dateOf(u) == d;
      } else if sun(d + 1).Some? {
        BeforeTomorrowsRise(t, u);
      } else {
        assert local.dateOf(u) == d;
      }
    }

    lemma PlanSound()
      requires local.MidnightsFirst() && RisesOnItsDate() && SetsByMidnight()
      ensures Sound(Controller())
    {
      forall t
        ensures t < Reschedule(t)
        ensures forall u :: t <= u < Reschedule(t) ==> ModeAt(u) == ModeAt(t) && Reschedule(u) == Reschedule(t)
      {
        RescheduleAhead(t);
        forall u | t <= u < Reschedule(t)
          ensures ModeAt(u) == ModeAt(t) && Reschedule(u) == Reschedule(t)
        {
          ConstantUntilEvent(t, u);
        }
      }
    }
  }

  /** Day and night runs are exact, whatever the pattern of polar dates: at every instant of a run
      the mode is day exactly when the local date's sun is known and up, and the controller waits
      for what a restart would wait for. */
  lemma RunIsExact(site: Site, began: int, now: int)
    requires site.local.MidnightsFirst() && site.RisesOnItsDate() && site.SetsByMidnight() && began <= now
    ensures Sound(site.Controller())
    ensures RunTo(site.Controller(), Started(site.Controller(), began), now)
         == Armed(site.ModeAt(now), site.Reschedule(now))
  {
    site.PlanSound();
    ContinuousEqualsRestarted(site.Controller(), began, now);
  }

  /** No sunrise is missed: a controller waiting when the sun of some date rises fires then, at the
      latest, and then says day. */
  lemma NoSunriseMissed(site: Site, t: int, d: int)
    requires site.local.MidnightsFirst() && site.RisesOnItsDate() && site.SetsByMidnight()
    requires site.sun(d).Some? && t < site.sun(d).value.sunrise
    ensures site.Reschedule(t) <= site.sun(d).value.sunrise
    ensures site.ModeAt(site.sun(d).value.sunrise) == Day
  {
    site.AroundSunrise(d);
    if site.sun(d).value.sunrise < site.Reschedule(t) {
      site.ConstantUntilEvent(t, site.sun(d).value.sunrise - 1);
    }
  }

  /** The controller object: its site and the mode it stores. */
  class DayNight {
    const site: Site
    var mode: Mode

    constructor (site: Site)
      ensures this.site == site && mode == Night
    {
      this.site := site;
      mode := Night;
    }

    method Start(now: int) returns (fireAt: int)
      modifies this
      ensures Armed(mode, fireAt) == Started(site.Controller(), now)
    {
      match site.sun(site.local.dateOf(now))
      case Some(s) =>
        mode := if now < s.sunrise || now >= s.sunset then Night else Day;
        fireAt := site.NextEventAfter(now, s);
      case None =>
        mode := Night;
        fireAt := site.local.NextMidnight(now);
    }

    /** Re-derives the mode when `due` fires with the clock at `now`; the new mode, if it changed. */
    method Update(due: int, now: int) returns (change: Option<Mode>)
      modifies this
      ensures mode == site.ModeAt(Later(now, due))
      ensures change == if old(mode) != mode then Some(mode) else None
    {
      var previous := mode;
      mode := site.ModeAt(Later(now, due));
      change := if previous != mode then Some(mode) else None;
    }

    /** A started controller driven through one firing per clock reading. */
    method Drive(now: int, clocks: seq<int>) returns (fireAt: int, reports: seq<Mode>)
      modifies this
      ensures Armed(mode, fireAt) == Run(site.Controller(), Started(site.Controller(), now), clocks)
      ensures reports == Reports(site.Controller(), Started(site.Controller(), now), clocks)
    {
      ghost var p := site.Controller();
      fireAt := Start(now);
      reports := [];
      for i := 0 to |clocks|
        invariant Armed(mode, fireAt) == Run(p, Started(p, now), clocks[..i])
        invariant reports == Reports(p, Started(p, now), clocks[..i])
      {
        assert clocks[..i + 1][..i] == clocks[..i];
        var change := Update(fireAt, clocks[i]);
        if change.Some? {
          reports := reports + [change.value];
        }
        fireAt := site.Reschedule(fireAt);
      }
      assert clocks[..|clocks|] == clocks;
    }
  }
}
