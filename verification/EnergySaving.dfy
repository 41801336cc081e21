/** The nightly energy-saving window. Each local date has a window of two resolved instants; the
    active state and the next boundary follow from those instants only. */
module EnergySaving {
  import opened BoundaryRun
  import opened Cells
  import opened Clock
  import opened Wrappers

  const MAX_WINDOW_SEARCH_DAYS := 8

  datatype Window = Window(start: MinuteOfDay, end: MinuteOfDay, local: LocalTime) {

    function EndDate(date: int): int { if end > start then date else date + 1 }

    function Opens(date: int): int { local.resolve(date, start) }

    function Closes(date: int): int { local.resolve(EndDate(date), end) }

    /** The window that opens on `date`, unless a gap empties it. */
    function ForDate(date: int): Option<(int, int)> {
      if Opens(date) < Closes(date) then Some((Opens(date), Closes(date))) else None
    }

    predicate Covers(date: int, t: int) {
      var w := ForDate(date);
      w.Some? && w.value.0 <= t < w.value.1
    }

    predicate IsActive(t: int) {
      var today := local.dateOf(t);
      Covers(today - 1, t) || Covers(today, t)
    }

    /** The window of `date` is not empty and not over at `now`. */
    predicate Pending(date: int, now: int) {
      ForDate(date).Some? && now < Closes(date)
    }

    /** The first boundary after `now` of a window that is pending. */
    function Boundary(date: int, now: int): int {
      if now < Opens(date) then Opens(date) else Closes(date)
    }

    /** The first of `days` dates from `date` on whose window is pending. */
    function FirstPending(date: int, now: int, days: nat): (found: Option<int>)
      ensures found.Some? ==> date <= found.value < date + days && Pending(found.value, now)
      ensures forall d :: date <= d < (if found.Some? then found.value else date + days) ==> !Pending(d, now)
      decreases days
    {
      if days == 0 then None
      else if Pending(date, now) then Some(date)
      else FirstPending(date + 1, now, days - 1)
    }

    function NextTransition(now: int): Option<int> {
      match FirstPending(local.dateOf(now) - 1, now, MAX_WINDOW_SEARCH_DAYS)
      case Some(date) => Some(Boundary(date, now))
      case None => None
    }

    /** The next boundary, or the next local midnight when none is found. */
    function Arm(after: int): int {
      match NextTransition(after)
      case Some(boundary) => boundary
      case None => local.NextMidnight(after)
    }

    function Controller(): Plan<bool> { Plan(t => IsActive(t), t => Arm(t)) }

    /** The walk over dates: a day at a time, up to the first pending window. */
    method Walk(first: int, now: int, days: nat) returns (r: Option<int>)
      ensures r == match FirstPending(first, now, days)
                   case Some(date) => Some(Boundary(date, now))
                   case None => None
    {
      var date := first;
      for i := 0 to days
        invariant date == first + i
        invariant forall d :: first <= d < date ==> !Pending(d, now)
      {
        var opens, closes := Opens(date), Closes(date);
        assert ForDate(date).Some? <==> opens < closes;
        if opens < closes {
          if opens > now {
            assert Pending(date, now);
            return Some(opens);
          }
          if closes > now {
            assert Pending(date, now);
            return Some(closes);
          }
        }
        date := date + 1;
      }
      return None;
    }

    // ---- Windows and local dates ----

    /** From a window's opening on, the local date has come; before it closes, its end date has not
        passed. */
    lemma WindowDates(date: int, t: int)
      requires local.Orderly()
      ensures Opens(date) <= t ==> date <= local.dateOf(t)
      ensures t < Closes(date) ==> local.dateOf(t) <= EndDate(date)
      ensures local.dateOf(t) < date ==> t < Opens(date) && t < Closes(date)
    {
    }

    /** In a zone that never changes, a window opens and closes at its own times of day, on the same
        date when it ends after it starts, and never lasts more than a day. */
    lemma UnchangedZone(zone: Zone, date: int)
      requires zone.changes == [] && local == zone.Time()
      ensures zone.Local(Opens(date)) == date * DAY + start
      ensures zone.Local(Closes(date)) % DAY == end
      ensures 0 < Closes(date) - Opens(date) <= DAY
    {
      assert zone.Local(Closes(date)) == EndDate(date) * DAY + end;
    }

    /** A window that covers `t` opened on `t`'s local date or the day before. */
    lemma CoversDates(date: int, t: int)
      requires local.Orderly() && Covers(date, t)
      ensures date <= local.dateOf(t) <= date + 1
    {
      WindowDates(date, t);
    }

    /** Looking at two dates is enough: the state is active exactly when the window of some date,
        however far, covers the instant. */
    lemma TwoDatesAreEnough(t: int)
      requires local.Orderly()
      ensures IsActive(t) <==> exists date :: Opens(date) <= t < Closes(date)
    {
      if date :| Opens(date) <= t < Closes(date) {
        CoversDates(date, t);
      }
    }

    /** A window that opened more than a day before `now`'s date is over. */
    lemma OldWindowsAreOver(date: int, now: int)
      requires local.Orderly() && date < local.dateOf(now) - 1
      ensures !Pending(date, now)
    {
      WindowDates(date, now);
    }

    lemma WindowsOpenInOrder(d: int, e: int)
      requires local.Orderly() && d < e
      ensures Opens(d) < Opens(e)
    {
    }

    // ---- The next transition ----

    /** No date before `date` has a pending window at `now`. */
    ghost predicate NonePendingBefore(date: int, now: int) {
      forall d :: d < date ==> !Pending(d, now)
    }

    lemma NoneBeforeSearch(now: int)
      requires local.Orderly()
      ensures var found := FirstPending(local.dateOf(now) - 1, now, MAX_WINDOW_SEARCH_DAYS);
              NonePendingBefore(if found.Some? then found.value else local.dateOf(now) + 7, now)
    {
      forall d | d < local.dateOf(now) - 1
        ensures !Pending(d, now)
      {
        OldWindowsAreOver(d, now);
      }
    }

    /** A transition found lies after `now`, is the opening or closing of a non-empty window, and
        up to it the state is constant: active when it is a closing, inactive when an opening. */
    lemma TransitionMeaning(now: int, t: int)
      requires local.Orderly() && NextTransition(now).Some?
      requires now <= t < NextTransition(now).value
      ensures exists date :: Opens(date) < Closes(date) && NextTransition(now).value in {Opens(date), Closes(date)}
      ensures IsActive(t) == IsActive(now)
    {
      var date := FirstPending(local.dateOf(now) - 1, now, MAX_WINDOW_SEARCH_DAYS).value;
      assert Opens(date) < Closes(date);
      NoneBeforeSearch(now);
      ActiveUntilBoundary(date, now, t);
      ActiveUntilBoundary(date, now, now);
    }

    lemma ActiveUntilBoundary(date: int, now: int, t: int)
      requires local.Orderly() && Pending(date, now) && NonePendingBefore(date, now)
      requires now <= t < Boundary(date, now)
      ensures IsActive(t) <==> Opens(date) <= now
    {
      TwoDatesAreEnough(t);
      if Opens(date) <= now {
        assert Covers(date, t);
      } else if d :| Covers(d, t) {
        assert Pending(d, now);
        if date < d {
          WindowsOpenInOrder(date, d);
        }
      }
    }

    /** The search fails exactly when the windows of the eight dates from yesterday on are all
        empty or over; those of the last six can only be empty. */
    lemma SearchFails(now: int)
      requires local.Orderly()
      ensures var today := local.dateOf(now);
              NextTransition(now).None? <==>
                && !Pending(today - 1, now)
                && !Pending(today, now)
                && forall d :: today < d <= today + 6 ==> Closes(d) <= Opens(d)
    {
      var today := local.dateOf(now);
      if NextTransition(now).Some? {
        var d := FirstPending(today - 1, now, MAX_WINDOW_SEARCH_DAYS).value;
        assert d == today - 1 || d == today || ForDate(d).Some?;
      } else {
        forall d | today < d <= today + 6
          ensures Closes(d) <= Opens(d)
        {
          AheadIsPending(d, now);
        }
      }
    }

    lemma AheadIsPending(date: int, now: int)
      requires local.Orderly() && local.dateOf(now) < date
      ensures Pending(date, now) <==> ForDate(date).Some?
    {
      WindowDates(date, now);
    }

    // ---- The plan is sound ----

    lemma ArmAhead(now: int)
      requires local.Orderly()
      ensures now < Arm(now)
    {
    }

    /** Whatever is pending later was pending before. */
    lemma PendingEarlier(date: int, now: int, t: int)
      requires now <= t && Pending(date, t)
      ensures Pending(date, now)
    {
    }

    lemma SearchFinds(date: int, now: int)
      requires local.dateOf(now) - 1 <= date <= local.dateOf(now) + 6
      requires Pending(date, now) && NonePendingBefore(date, now)
      ensures NextTransition(now) == Some(Boundary(date, now))
    {
    }

    lemma SearchFindsNone(now: int)
      requires NonePendingBefore(local.dateOf(now) + 7, now)
      ensures NextTransition(now) == None
    {
    }

    /** Nothing found: the state stays inactive until the next local midnight. */
    lemma QuietUntilMidnight(now: int, t: int)
      requires local.Orderly() && NextTransition(now).None?
      requires now <= t < local.NextMidnight(now)
      ensures !IsActive(t)
    {
      var today := local.dateOf(now);
      assert today <= local.dateOf(t) <= today + 1;
      forall d | today - 1 <= d <= today + 1
        ensures !Covers(d, t)
      {
        assert !Pending(d, now);
      }
    }

    /** In faithful local time nothing is found until midnight either. */
    lemma NothingUntilMidnight(now: int, t: int)
      requires local.Faithful() && NextTransition(now).None?
      requires now <= t < local.NextMidnight(now)
      ensures Arm(t) == Arm(now)
    {
      local.FaithfulIsOrderly();
      SameDateUntilMidnight(now, t);
      NoneBeforeSearch(now);
      forall d | d < local.dateOf(now) + 7
        ensures !Pending(d, t)
      {
        if Pending(d, t) {
          PendingEarlier(d, now, t);
        }
      }
      SearchFindsNone(t);
    }

    lemma SameDateUntilMidnight(now: int, t: int)
      requires local.Faithful() && now <= t < local.NextMidnight(now)
      ensures local.dateOf(t) == local.dateOf(now)
    {
    }

    /** The boundary waited for does not change while waiting. */
    lemma SameBoundary(now: int, t: int)
      requires local.Orderly() && NextTransition(now).Some?
      requires now <= t < NextTransition(now).value
      ensures NextTransition(t) == NextTransition(now)
    {
      var date := FirstPending(local.dateOf(now) - 1, now, MAX_WINDOW_SEARCH_DAYS).value;
      NoneBeforeSearch(now);
      WindowDates(date, t);
      forall d | d < date
        ensures !Pending(d, t)
      {
        if Pending(d, t) {
          PendingEarlier(d, now, t);
        }
      }
      SearchFinds(date, t);
    }

    lemma ArmMovesOn()
      requires local.Orderly()
      ensures MovesOn(Controller().next)
    {
      forall t
        ensures t < Arm(t)
      {
        ArmAhead(t);
      }
    }

    /** In orderly local time a restart agrees with the waiting controller in its state. */
    lemma Agrees()
      requires local.Orderly()
      ensures WaitingAgrees(Controller())
    {
      forall t, u | t <= u < Arm(t)
        ensures IsActive(u) == IsActive(t)
      {
        if NextTransition(t).Some? {
          TransitionMeaning(t, u);
        } else {
          QuietUntilMidnight(t, u);
          QuietUntilMidnight(t, t);
        }
      }
    }

    /** In faithful local time it agrees in the boundary waited for as well. */
    lemma PlanSound()
      requires local.Faithful()
      ensures Sound(Controller())
    {
      local.FaithfulIsOrderly();
      Agrees();
      forall t
        ensures t < Arm(t)
        ensures forall u :: t <= u < Arm(t) ==> IsActive(u) == IsActive(t) && Arm(u) == Arm(t)
      {
        ArmAhead(t);
        forall u | t <= u < Arm(t)
          ensures IsActive(u) == IsActive(t) && Arm(u) == Arm(t)
        {
          assert Controller().at(u) == Controller().at(t);
          if NextTransition(t).Some? {
            SameBoundary(t, u);
          } else {
            NothingUntilMidnight(t, u);
          }
        }
      }
    }
  }

  /** The headline claim: in a regular zone, a controller running continuously and one restarted at
      any later instant agree at that instant, in the state and in the boundary they wait for. */
  lemma ContinuousAgreesWithRestart(start: MinuteOfDay, end: MinuteOfDay, zone: Zone, began: int, now: int)
    requires zone.Regular() && began <= now
    ensures var w := Window(start, end, zone.Time());
            && Sound(w.Controller())
            && RunTo(w.Controller(), Started(w.Controller(), began), now) == Armed(w.IsActive(now), w.Arm(now))
  {
    var w := Window(start, end, zone.Time());
    zone.RegularIsExact();
    w.PlanSound();
    ContinuousEqualsRestarted(w.Controller(), began, now);
  }

  /** The controller object: its window and the state it stores. */
  class EnergySaving {
    const window: Window
    var active: bool

    constructor (window: Window)
      ensures this.window == window && !active
    {
      this.window := window;
      active := false;
    }

    method Start(now: int) returns (fireAt: int)
      modifies this
      ensures Armed(active, fireAt) == Started(window.Controller(), now)
    {
      active := window.IsActive(now);
      fireAt := Arm(now);
    }

    method Arm(after: int) returns (fireAt: int)
      ensures fireAt == window.Arm(after)
    {
      var found := window.Walk(window.local.dateOf(after) - 1, after, MAX_WINDOW_SEARCH_DAYS);
      fireAt := match found case Some(boundary) => boundary case None => window.local.NextMidnight(after);
    }

    /** Re-derives the state when `due` fires with the clock at `now`; the new state, if it changed. */
    method Update(due: int, now: int) returns (change: Option<bool>)
      modifies this
      ensures active == window.IsActive(Later(now, due))
      ensures change == if old(active) != active then Some(active) else None
    {
      var previous := active;
      active := window.IsActive(Later(now, due));
      change := if previous != active then Some(active) else None;
    }

    /** A started controller driven through one firing per clock reading, as its job drives it:
        update at the due instant, then arm from the due instant. */
    method Drive(now: int, clocks: seq<int>) returns (fireAt: int, reports: seq<bool>)
      modifies this
      ensures Armed(active, fireAt) == Run(window.Controller(), Started(window.Controller(), now), clocks)
      ensures reports == Reports(window.Controller(), Started(window.Controller(), now), clocks)
    {
      ghost var p := window.Controller();
      fireAt := Start(now);
      reports := [];
      for i := 0 to |clocks|
        invariant Armed(active, fireAt) == Run(p, Started(p, now), clocks[..i])
        invariant reports == Reports(p, Started(p, now), clocks[..i])
      {
        assert clocks[..i + 1][..i] == clocks[..i];
        var change := Update(fireAt, clocks[i]);
        if change.Some? {
          reports := reports + [change.value];
        }
        fireAt := Arm(fireAt);
      }
      assert clocks[..|clocks|] == clocks;
    }
  }
}
