/** Weather codes to overlays, and the overlay of a forecast. */
module Mapping {
  import opened Clock
  import opened Forecast
  import opened Wrappers

  datatype Overlay = Clear | Other(name: string) | Drizzle | Rain | Snow | Storm | Frost | Thunder

  function CodeOverlay(code: int): Option<Overlay> {
    if code in DRIZZLE_CODES then Some(Drizzle)
    else if code in FREEZING_CODES then Some(Frost)
    else if code in RAIN_CODES then Some(Rain)
    else if code in SNOW_CODES then Some(Overlay.Snow)
    else if code == STORM_HEAVY_RAIN then Some(Storm)
    else if code == THUNDERSTORM || code in THUNDERSTORM_HAIL_CODES then Some(Thunder)
    else None
  }

  function Priority(overlay: Option<Overlay>): nat {
    match overlay
    case None => 0
    case Some(Clear) => 0
    case Some(Other(_)) => 0
    case Some(Drizzle) => 1
    case Some(Rain) => 2
    case Some(Snow) => 3
    case Some(Storm) => 4
    case Some(Frost) => 5
    case Some(Thunder) => 6
  }

  function OverlayHorizon(now: int, minutes: int): int { After(now, Saturating(minutes * 60)) }

  /** The overlay of a step inside the half-open window, if it has one. */
  function PointOverlay(p: Point, now: int, minutes: int): Option<Overlay> {
    if now <= p.Time() < OverlayHorizon(now, minutes) && p.code.Some? then CodeOverlay(p.code.value) else None
  }

  /** The fold over the steps: a later overlay wins only when its priority is higher. */
  function SelectOverlay(points: seq<Point>, now: int, minutes: int): Option<Overlay> {
    if points == [] then None
    else
      var best := SelectOverlay(points[..|points| - 1], now, minutes);
      var candidate := PointOverlay(points[|points| - 1], now, minutes);
      if candidate.Some? && Priority(candidate) > Priority(best) then candidate else best
  }

  /** `o` is the overlay of some step in the window and no step there has a stronger one; absent
      when no step there has one. */
  ghost predicate IsStrongest(o: Option<Overlay>, points: seq<Point>, now: int, minutes: int) {
    && (o.Some? ==> exists p :: p in points && PointOverlay(p, now, minutes) == o)
    && (forall p :: p in points ==> Priority(PointOverlay(p, now, minutes)) <= Priority(o))
  }

  lemma CodePriority(p: Point, now: int, minutes: int)
    ensures PointOverlay(p, now, minutes).Some? <==> Priority(PointOverlay(p, now, minutes)) > 0
  {
  }

  lemma {:induction false} SelectedIsStrongest(points: seq<Point>, now: int, minutes: int)
    ensures IsStrongest(SelectOverlay(points, now, minutes), points, now, minutes)
  {
    if points != [] {
      var front, last := points[..|points| - 1], points[|points| - 1];
      SelectedIsStrongest(front, now, minutes);
      assert points == front + [last];
      CodePriority(last, now, minutes);
    }
  }

  /** There is only one strongest overlay, so neither the order of the steps nor their repetition
      matters: forecasts with the same steps select the same overlay. */
  lemma SelectionIgnoresOrder(a: seq<Point>, b: seq<Point>, now: int, minutes: int)
    requires forall p :: p in a <==> p in b
    ensures SelectOverlay(a, now, minutes) == SelectOverlay(b, now, minutes)
  {
    SelectedIsStrongest(a, now, minutes);
    SelectedIsStrongest(b, now, minutes);
    var o, q := SelectOverlay(a, now, minutes), SelectOverlay(b, now, minutes);
    if o.Some? {
      var p :| p in a && PointOverlay(p, now, minutes) == o;
      assert p in b;
      CodePriority(p, now, minutes);
    }
    if q.Some? {
      var p :| p in b && PointOverlay(p, now, minutes) == q;
      assert p in a;
      CodePriority(p, now, minutes);
    }
    assert Priority(o) == Priority(q);
  }

  // ---- The selection in terms of codes ----

  /** The step is now or later, and less than so many minutes ahead. */
  predicate WithinMinutes(p: Point, now: int, minutes: int) {
    now <= p.second * 1_000_000_000 < now + minutes * 60_000_000_000
  }

  /** However large or small the configured minutes, the saturating horizon is what they say: the last
      representable instant is not a whole second, so no step is cut off by it. */
  lemma WindowMeans(p: Point, now: int, minutes: int)
    requires Representable(now) && Representable(p.Time())
    ensures now <= p.Time() < OverlayHorizon(now, minutes) <==> WithinMinutes(p, now, minutes)
  {
    assert p.Time() % SECOND == 0 && MAX_INSTANT % SECOND != 0;
  }

  /** The weather codes of each overlay. */
  function CodesOf(overlay: Overlay): set<int> {
    match overlay
    case Thunder => {95, 96, 99}
    case Frost => {56, 57, 66, 67}
    case Storm => {82}
    case Snow => {71, 73, 75, 77, 85, 86}
    case Rain => {61, 63, 65, 80, 81}
    case Drizzle => {51, 53, 55}
    case _ => {}
  }

  /** Some step in the window has a code of the overlay. */
  ghost predicate Ahead(overlay: Overlay, points: seq<Point>, now: int, minutes: int) {
    exists p :: p in points && CausesAt(overlay, p, now, minutes)
  }

  predicate CausesAt(overlay: Overlay, p: Point, now: int, minutes: int) {
    WithinMinutes(p, now, minutes) && p.HasCode(CodesOf(overlay))
  }

  lemma StepOverlay(overlay: Overlay, p: Point, now: int, minutes: int)
    requires Representable(now) && Representable(p.Time())
    ensures PointOverlay(p, now, minutes) == Some(overlay) <==> CausesAt(overlay, p, now, minutes)
  {
    WindowMeans(p, now, minutes);
  }

  /** The overlay selected is the first of thunder, frost, storm, snow, rain and drizzle that has a step with
      one of its codes in the window. */
  lemma SelectedByCodes(points: seq<Point>, now: int, minutes: int)
    requires AllRepresentable(points, now)
    ensures SelectOverlay(points, now, minutes) ==
            if Ahead(Thunder, points, now, minutes) then Some(Thunder)
            else if Ahead(Frost, points, now, minutes) then Some(Frost)
            else if Ahead(Storm, points, now, minutes) then Some(Storm)
            else if Ahead(Overlay.Snow, points, now, minutes) then Some(Overlay.Snow)
            else if Ahead(Rain, points, now, minutes) then Some(Rain)
            else if Ahead(Drizzle, points, now, minutes) then Some(Drizzle)
            else None
  {
    var o := SelectOverlay(points, now, minutes);
    SelectedIsStrongest(points, now, minutes);
    forall q: Overlay, p | p in points
      ensures PointOverlay(p, now, minutes) == Some(q) <==> CausesAt(q, p, now, minutes)
    {
      StepOverlay(q, p, now, minutes);
    }
    forall q: Overlay | Ahead(q, points, now, minutes)
      ensures Priority(Some(q)) <= Priority(o)
    {
      var p :| p in points && CausesAt(q, p, now, minutes);
    }
    if o.Some? {
      var p :| p in points && PointOverlay(p, now, minutes) == o;
      assert CausesAt(o.value, p, now, minutes);
      assert Ahead(o.value, points, now, minutes);
    }
  }
}
