/** What the events reported for a forecast say about its measurements. */
module EventMeanings {
  import opened Clock
  import opened Events
  import opened Forecast
  import opened Wrappers

  // ---- The horizon ----

  /** The step is now or later, and at most so many hours ahead; no horizon is before the first instant. */
  predicate WithinHours(p: Point, now: int, hours: int) {
    now <= p.second * 1_000_000_000 <= Max(now + hours * 3_600_000_000_000, MIN_INSTANT)
  }

  /** However large or small the configured hours, the saturating horizon is what they say. */
  lemma HorizonMeans(p: Point, now: int, config: Config)
    requires Representable(now) && Representable(p.Time())
    ensures now <= p.Time() <= Horizon(now, config) <==> WithinHours(p, now, config.notificationHorizonHours)
  {
  }

  // ---- Reports in terms of steps ----

  /** Some step in the horizon qualifies. */
  ghost predicate Ahead(points: seq<Point>, now: int, config: Config, qualifies: Point -> bool) {
    exists p :: p in points && WithinHours(p, now, config.notificationHorizonHours) && qualifies(p)
  }

  /** `start` is the second of the first step in the horizon that qualifies. */
  ghost predicate IsFirst(start: int, points: seq<Point>, now: int, config: Config, qualifies: Point -> bool) {
    var hours := config.notificationHorizonHours;
    && (exists p :: p in points && WithinHours(p, now, hours) && qualifies(p) && p.second == start)
    && (forall p :: p in points && WithinHours(p, now, hours) && qualifies(p) ==> start <= p.second)
  }

  /** The report of event type `t`: there is one exactly when some step in the horizon qualifies, and `t` is
      enabled; it is severe exactly when some step there is, and starts with the first that qualifies. */
  ghost predicate ReportedAs(t: EventType, points: seq<Point>, now: int, config: Config,
                             qualifies: Point -> bool, severe: Point -> bool)
  {
    && ((exists c :: c in Candidates(|ALL|, points, now, config) && c.eventType == t) <==>
        config.notify(t) && Ahead(points, now, config, qualifies))
    && (forall c :: c in Candidates(|ALL|, points, now, config) && c.eventType == t ==>
          && (c.severity == Severe <==> Ahead(points, now, config, severe))
          && IsFirst(c.start, points, now, config, qualifies))
  }

  /** How each step is graded. */
  ghost predicate Grades(t: EventType, points: seq<Point>, config: Config,
                         qualifies: Point -> bool, severe: Point -> bool)
  {
    forall p :: p in points ==> GradesStep(t, p, points, config, qualifies(p), severe(p))
  }

  predicate GradesStep(t: EventType, p: Point, points: seq<Point>, config: Config, qualifies: bool, severe: bool) {
    (Check(t, p, points, config).Some? <==> qualifies) && (Check(t, p, points, config) == Some(Severe) <==> severe)
  }

  lemma CountsAs(t: EventType, p: Point, points: seq<Point>, now: int, config: Config,
                 qualifies: Point -> bool, severe: Point -> bool)
    requires AllRepresentable(points, now) && Grades(t, points, config, qualifies, severe) && p in points
    ensures var within := WithinHours(p, now, config.notificationHorizonHours);
            && (Counts(t, p, points, now, config).Some? <==> within && qualifies(p))
            && (Counts(t, p, points, now, config) == Some(Severe) <==> within && severe(p))
  {
    HorizonMeans(p, now, config);
    assert GradesStep(t, p, points, config, qualifies(p), severe(p));
  }

  lemma DetectsAs(t: EventType, points: seq<Point>, now: int, config: Config,
                  qualifies: Point -> bool, severe: Point -> bool)
    requires AllRepresentable(points, now) && Grades(t, points, config, qualifies, severe)
    ensures var d := Detected(t, points, now, config);
            && (d.Some? <==> Ahead(points, now, config, qualifies))
            && (d.Some? ==> IsFirst(d.value.first, points, now, config, qualifies)
                            && (d.value.severity == Severe <==> Ahead(points, now, config, severe)))
  {
    forall p | p in points
      ensures Counts(t, p, points, now, config).Some? <==>
              WithinHours(p, now, config.notificationHorizonHours) && qualifies(p)
      ensures Counts(t, p, points, now, config) == Some(Severe) <==>
              WithinHours(p, now, config.notificationHorizonHours) && severe(p)
    {
      CountsAs(t, p, points, now, config, qualifies, severe);
    }
  }

  lemma ReportsAs(t: EventType, points: seq<Point>, now: int, config: Config,
                  qualifies: Point -> bool, severe: Point -> bool)
    requires AllRepresentable(points, now) && Grades(t, points, config, qualifies, severe)
    ensures ReportedAs(t, points, now, config, qualifies, severe)
  {
    var d := Detected(t, points, now, config);
    DetectsAs(t, points, now, config, qualifies, severe);
    forall c | c in Candidates(|ALL|, points, now, config) && c.eventType == t
      ensures config.notify(t) && d.Some? && c.start == d.value.first && c.severity == d.value.severity
    {
      CandidateReported(|ALL|, c, points, now, config);
    }
    if d.Some? {
      AllIsIndexed(t);
      CandidateReported(|ALL|, ToCandidate(t, d.value), points, now, config);
    }
  }

  // ---- Event by event ----

  predicate Measured(m: Option<real>, least: real) { m.Some? && m.value >= least }

  predicate MeasuredAbove(m: Option<real>, limit: real) { m.Some? && m.value > limit }

  predicate MeasuredBelow(m: Option<real>, limit: real) { m.Some? && m.value < limit }

  predicate AtMost(m: Option<real>, limit: real) { m.Some? && m.value <= limit }

  /** Thunder: codes 95, 96 and 99, severe with hail. */
  lemma ThunderstormMeans(points: seq<Point>, now: int, config: Config)
    requires AllRepresentable(points, now)
    ensures ReportedAs(Thunderstorm, points, now, config,
                       (p: Point) => p.code in {Some(95), Some(96), Some(99)},
                       (p: Point) => p.code in {Some(96), Some(99)})
  {
    ReportsAs(Thunderstorm, points, now, config,
              (p: Point) => p.code in {Some(95), Some(96), Some(99)}, (p: Point) => p.code in {Some(96), Some(99)});
  }

  predicate Freezing(p: Point) { p.code in {Some(56), Some(57), Some(66), Some(67)} }

  /** Freezing precipitation: codes 56, 57, 66 and 67, always severe. */
  lemma FreezingPrecipMeans(points: seq<Point>, now: int, config: Config)
    requires AllRepresentable(points, now)
    ensures ReportedAs(FreezingPrecip, points, now, config, (p: Point) => Freezing(p), (p: Point) => Freezing(p))
  {
    ReportsAs(FreezingPrecip, points, now, config, (p: Point) => Freezing(p), (p: Point) => Freezing(p));
  }

  /** Precipitation that freezes: a freezing code, or at least 0.1 mm at 0.5 degrees at most. */
  predicate SevereFrost(p: Point) { Freezing(p) || (AtMost(p.temperature, 0.5) && Measured(p.precipitation, 0.1)) }

  /** Cold and moist enough for frost, with enough precipitation from then to the end of the window. */
  predicate FrostPossible(p: Point, points: seq<Point>, config: Config) {
    && AtMost(p.temperature, config.frostTemperature)
    && p.dewPoint.Some? && p.temperature.value - p.dewPoint.value <= config.frostDewPointDelta
    && exists i :: 0 <= i < |points| && WetBy(p, points[i], config)
  }

  predicate WetBy(p: Point, q: Point, config: Config) {
    && p.second <= q.second && q.second as real <= p.second as real + config.frostWindowHours * 3600.0
    && Measured(q.precipitation, config.frostPrecipitation)
  }

  lemma FrostGrades(p: Point, points: seq<Point>, config: Config)
    ensures GradesStep(FrostRisk, p, points, config, SevereFrost(p) || FrostPossible(p, points, config), SevereFrost(p))
  {
    assert forall q :: WetStep(p, q, config) <==> WetBy(p, q, config);
  }

  lemma FrostRiskMeans(points: seq<Point>, now: int, config: Config)
    requires AllRepresentable(points, now)
    ensures ReportedAs(FrostRisk, points, now, config,
                       (p: Point) => SevereFrost(p) || FrostPossible(p, points, config), (p: Point) => SevereFrost(p))
  {
    forall p
      ensures GradesStep(FrostRisk, p, points, config,
                         SevereFrost(p) || FrostPossible(p, points, config), SevereFrost(p))
    {
      FrostGrades(p, points, config);
    }
    ReportsAs(FrostRisk, points, now, config,
              (p: Point) => SevereFrost(p) || FrostPossible(p, points, config), (p: Point) => SevereFrost(p));
  }

  /** Heavy rain: code 82, which is severe, or more precipitation than the limit. */
  lemma HeavyRainMeans(points: seq<Point>, now: int, config: Config)
    requires AllRepresentable(points, now)
    ensures ReportedAs(HeavyRain, points, now, config,
                       (p: Point) => p.code == Some(82) || MeasuredAbove(p.precipitation, config.heavyRain),
                       (p: Point) => p.code == Some(82))
  {
    ReportsAs(HeavyRain, points, now, config,
              (p: Point) => p.code == Some(82) || MeasuredAbove(p.precipitation, config.heavyRain),
              (p: Point) => p.code == Some(82));
  }

  predicate Gusty(p: Point, config: Config) {
    MeasuredAbove(p.gusts, config.gustWarn) || MeasuredAbove(p.gusts, config.gustSevere)
  }

  /** Strong gusts: above either limit, severe above the severe one. */
  lemma StrongGustsMeans(points: seq<Point>, now: int, config: Config)
    requires AllRepresentable(points, now)
    ensures ReportedAs(StrongGusts, points, now, config,
                       (p: Point) => Gusty(p, config), (p: Point) => MeasuredAbove(p.gusts, config.gustSevere))
  {
    ReportsAs(StrongGusts, points, now, config,
              (p: Point) => Gusty(p, config), (p: Point) => MeasuredAbove(p.gusts, config.gustSevere));
  }

  predicate Snows(p: Point) { p.code in {Some(71), Some(73), Some(75), Some(77), Some(85), Some(86)} }

  /** Snow: its codes, severe with more than half a centimetre. */
  lemma SnowMeans(points: seq<Point>, now: int, config: Config)
    requires AllRepresentable(points, now)
    ensures ReportedAs(Snow, points, now, config,
                       (p: Point) => Snows(p), (p: Point) => Snows(p) && MeasuredAbove(p.snowfall, 0.5))
  {
    ReportsAs(Snow, points, now, config,
              (p: Point) => Snows(p), (p: Point) => Snows(p) && MeasuredAbove(p.snowfall, 0.5));
  }

  predicate Foggy(p: Point) { p.code in {Some(45), Some(48)} }

  predicate LittleSight(p: Point, config: Config) {
    || p.visibility.None?
    || MeasuredBelow(p.visibility, config.fogVisibilityWarn)
    || MeasuredBelow(p.visibility, config.fogVisibilitySevere)
  }

  /** Fog: its codes with too little sight or no measure of it, severe with too little for the severe limit. */
  lemma FogMeans(points: seq<Point>, now: int, config: Config)
    requires AllRepresentable(points, now)
    ensures ReportedAs(Fog, points, now, config,
                       (p: Point) => Foggy(p) && LittleSight(p, config),
                       (p: Point) => Foggy(p) && MeasuredBelow(p.visibility, config.fogVisibilitySevere))
  {
    ReportsAs(Fog, points, now, config,
              (p: Point) => Foggy(p) && LittleSight(p, config),
              (p: Point) => Foggy(p) && MeasuredBelow(p.visibility, config.fogVisibilitySevere));
  }
}
