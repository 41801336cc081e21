/** Severe-weather events in a forecast: for each event type the first step that qualifies within
    the notification horizon, and the highest severity there. */
module Events {
  import opened Clock
  import opened Digits
  import opened Forecast
  import opened Wrappers
  import Mapping

  const SNOWFALL_HEAVY := 0.5
  const FREEZING_PRECIP_TEMPERATURE := 0.5
  const FROST_SEVERE_PRECIPITATION := 0.1
  const FINGERPRINT_ROUNDING_SECONDS := 30 * 60

  datatype Detection = Detection(first: int, severity: Severity)

  datatype Candidate = Candidate(eventType: EventType, start: int, severity: Severity, fingerprint: string)

  // ---- The checks of one step ----

  function ThunderstormCheck(p: Point): Option<Severity> {
    if p.HasCode({THUNDERSTORM}) then Some(Warning)
    else if p.HasCode(THUNDERSTORM_HAIL_CODES) then Some(Severe)
    else None
  }

  function FreezingPrecipCheck(p: Point): Option<Severity> {
    if p.HasCode(FREEZING_CODES) then Some(Severe) else None
  }

  /** Some step from `origin` to the end of the frost window has enough precipitation. */
  predicate WetSoon(origin: Point, points: seq<Point>, config: Config) {
    exists i :: 0 <= i < |points| && WetStep(origin, points[i], config)
  }

  predicate WetStep(origin: Point, p: Point, config: Config) {
    && origin.second <= p.second
    && (p.second - origin.second) as real <= config.frostWindowHours * 3600.0
    && p.precipitation.Some? && p.precipitation.value >= config.frostPrecipitation
  }

  function FrostRiskCheck(p: Point, points: seq<Point>, config: Config): Option<Severity> {
    var freezing := p.temperature.Some? && p.precipitation.Some?
      && p.temperature.value <= FREEZING_PRECIP_TEMPERATURE && p.precipitation.value >= FROST_SEVERE_PRECIPITATION;
    if p.HasCode(FREEZING_CODES) || freezing then Some(Severe)
    else if p.temperature.None? || p.dewPoint.None? then None
    else
      var possible := p.temperature.value <= config.frostTemperature
        && p.temperature.value - p.dewPoint.value <= config.frostDewPointDelta;
      if possible && WetSoon(p, points, config) then Some(Warning) else None
  }

  function HeavyRainCheck(p: Point, config: Config): Option<Severity> {
    if p.HasCode({STORM_HEAVY_RAIN}) then Some(Severe)
    else if p.precipitation.Some? && p.precipitation.value > config.heavyRain then Some(Warning)
    else None
  }

  function StrongGustsCheck(p: Point, config: Config): Option<Severity> {
    if p.gusts.None? then None
    else if p.gusts.value > config.gustSevere then Some(Severe)
    else if p.gusts.value > config.gustWarn then Some(Warning)
    else None
  }

  function SnowCheck(p: Point): Option<Severity> {
    if !p.HasCode(SNOW_CODES) then None
    else if p.snowfall.Some? && p.snowfall.value > SNOWFALL_HEAVY then Some(Severe)
    else Some(Warning)
  }

  function FogCheck(p: Point, config: Config): Option<Severity> {
    if !p.HasCode(FOG_CODES) then None
    else if p.visibility.None? then Some(Warning)
    else if p.visibility.value < config.fogVisibilitySevere then Some(Severe)
    else if p.visibility.value < config.fogVisibilityWarn then Some(Warning)
    else None
  }

  function Check(t: EventType, p: Point, points: seq<Point>, config: Config): Option<Severity> {
    match t
    case Thunderstorm => ThunderstormCheck(p)
    case FreezingPrecip => FreezingPrecipCheck(p)
    case FrostRisk => FrostRiskCheck(p, points, config)
    case HeavyRain => HeavyRainCheck(p, config)
    case StrongGusts => StrongGustsCheck(p, config)
    case Snow => SnowCheck(p)
    case Fog => FogCheck(p, config)
  }

  // ---- What a detection means ----

  function Horizon(now: int, config: Config): int {
    After(now, Saturating(config.notificationHorizonHours * 3600))
  }

  /** The severity with which a step counts for `t`: inside the closed horizon, and qualifying when
      seen against the whole forecast. */
  function Counts(t: EventType, p: Point, points: seq<Point>, now: int, config: Config): Option<Severity> {
    if now <= p.Time() <= Horizon(now, config) then Check(t, p, points, config) else None
  }

  /** Among the steps `seen`, `d` has the earliest start and the highest severity that count for
      `t`, and is absent when none counts. */
  ghost predicate IsDetection(t: EventType, d: Option<Detection>, seen: seq<Point>, points: seq<Point>,
                              now: int, config: Config)
  {
    match d
    case None => forall p :: p in seen ==> Counts(t, p, points, now, config).None?
    case Some(d) =>
      && (exists p :: p in seen && Counts(t, p, points, now, config).Some? && p.second == d.first)
      && (exists p :: p in seen && Counts(t, p, points, now, config) == Some(d.severity))
      && (forall p :: p in seen && Counts(t, p, points, now, config).Some? ==>
            d.first <= p.second && Counts(t, p, points, now, config).value.Level() <= d.severity.Level())
  }

  lemma DetectionUnique(t: EventType, d: Option<Detection>, e: Option<Detection>, seen: seq<Point>, points: seq<Point>,
                        now: int, config: Config)
    requires IsDetection(t, d, seen, points, now, config) && IsDetection(t, e, seen, points, now, config)
    ensures d == e
  {
  }

  /** Keeps the earlier start and the higher severity. */
  function Record(slot: Option<Detection>, second: int, found: Option<Severity>): Option<Detection> {
    match (slot, found)
    case (_, None) => slot
    case (None, Some(severity)) => Some(Detection(second, severity))
    case (Some(d), Some(severity)) => Some(Detection(Min(d.first, second), d.severity.Highest(severity)))
  }

  lemma RecordExtends(t: EventType, slot: Option<Detection>, seen: seq<Point>, p: Point, points: seq<Point>,
                      now: int, config: Config)
    requires IsDetection(t, slot, seen, points, now, config)
    ensures IsDetection(t, Record(slot, p.second, Counts(t, p, points, now, config)), seen + [p], points, now, config)
  {
    var found := Counts(t, p, points, now, config);
    assert p in seen + [p];
    assert forall q :: q in seen + [p] ==> q in seen || q == p;
    assert forall q :: q in seen ==> q in seen + [p];
  }

  /** The detection of type `t` in a forecast. */
  function Detect(t: EventType, seen: seq<Point>, points: seq<Point>, now: int, config: Config): (d: Option<Detection>)
    ensures IsDetection(t, d, seen, points, now, config)
  {
    if seen == [] then None
    else
      var front, last := seen[..|seen| - 1], seen[|seen| - 1];
      assert seen == front + [last];
      var slot := Detect(t, front, points, now, config);
      RecordExtends(t, slot, front, last, points, now, config);
      Record(slot, last.second, Counts(t, last, points, now, config))
  }

  function Detected(t: EventType, points: seq<Point>, now: int, config: Config): (d: Option<Detection>)
    ensures IsDetection(t, d, points, points, now, config)
  {
    Detect(t, points, points, now, config)
  }

  // ---- Candidates ----

  /** The half hour that a second falls in, before 1970 as well. */
  function Bucket(second: int): (b: int)
    ensures b % FINGERPRINT_ROUNDING_SECONDS == 0 && b <= second < b + FINGERPRINT_ROUNDING_SECONDS
  {
    second / FINGERPRINT_ROUNDING_SECONDS * FINGERPRINT_ROUNDING_SECONDS
  }

  function Fingerprint(t: EventType, start: int, severity: Severity): string {
    [DigitChar(t.Index())] + ":" + Decimal(Bucket(start)) + ":" + [DigitChar(severity.Level())]
  }

  function ToCandidate(t: EventType, d: Detection): Candidate {
    Candidate(t, d.first, d.severity, Fingerprint(t, d.first, d.severity))
  }

  /** What a forecast reports for `t`: its detection, when `t` is enabled. */
  function Reported(t: EventType, points: seq<Point>, now: int, config: Config): seq<Candidate> {
    var d := Detected(t, points, now, config);
    if config.notify(t) && d.Some? then [ToCandidate(t, d.value)] else []
  }

  /** The candidates of the first `n` event types, in order. */
  function Candidates(n: nat, points: seq<Point>, now: int, config: Config): seq<Candidate>
    requires n <= |ALL|
  {
    if n == 0 then [] else Candidates(n - 1, points, now, config) + Reported(ALL[n - 1], points, now, config)
  }

  // ---- The loop over the steps ----

  /** Every slot holds its type's detection over the steps `seen`. */
  ghost predicate Holds(slots: seq<Option<Detection>>, seen: seq<Point>, points: seq<Point>, now: int, config: Config)
    requires |slots| == |ALL|
  {
    forall t: EventType :: IsDetection(t, slots[t.Index()], seen, points, now, config)
  }

  method RecordEvent(slots: array<Option<Detection>>, t: EventType, second: int, found: Option<Severity>)
    requires slots.Length == |ALL|
    modifies slots
    ensures slots[t.Index()] == Record(old(slots[t.Index()]), second, found)
    ensures forall u: EventType :: u != t ==> slots[u.Index()] == old(slots[u.Index()])
  {
    if found.Some? {
      slots[t.Index()] := match slots[t.Index()]
        case None => Some(Detection(second, found.value))
        case Some(d) => Some(Detection(Min(d.first, second), d.severity.Highest(found.value)));
    }
  }

  /** Checks one step inside the horizon for every event type. */
  method CheckPoint(p: Point, points: seq<Point>, config: Config, slots: array<Option<Detection>>)
    requires slots.Length == |ALL|
    modifies slots
    ensures forall t: EventType ::
              slots[t.Index()] == Record(old(slots[t.Index()]), p.second, Check(t, p, points, config))
  {
    RecordEvent(slots, Thunderstorm, p.second, ThunderstormCheck(p));
    RecordEvent(slots, FreezingPrecip, p.second, FreezingPrecipCheck(p));
    RecordEvent(slots, FrostRisk, p.second, FrostRiskCheck(p, points, config));
    RecordEvent(slots, HeavyRain, p.second, HeavyRainCheck(p, config));
    RecordEvent(slots, StrongGusts, p.second, StrongGustsCheck(p, config));
    RecordEvent(slots, Snow, p.second, SnowCheck(p));
    RecordEvent(slots, Fog, p.second, FogCheck(p, config));
  }

  /** The loop over the steps. */
  method Scan(points: seq<Point>, now: int, config: Config) returns (slots: array<Option<Detection>>)
    ensures slots.Length == |ALL| && Holds(slots[..], points, points, now, config)
  {
    slots := new Option<Detection>[7](_ => None);
    for i := 0 to |points|
      invariant slots.Length == |ALL|
      invariant Holds(slots[..], points[..i], points, now, config)
    {
      ghost var before := slots[..];
      var p := points[i];
      if now <= p.Time() <= Horizon(now, config) {
        CheckPoint(p, points, config, slots);
      }
      HoldsExtended(before, slots[..], points, i, now, config);
    }
    assert points[..|points|] == points;
  }

  lemma HoldsExtended(before: seq<Option<Detection>>, slots: seq<Option<Detection>>, points: seq<Point>, i: nat,
                      now: int, config: Config)
    requires i < |points| && |before| == |slots| == |ALL|
    requires Holds(before, points[..i], points, now, config)
    requires forall t: EventType ::
               slots[t.Index()]
               == Record(before[t.Index()], points[i].second, Counts(t, points[i], points, now, config))
    ensures Holds(slots, points[..i + 1], points, now, config)
  {
    assert points[..i + 1] == points[..i] + [points[i]];
    forall t: EventType
      ensures IsDetection(t, slots[t.Index()], points[..i + 1], points, now, config)
    {
      RecordExtends(t, before[t.Index()], points[..i], points[i], points, now, config);
    }
  }

  lemma SlotsAreDetections(slots: seq<Option<Detection>>, points: seq<Point>, now: int, config: Config)
    requires |slots| == |ALL| && Holds(slots, points, points, now, config)
    ensures forall i :: 0 <= i < |ALL| ==> SlotReports(i, slots, points, now, config)
  {
    forall i: nat | i < |ALL|
      ensures SlotReports(i, slots, points, now, config)
    {
      IndexOfAll(i);
      var t := ALL[i];
      DetectionUnique(t, slots[t.Index()], Detected(t, points, now, config), points, points, now, config);
    }
  }

  /** The candidates of the first `n` slots. */
  function Collected(n: nat, slots: seq<Option<Detection>>, config: Config): seq<Candidate>
    requires n <= |ALL| == |slots|
  {
    if n == 0 then []
    else
      var t := ALL[n - 1];
      Collected(n - 1, slots, config)
      + if config.notify(t) && slots[n - 1].Some? then [ToCandidate(t, slots[n - 1].value)] else []
  }

  /** Slot `i` holds what a forecast reports for event type `i`. */
  ghost predicate SlotReports(i: nat, slots: seq<Option<Detection>>, points: seq<Point>, now: int, config: Config)
    requires i < |ALL| == |slots|
  {
    slots[i] == Detected(ALL[i], points, now, config)
  }

  lemma {:induction false} CollectedAreReported(n: nat, slots: seq<Option<Detection>>, points: seq<Point>,
                                                now: int, config: Config)
    requires n <= |ALL| == |slots|
    requires forall i :: 0 <= i < |ALL| ==> SlotReports(i, slots, points, now, config)
    ensures Collected(n, slots, config) == Candidates(n, points, now, config)
  {
    if n > 0 {
      CollectedAreReported(n - 1, slots, points, now, config);
      assert SlotReports(n - 1, slots, points, now, config);
    }
  }

  method Collect(slots: seq<Option<Detection>>, config: Config) returns (candidates: seq<Candidate>)
    requires |slots| == |ALL|
    ensures candidates == Collected(|ALL|, slots, config)
  {
    candidates := [];
    for i := 0 to |ALL|
      invariant candidates == Collected(i, slots, config)
    {
      var t := ALL[i];
      IndexOfAll(i);
      if config.notify(t) && slots[t.Index()].Some? {
        candidates := candidates + [ToCandidate(t, slots[t.Index()].value)];
      }
    }
  }

  method DetectEvents(points: seq<Point>, now: int, config: Config) returns (candidates: seq<Candidate>)
    ensures candidates == Candidates(|ALL|, points, now, config)
    ensures InTypeOrder(candidates)
  {
    ReportedInTypeOrder(|ALL|, points, now, config);
    var slots := Scan(points, now, config);
    SlotsAreDetections(slots[..], points, now, config);
    candidates := Collect(slots[..], config);
    CollectedAreReported(|ALL|, slots[..], points, now, config);
  }

  // ---- Order does not matter, and more steps report more ----

  ghost predicate SamePoints(a: seq<Point>, b: seq<Point>) { forall p :: p in a <==> p in b }

  lemma WetSoonMore(origin: Point, a: seq<Point>, b: seq<Point>, config: Config)
    requires forall p :: p in a ==> p in b
    ensures WetSoon(origin, a, config) ==> WetSoon(origin, b, config)
  {
    if i :| 0 <= i < |a| && WetStep(origin, a[i], config) {
      assert a[i] in b;
      var j :| 0 <= j < |b| && b[j] == a[i];
    }
  }

  /** A step that counts in a forecast counts, as severely, in a longer one, although the frost
      check looks at other steps. */
  lemma CountsMore(t: EventType, p: Point, a: seq<Point>, b: seq<Point>, now: int, config: Config)
    requires forall q :: q in a ==> q in b
    ensures Counts(t, p, a, now, config).Some? ==> Counts(t, p, b, now, config) == Counts(t, p, a, now, config)
  {
    WetSoonMore(p, a, b, config);
  }

  /** Adding steps to a forecast never drops an event, delays its start or lowers its severity. */
  lemma MorePointsReportMore(t: EventType, a: seq<Point>, b: seq<Point>, now: int, config: Config)
    requires forall p :: p in a ==> p in b
    ensures var d, e := Detected(t, a, now, config), Detected(t, b, now, config);
            d.Some? ==>
              e.Some? && e.value.first <= d.value.first && e.value.severity.Level() >= d.value.severity.Level()
  {
    var d, e := Detected(t, a, now, config), Detected(t, b, now, config);
    if d.Some? {
      var p :| p in a && Counts(t, p, a, now, config).Some? && p.second == d.value.first;
      var q :| q in a && Counts(t, q, a, now, config) == Some(d.value.severity);
      CountsMore(t, p, a, b, now, config);
      CountsMore(t, q, a, b, now, config);
      assert p in b && q in b;
    }
  }

  /** Forecasts with the same steps, in any order and however often repeated, report the same. */
  lemma {:induction false} ReportIgnoresOrder(n: nat, a: seq<Point>, b: seq<Point>, now: int, config: Config)
    requires SamePoints(a, b) && n <= |ALL|
    ensures Candidates(n, a, now, config) == Candidates(n, b, now, config)
  {
    if n > 0 {
      ReportIgnoresOrder(n - 1, a, b, now, config);
      var t := ALL[n - 1];
      MorePointsReportMore(t, a, b, now, config);
      MorePointsReportMore(t, b, a, now, config);
    }
  }

  /** A forecast with freezing precipitation is a severe frost risk too, starting no later. */
  lemma FreezingIsFrost(points: seq<Point>, now: int, config: Config)
    ensures var d, f := Detected(FreezingPrecip, points, now, config), Detected(FrostRisk, points, now, config);
            d.Some? ==>
              d.value.severity == Severe && f.Some? && f.value.severity == Severe && f.value.first <= d.value.first
  {
    var d := Detected(FreezingPrecip, points, now, config);
    if d.Some? {
      var p :| p in points && Counts(FreezingPrecip, p, points, now, config).Some? && p.second == d.value.first;
      assert Counts(FrostRisk, p, points, now, config) == Some(Severe);
    }
  }

  // ---- Membership and order ----

  /** Candidates of event types in strictly ascending order, so of each at most once. */
  ghost predicate InTypeOrder(candidates: seq<Candidate>) {
    forall i, k :: Ascend(candidates, i, k)
  }

  predicate Ascend(candidates: seq<Candidate>, i: int, k: int) {
    0 <= i < k < |candidates| ==> candidates[i].eventType.Index() < candidates[k].eventType.Index()
  }

  lemma AppendInTypeOrder(candidates: seq<Candidate>, c: Candidate)
    requires InTypeOrder(candidates)
    requires forall d :: d in candidates ==> d.eventType.Index() < c.eventType.Index()
    ensures InTypeOrder(candidates + [c])
  {
    forall i, k
      ensures Ascend(candidates + [c], i, k)
    {
      assert Ascend(candidates, i, k);
      assert 0 <= i < |candidates| ==> candidates[i] in candidates;
    }
  }

  lemma AppendReported(earlier: seq<Candidate>, last: seq<Candidate>, t: EventType)
    requires InTypeOrder(earlier) && forall c :: c in earlier ==> c.eventType.Index() < t.Index()
    requires last == [] || (|last| == 1 && last[0].eventType == t)
    ensures InTypeOrder(earlier + last)
  {
    if last == [] {
      assert earlier + last == earlier;
    } else {
      AppendInTypeOrder(earlier, last[0]);
      assert last == [last[0]];
    }
  }

  /** Candidates are reported once, in the order of event types. */
  lemma {:induction false} ReportedInTypeOrder(n: nat, points: seq<Point>, now: int, config: Config)
    requires n <= |ALL|
    ensures InTypeOrder(Candidates(n, points, now, config))
  {
    if n > 0 {
      var t := ALL[n - 1];
      ReportedInTypeOrder(n - 1, points, now, config);
      EarlierTypes(n - 1, points, now, config);
      IndexOfAll(n - 1);
      OneReported(t, points, now, config);
      AppendReported(Candidates(n - 1, points, now, config), Reported(t, points, now, config), t);
    }
  }

  lemma OneReported(t: EventType, points: seq<Point>, now: int, config: Config)
    ensures var r := Reported(t, points, now, config); r == [] || (|r| == 1 && r[0].eventType == t)
  {
  }

  lemma EarlierTypes(n: nat, points: seq<Point>, now: int, config: Config)
    requires n <= |ALL|
    ensures forall c :: c in Candidates(n, points, now, config) ==> c.eventType.Index() < n
  {
    forall c | c in Candidates(n, points, now, config)
      ensures c.eventType.Index() < n
    {
      CandidateReported(n, c, points, now, config);
    }
  }

  /** A candidate is reported exactly when its type is enabled and its detection is the forecast's. */
  lemma {:induction false} CandidateReported(n: nat, c: Candidate, points: seq<Point>, now: int, config: Config)
    requires n <= |ALL|
    ensures c in Candidates(n, points, now, config) <==>
            && c.eventType.Index() < n
            && config.notify(c.eventType)
            && Detected(c.eventType, points, now, config).Some?
            && c == ToCandidate(c.eventType, Detected(c.eventType, points, now, config).value)
  {
    if n > 0 {
      CandidateReported(n - 1, c, points, now, config);
      ReportedLast(ALL[n - 1], c, points, now, config);
      IndexAgainst(n - 1, c.eventType);
    }
  }

  lemma ReportedLast(t: EventType, c: Candidate, points: seq<Point>, now: int, config: Config)
    ensures c in Reported(t, points, now, config) <==>
            && c.eventType == t && config.notify(t) && Detected(t, points, now, config).Some?
            && c == ToCandidate(t, Detected(t, points, now, config).value)
  {
  }

  lemma IndexAgainst(i: nat, t: EventType)
    requires i < |ALL|
    ensures ALL[i] == t <==> t.Index() == i
  {
    IndexOfAll(i);
    AllIsIndexed(t);
  }

  lemma IndexOfAll(i: nat)
    requires i < |ALL|
    ensures ALL[i].Index() == i
  {
  }

  // ---- Fingerprints ----

  /** Fingerprints are equal exactly when type, 30-minute bucket and severity are, for starts before
      1970 as well. */
  lemma FingerprintInjective(t: EventType, s: int, v: Severity, u: EventType, r: int, w: Severity)
    ensures Fingerprint(t, s, v) == Fingerprint(u, r, w) <==> t == u && Bucket(s) == Bucket(r) && v == w
  {
    var f, g := Fingerprint(t, s, v), Fingerprint(u, r, w);
    if f == g {
      FingerprintParts(t, s, v);
      FingerprintParts(u, r, w);
      assert DigitValue(f[0]) == t.Index() && DigitValue(g[0]) == u.Index();
      assert DigitValue(f[|f| - 1]) == v.Level() && DigitValue(g[|g| - 1]) == w.Level();
      DecimalInjective(Bucket(s), Bucket(r));
    }
  }

  lemma FingerprintParts(t: EventType, s: int, v: Severity)
    ensures var f := Fingerprint(t, s, v);
            |f| > 4 && f[0] == DigitChar(t.Index()) && f[|f| - 1] == DigitChar(v.Level())
            && f[2..|f| - 2] == Decimal(Bucket(s))
  {
    Joined(DigitChar(t.Index()), Decimal(Bucket(s)), DigitChar(v.Level()));
  }

  lemma Joined(a: char, middle: string, b: char)
    requires middle != []
    ensures var f := [a] + ":" + middle + ":" + [b];
            |f| > 4 && f[0] == a && f[|f| - 1] == b && f[2..|f| - 2] == middle
  {
  }

  /** Three fingerprints as they are written: the type, the half hour in seconds, the severity. */
  lemma FingerprintText()
    ensures Fingerprint(Snow, 0, Warning) == "5:0:1"
    ensures Fingerprint(Thunderstorm, 5400, Warning) == "0:5400:1"
    ensures Fingerprint(Fog, -1, Severe) == "6:-1800:2"
  {
    Decimal5400();
    DecimalMinus1800();
    Written(Thunderstorm, 5400, Warning, 5400, "5400");
    Written(Fog, -1, Severe, -1800, "-1800");
  }

  lemma Decimal5400()
    ensures Decimal(5400) == "5400"
  {
    FourDigits(5, 4, 54, 540, 5400, 10);
  }

  lemma DecimalMinus1800()
    ensures Decimal(-1800) == "-1800"
  {
    FourDigits(1, 8, 18, 180, 1800, 10);
  }

  lemma FourDigits(a: nat, b: nat, tens: nat, hundreds: nat, thousands: nat, base: Base)
    requires 0 < a < base && b < base
    requires tens == a * base + b && hundreds == tens * base + 0 && thousands == hundreds * base + 0
    ensures Print(thousands, base) == [DigitChar(a), DigitChar(b), '0', '0']
  {
    PrintAppends(a, b, base);
    PrintAppends(tens, 0, base);
    PrintAppends(hundreds, 0, base);
  }

  lemma Written(t: EventType, start: int, severity: Severity, bucket: int, text: string)
    requires Bucket(start) == bucket && Decimal(bucket) == text
    ensures Fingerprint(t, start, severity) == [DigitChar(t.Index())] + ":" + text + ":" + [DigitChar(severity.Level())]
  {
  }

  // ---- The overlay and the warnings agree ----

  /** The event behind an overlay that has one. */
  function EventBehind(o: Mapping.Overlay): Option<EventType> {
    match o
    case Thunder => Some(Thunderstorm)
    case Frost => Some(FreezingPrecip)
    case Storm => Some(HeavyRain)
    case Snow => Some(EventType.Snow)
    case _ => None
  }

  lemma OverlayStepCounts(t: EventType, p: Point, points: seq<Point>, now: int, config: Config)
    requires config.overlayHorizonMinutes * 60 <= config.notificationHorizonHours * 3600
    requires var o := Mapping.PointOverlay(p, now, config.overlayHorizonMinutes);
             o.Some? && EventBehind(o.value) == Some(t)
    ensures Counts(t, p, points, now, config).Some?
  {
  }

  /** The display cannot show thunder, frost, storm or snow without the matching warning: when the
      overlay horizon fits in the notification horizon, some step causes the overlay shown, and the
      matching event, if enabled, is reported no later than any step that does. */
  lemma OverlayHasWarning(points: seq<Point>, now: int, config: Config, t: EventType)
    requires config.overlayHorizonMinutes * 60 <= config.notificationHorizonHours * 3600
    requires var o := Mapping.SelectOverlay(points, now, config.overlayHorizonMinutes);
             o.Some? && EventBehind(o.value) == Some(t)
    requires config.notify(t)
    ensures var o := Mapping.SelectOverlay(points, now, config.overlayHorizonMinutes);
            && (exists p :: p in points && Mapping.PointOverlay(p, now, config.overlayHorizonMinutes) == o)
            && exists c :: c in Candidates(|ALL|, points, now, config) && c.eventType == t
                 && forall p :: p in points && Mapping.PointOverlay(p, now, config.overlayHorizonMinutes) == o ==>
                      c.start <= p.second
  {
    var o := Mapping.SelectOverlay(points, now, config.overlayHorizonMinutes);
    Mapping.SelectedIsStrongest(points, now, config.overlayHorizonMinutes);
    forall p | p in points && Mapping.PointOverlay(p, now, config.overlayHorizonMinutes) == o
      ensures Counts(t, p, points, now, config).Some?
    {
      OverlayStepCounts(t, p, points, now, config);
    }
    var d := Detected(t, points, now, config);
    var p :| p in points && Mapping.PointOverlay(p, now, config.overlayHorizonMinutes) == o;
    assert d.Some?;
    CandidateReported(|ALL|, ToCandidate(t, d.value), points, now, config);
    AllIsIndexed(t);
  }
}
