/** The forecast, the weather settings, and the vocabulary the weather modules share. */
module Forecast {
  import opened Clock
  import opened Wrappers

  /** One forecast step. Its start is a whole number of seconds; any measurement may be missing. */
  datatype Point = Point(
    second: int,
    code: Option<int>,
    precipitation: Option<real>,
    snowfall: Option<real>,
    temperature: Option<real>,
    dewPoint: Option<real>,
    gusts: Option<real>,
    visibility: Option<real>)
  {
    function Time(): int { second * SECOND }

    predicate HasCode(codes: set<int>) { code.Some? && code.value in codes }
  }

  /** The clock and the steps of a forecast are at instants that can be represented. */
  ghost predicate AllRepresentable(points: seq<Point>, now: int) {
    Representable(now) && forall p :: p in points ==> Representable(p.Time())
  }

  datatype EventType = Thunderstorm | FreezingPrecip | FrostRisk | HeavyRain | StrongGusts | Snow | Fog {

    function Index(): nat {
      match this
      case Thunderstorm => 0
      case FreezingPrecip => 1
      case FrostRisk => 2
      case HeavyRain => 3
      case StrongGusts => 4
      case Snow => 5
      case Fog => 6
    }
  }

  const ALL: seq<EventType> := [Thunderstorm, FreezingPrecip, FrostRisk, HeavyRain, StrongGusts, Snow, Fog]

  datatype Severity = Warning | Severe {

    function Level(): nat { if Severe? then 2 else 1 }

    function Highest(other: Severity): Severity { if other.Severe? then Severe else this }
  }

  datatype Config = Config(
    overlayHorizonMinutes: int,
    notificationHorizonHours: int,
    notificationRepeatMinutes: int,
    inactiveAfterMissingPolls: int,
    dataStaleTtlMinutes: int,
    gustWarn: real,
    gustSevere: real,
    heavyRain: real,
    fogVisibilityWarn: real,
    fogVisibilitySevere: real,
    frostTemperature: real,
    frostDewPointDelta: real,
    frostWindowHours: real,
    frostPrecipitation: real,
    notify: EventType -> bool)

  const FOG_CODES: set<int> := {45, 48}
  const DRIZZLE_CODES: set<int> := {51, 53, 55}
  const FREEZING_CODES: set<int> := {56, 57, 66, 67}
  const RAIN_CODES: set<int> := {61, 63, 65, 80, 81}
  const SNOW_CODES: set<int> := {71, 73, 75, 77, 85, 86}
  const STORM_HEAVY_RAIN := 82
  const THUNDERSTORM := 95
  const THUNDERSTORM_HAIL_CODES: set<int> := {96, 99}

  lemma AllIsIndexed(t: EventType)
    ensures |ALL| == 7 && t.Index() < 7 && ALL[t.Index()] == t
  {
  }
}
