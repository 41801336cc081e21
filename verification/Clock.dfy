/** Local time: a zone as an ordered list of offset changes, and the one conversion from a local
    date and wall-clock time to an instant. Instants and wall-clock readings are integer
    nanoseconds; a date is a day number. */
module Clock {
  const SECOND := 1_000_000_000
  const MINUTE := 60 * SECOND
  const HOUR := 60 * MINUTE
  const DAY := 24 * HOUR

  /** The instants that can be represented, and the widest whole seconds of a duration. */
  const MIN_INSTANT := -377_705_023_201 * SECOND
  const MAX_INSTANT := 253_402_207_201 * SECOND - 1
  const MAX_SECONDS := 0x7FFF_FFFF_FFFF_FFFF

  /** The units, and the first and last instants, in nanoseconds. */
  lemma Units()
    ensures SECOND == 1_000_000_000 && MINUTE == 60_000_000_000
    ensures HOUR == 3_600_000_000_000 && DAY == 86_400_000_000_000
    ensures MIN_INSTANT == -377_705_023_201_000_000_000 && MAX_INSTANT == 253_402_207_200_999_999_999
    ensures MAX_SECONDS == 9_223_372_036_854_775_807
  {
  }

  predicate Representable(t: int) { MIN_INSTANT <= t <= MAX_INSTANT }

  /** A whole number of seconds that saturates instead of overflowing. */
  function Saturating(seconds: int): int { Max(-MAX_SECONDS - 1, Min(seconds, MAX_SECONDS)) }

  /** The instant that many seconds after `t`, saturating at the ends of the range. */
  function After(t: int, seconds: int): int { Max(MIN_INSTANT, Min(t + seconds * SECOND, MAX_INSTANT)) }

  /** A time of day, as the distance from midnight. */
  type TimeOfDay = t: int | 0 <= t < DAY

  /** A time of day as configured, in hours and minutes. */
  type MinuteOfDay = t: TimeOfDay | t % MINUTE == 0

  /** From the instant `at` on, local time is the instant plus `offset`. */
  datatype Change = Change(at: int, offset: int)

  /** How a wall-clock reading relates to a zone: it happens once, never, or twice. */
  datatype Ambiguity =
    | Unambiguous(offset: int)
    | Gap(before: int, after: int)
    | Fold(before: int, after: int)

  function Min(a: int, b: int): int { if a <= b then a else b }

  function Max(a: int, b: int): int { if a <= b then b else a }

  function DateOf(wall: int): int { wall / DAY }

  /** What a controller uses of a zone: the local date of an instant, and the instant of a local date
      and time. */
  datatype LocalTime = LocalTime(dateOf: int -> int, resolve: (int, TimeOfDay) -> int) {

    /** Dates never go back, a time is resolved to an instant on its own date, and midnight is the
        first instant of its date. */
    ghost predicate Faithful() {
      && (forall t, u :: t <= u ==> dateOf(t) <= dateOf(u))
      && (forall date, time :: dateOf(resolve(date, time)) == date)
      && (forall date, t :: resolve(date, 0) <= t <==> date <= dateOf(t))
    }

    /** The midnight that begins `date`. */
    function Midnight(date: int): int { resolve(date, 0) }

    /** The start of the local day after `t`. */
    function NextMidnight(t: int): int { Midnight(dateOf(t) + 1) }

    /** What day and night need: midnight is the first instant of its date, so dates never go back. */
    ghost predicate MidnightsFirst() {
      forall date, t :: Midnight(date) <= t <==> date <= dateOf(t)
    }

    lemma DatesInOrder(t: int, u: int)
      requires MidnightsFirst() && t <= u
      ensures dateOf(t) <= dateOf(u)
    {
      assert Midnight(dateOf(t)) <= t;
    }

    /** The next midnight is the first instant of a later date, and the date does not change before it. */
    lemma NextMidnightIsNext(t: int, u: int)
      requires MidnightsFirst()
      ensures t < NextMidnight(t) && dateOf(t) < dateOf(NextMidnight(t))
      ensures t <= u < NextMidnight(t) ==> dateOf(u) == dateOf(t)
    {
      if t <= u {
        DatesInOrder(t, u);
      }
      assert Midnight(dateOf(t) + 1) <= NextMidnight(t);
    }

    /** What windows and calendars need: dates never go back, a configured time on a date is resolved no
        earlier than that date starts and no later than the next one does, and one no earlier in the
        day, on a later date, is resolved later. */
    ghost predicate Orderly() {
      && (forall t, u :: t <= u ==> dateOf(t) <= dateOf(u))
      && (forall date, time: MinuteOfDay, t :: resolve(date, time) <= t ==> date <= dateOf(t))
      && (forall date, time: MinuteOfDay, t :: t < resolve(date, time) ==> dateOf(t) <= date)
      && (forall d, e, s: MinuteOfDay, t: MinuteOfDay :: d < e && s <= t ==> resolve(d, s) < resolve(e, t))
    }

    lemma FaithfulIsOrderly()
      requires Faithful()
      ensures Orderly() && MidnightsFirst()
    {
    }
  }

  datatype Zone = Zone(initial: int, changes: seq<Change>) {

    /** The offset in force just before change `i`; for `i == |changes|`, the last one. */
    function Before(i: nat): int
      requires i <= |changes|
    {
      if i == 0 then initial else changes[i - 1].offset
    }

    /** The wall-clock readings that change `i` skips or repeats are those in
        `[Opens(i), Closes(i))`. */
    function Opens(i: nat): int
      requires i < |changes|
    {
      changes[i].at + Min(Before(i), changes[i].offset)
    }

    function Closes(i: nat): int
      requires i < |changes|
    {
      changes[i].at + Max(Before(i), changes[i].offset)
    }

    function Jump(i: nat): nat
      requires i < |changes|
    {
      Closes(i) - Opens(i)
    }

    /** Change `i` is at least as far from the one before it as the two jumps together. */
    predicate Apart(i: nat)
      requires 0 < i < |changes|
    {
      changes[i].at - changes[i - 1].at >= Jump(i - 1) + Jump(i)
    }

    /** Changes are in order and at least as far apart as the jumps they make. */
    ghost predicate WellSpaced() {
      && (forall i, k :: 0 <= i < k < |changes| ==> changes[i].at < changes[k].at)
      && (forall i :: 0 < i < |changes| ==> Apart(i))
    }

    /** A fold lies inside one date, and so does a gap together with the equally long stretch its
        readings are shifted onto. */
    predicate KeepsDate(i: nat)
      requires i < |changes|
    {
      if changes[i].offset < Before(i) then
        DateOf(Opens(i)) == DateOf(Closes(i) - 1)
      else if Before(i) < changes[i].offset then
        DateOf(Opens(i)) == DateOf(Closes(i) + Jump(i) - 1)
      else
        true
    }

    /** Change `i` moves the clocks back across a midnight. */
    predicate FoldCrosses(i: nat)
      requires i < |changes|
    {
      changes[i].offset < Before(i) && !KeepsDate(i)
    }

    /** No fold takes local time back to an earlier date. */
    ghost predicate FoldsKeepDates() {
      forall i :: 0 <= i < |changes| ==> !FoldCrosses(i)
    }

    /** Change `i` skips `wall` and moves it past the instant at which the clocks, gone forward, show
        `shown`. */
    predicate MovesPast(i: nat, wall: int, shown: int)
      requires i < |changes|
    {
      SkippedBy(wall, i) && Closes(i) <= shown < wall + Jump(i)
    }

    /** Change `i` moves a whole-minute reading of some date past an instant of a later date. */
    ghost predicate GapSpills(i: nat)
      requires i < |changes|
    {
      exists wall, shown :: Spills(i, wall, shown)
    }

    predicate Spills(i: nat, wall: int, shown: int)
      requires i < |changes|
    {
      wall % MINUTE == 0 && MovesPast(i, wall, shown) && DateOf(wall) < DateOf(shown)
    }

    /** No gap opens before a midnight that it skips. */
    ghost predicate KeepsMidnights() {
      forall i, date :: 0 <= i < |changes| && SkippedBy(date * DAY, i) ==> Opens(i) == date * DAY
    }

    /** No fold crosses midnight, and no gap moves a whole-minute reading past the start of a later
        date. */
    ghost predicate Orderly() {
      && WellSpaced()
      && FoldsKeepDates()
      && forall i :: 0 <= i < |changes| ==> !GapSpills(i)
    }

    ghost predicate Regular() {
      && WellSpaced()
      && forall i :: 0 <= i < |changes| ==> KeepsDate(i)
    }

    /** How many of the first `n` changes have happened at `t`. */
    function Happened(t: int, n: nat): (i: nat)
      requires n <= |changes|
      ensures i <= n
      ensures i == 0 || changes[i - 1].at <= t
      ensures forall k :: i <= k < n ==> t < changes[k].at
    {
      if n == 0 || changes[n - 1].at <= t then n else Happened(t, n - 1)
    }

    function Segment(t: int): (i: nat)
      ensures i <= |changes|
    {
      Happened(t, |changes|)
    }

    /** The wall-clock reading at instant `t`. */
    function Local(t: int): int { t + Before(Segment(t)) }

    function LocalDate(t: int): int { DateOf(Local(t)) }

    /** The first change from `i` on whose skipped or repeated readings are not all before `wall`. */
    function FirstOpen(wall: int, i: nat): (j: nat)
      requires i <= |changes|
      ensures i <= j <= |changes|
      ensures forall k :: i <= k < j ==> Closes(k) <= wall
      ensures j < |changes| ==> wall < Closes(j)
      decreases |changes| - i
    {
      if i == |changes| || wall < Closes(i) then i else FirstOpen(wall, i + 1)
    }

    function ToAmbiguous(wall: int): Ambiguity {
      var i := FirstOpen(wall, 0);
      if i == |changes| || wall < Opens(i) then
        Unambiguous(Before(i))
      else if changes[i].offset < Before(i) then
        Fold(Before(i), changes[i].offset)
      else
        Gap(Before(i), changes[i].offset)
    }

    /** The earlier instant in a fold; in a gap, the reading shifted forward by the gap. Both come
        from taking `wall` with the offset before the change. */
    function Compatible(wall: int): int {
      match ToAmbiguous(wall)
      case Unambiguous(offset) => wall - offset
      case Gap(before, _) => wall - before
      case Fold(before, _) => wall - before
    }

    function ResolveLocal(date: int, time: TimeOfDay): int { Compatible(date * DAY + time) }

    function Time(): LocalTime {
      LocalTime(t => LocalDate(t), (date: int, time: TimeOfDay) => ResolveLocal(date, time))
    }

    // ---- The shape of a well-spaced zone ----

    lemma SegmentIs(t: int, i: nat)
      requires WellSpaced() && i <= |changes|
      requires i == 0 || changes[i - 1].at <= t
      requires i == |changes| || t < changes[i].at
      ensures Segment(t) == i
    {
    }

    lemma {:induction false} ChangesApart(i: nat, k: nat)
      requires WellSpaced() && i < k < |changes|
      ensures Closes(i) <= Opens(k)
      decreases k - i
    {
      if k > i + 1 {
        ChangesApart(i, k - 1);
      }
      assert Apart(k);
    }

    // ---- Resolution ----

    /** Change `i` moves the clocks forward over the reading `wall`. */
    predicate SkippedBy(wall: int, i: int) {
      0 <= i < |changes| && Before(i) < changes[i].offset && Opens(i) <= wall < Closes(i)
    }

    /** Resolution against the readings themselves: a reading that happens is resolved to the first
        instant that shows it; one that never happens is skipped by some change, and is resolved to
        an instant that shows it moved forward by exactly that gap. */
    lemma ResolveMeaning(wall: int)
      requires WellSpaced()
      ensures if exists t :: Local(t) == wall then
                && Local(Compatible(wall)) == wall
                && forall t :: Local(t) == wall ==> Compatible(wall) <= t
              else
                exists i :: SkippedBy(wall, i) && Local(Compatible(wall)) == wall + Jump(i)
    {
      if t :| Local(t) == wall {
        forall u | Local(u) == wall
          ensures Local(Compatible(wall)) == wall && Compatible(wall) <= u
        {
          ResolveHappens(wall, u);
        }
      } else {
        ResolveSkipped(wall);
      }
    }

    lemma ResolveHappens(wall: int, t: int)
      requires WellSpaced() && Local(t) == wall
      ensures Local(Compatible(wall)) == wall && Compatible(wall) <= t
    {
      ResolveCount(wall, t);
      Shown(wall);
    }

    lemma ResolveSkipped(wall: int)
      requires WellSpaced() && forall t :: Local(t) != wall
      ensures exists i :: SkippedBy(wall, i) && Local(Compatible(wall)) == wall + Jump(i)
    {
      Shown(wall);
      assert Local(Compatible(wall)) != wall && SkippedBy(wall, FirstOpen(wall, 0));
    }

    /** In a fold the reading happens exactly twice; outside folds and gaps, exactly once. */
    lemma ResolveCount(wall: int, t: int)
      requires WellSpaced()
      ensures match ToAmbiguous(wall)
              case Unambiguous(_) => Local(t) == wall <==> t == Compatible(wall)
              case Fold(before, after) =>
                && before > after
                && (Local(t) == wall <==> t == Compatible(wall) || t == Compatible(wall) + (before - after))
              case Gap(before, after) => before < after && Local(t) != wall
    {
      Shown(wall);
      if Local(t) == wall {
        Preimage(t);
      }
      if ToAmbiguous(wall).Fold? {
        ShownAgain(wall);
      }
    }

    /** In a fold the reading is shown once more, with the offset after the change. */
    lemma ShownAgain(wall: int)
      requires WellSpaced() && ToAmbiguous(wall).Fold?
      ensures Local(wall - ToAmbiguous(wall).after) == wall
    {
      var j := FirstOpen(wall, 0);
      if j + 1 < |changes| {
        assert Apart(j + 1);
      }
      SegmentIs(wall - changes[j].offset, j + 1);
    }

    /** What the instant chosen for `wall` shows. */
    lemma Shown(wall: int)
      requires WellSpaced()
      ensures var i := FirstOpen(wall, 0);
              var r := wall - Before(i);
              if ToAmbiguous(wall).Gap? then Segment(r) == i + 1 && Local(r) == wall + Jump(i)
              else Segment(r) == i && Local(r) == wall
    {
      var i := FirstOpen(wall, 0);
      if ToAmbiguous(wall).Gap? {
        ShownInGap(wall, i);
      } else {
        assert i == 0 || Closes(i - 1) <= wall;
        SegmentIs(wall - Before(i), i);
      }
    }

    lemma ShownInGap(wall: int, i: nat)
      requires WellSpaced() && SkippedBy(wall, i)
      ensures Segment(wall - Before(i)) == i + 1 && Local(wall - Before(i)) == wall + Jump(i)
    {
      if i + 1 < |changes| {
        assert Apart(i + 1);
      }
      SegmentIs(wall - Before(i), i + 1);
    }

    /** An instant that shows `wall` is the one chosen or, in a fold, the later of the two. */
    lemma Preimage(t: int)
      requires WellSpaced()
      ensures var wall := Local(t);
              var i := FirstOpen(wall, 0);
              || (t == wall - Before(i) && !ToAmbiguous(wall).Gap?)
              || (ToAmbiguous(wall).Fold? && t == wall - changes[i].offset)
    {
      var wall := Local(t);
      var i := FirstOpen(wall, 0);
      var k := Segment(t);
      assert k < |changes| ==> wall < Closes(k);
      if k > i {
        assert changes[k - 1].at <= t;
        assert wall >= Opens(k - 1);
        if k > i + 1 {
          ChangesApart(i, k - 1);
          assert false;
        }
      }
    }

    // ---- Dates ----

    lemma DateOfMonotone(a: int, b: int)
      requires a <= b
      ensures DateOf(a) <= DateOf(b)
    {
    }

    /** Local dates never go back when folds keep dates. */
    lemma {:induction false} LocalDateMonotone(t: int, u: int)
      requires WellSpaced() && FoldsKeepDates() && t <= u
      ensures LocalDate(t) <= LocalDate(u)
      decreases Segment(u)
    {
      SegmentsInOrder(t, u);
      var k := Segment(u);
      if Segment(t) == k {
        DateOfMonotone(Local(t), Local(u));
      } else {
        var a := changes[k - 1].at;
        SegmentIs(a - 1, k - 1);
        LocalDateMonotone(t, a - 1);
        DateAcross(k - 1);
        DateSince(k - 1, u);
      }
    }

    lemma SegmentsInOrder(t: int, u: int)
      requires WellSpaced() && t <= u
      ensures Segment(t) <= Segment(u)
      ensures Segment(t) < Segment(u) ==> t < changes[Segment(u) - 1].at <= u
    {
      if Segment(u) < Segment(t) {
        SegmentIs(u, Segment(t));
      }
    }

    lemma DateSince(i: nat, u: int)
      requires WellSpaced() && i < |changes| && Segment(u) == i + 1
      ensures LocalDate(changes[i].at) <= LocalDate(u)
    {
      SegmentIs(changes[i].at, i + 1);
      DateOfMonotone(Local(changes[i].at), Local(u));
    }

    lemma DateAcross(i: nat)
      requires WellSpaced() && i < |changes| && !FoldCrosses(i)
      ensures LocalDate(changes[i].at - 1) <= LocalDate(changes[i].at)
    {
      SegmentIs(changes[i].at - 1, i);
      SegmentIs(changes[i].at, i + 1);
      if changes[i].offset < Before(i) {
        assert KeepsDate(i);
      } else {
        DateOfMonotone(Opens(i) - 1, Closes(i));
      }
    }

    /** Whatever the gap or fold, a time on `date` is resolved to an instant on local date `date`. */
    lemma ResolveKeepsDate(date: int, time: TimeOfDay)
      requires Regular()
      ensures LocalDate(ResolveLocal(date, time)) == date
    {
      DateOfReading(date, time);
      CompatibleKeepsDate(date * DAY + time);
    }

    lemma DateOfReading(date: int, time: TimeOfDay)
      ensures DateOf(date * DAY + time) == date
    {
    }

    lemma CompatibleKeepsDate(wall: int)
      requires Regular()
      ensures LocalDate(Compatible(wall)) == DateOf(wall)
    {
      Shown(wall);
      if ToAmbiguous(wall).Gap? {
        GapKeepsDate(wall, FirstOpen(wall, 0));
      }
    }

    lemma GapKeepsDate(wall: int, i: nat)
      requires i < |changes| && KeepsDate(i) && SkippedBy(wall, i)
      ensures DateOf(wall + Jump(i)) == DateOf(wall)
    {
      DateOfMonotone(Opens(i), wall);
      DateOfMonotone(wall, wall + Jump(i));
      DateOfMonotone(wall + Jump(i), Closes(i) + Jump(i) - 1);
    }

    /** A gap that skips the first reading of a date opens there. */
    lemma MidnightGap(date: int)
      requires Regular() && ToAmbiguous(date * DAY).Gap?
      ensures Opens(FirstOpen(date * DAY, 0)) == date * DAY
    {
      var wall := date * DAY;
      var i := FirstOpen(wall, 0);
      assert KeepsDate(i);
      DateOfMonotone(Opens(i), wall);
      DateOfMonotone(wall, Closes(i) + Jump(i) - 1);
    }

    lemma BeforeMidnight(date: int, u: int)
      requires Regular() && u < ResolveLocal(date, 0)
      ensures LocalDate(u) < date
    {
      if ToAmbiguous(date * DAY).Gap? {
        MidnightGap(date);
      }
      BeforeReading(date * DAY, u);
      DateOfMonotone(Local(u), date * DAY - 1);
    }

    /** Before the instant chosen for a reading, all readings are earlier, unless a gap opened
        before that reading. */
    lemma BeforeReading(wall: int, u: int)
      requires WellSpaced() && u < Compatible(wall)
      requires ToAmbiguous(wall).Gap? ==> Opens(FirstOpen(wall, 0)) == wall
      ensures Local(u) < wall
    {
      var i := FirstOpen(wall, 0);
      var k := Segment(u);
      assert i < |changes| ==> u < changes[i].at;
      assert k < i ==> Closes(k) <= wall;
    }

    /** Midnight is the first instant of its date. */
    lemma MidnightIsFirst(date: int, t: int)
      requires Regular()
      ensures ResolveLocal(date, 0) <= t <==> date <= LocalDate(t)
    {
      ResolveKeepsDate(date, 0);
      if ResolveLocal(date, 0) <= t {
        LocalDateMonotone(ResolveLocal(date, 0), t);
      } else {
        BeforeMidnight(date, t);
      }
    }

    // ---- The conditions are exact ----

    /** Of the well-spaced zones, the regular ones are exactly those that keep local time faithful. */
    lemma RegularIsExact()
      requires WellSpaced()
      ensures Regular() <==> Time().Faithful()
    {
      if Regular() {
        forall t, u | t <= u
          ensures LocalDate(t) <= LocalDate(u)
        {
          LocalDateMonotone(t, u);
        }
        forall date, time: TimeOfDay
          ensures LocalDate(ResolveLocal(date, time)) == date
        {
          ResolveKeepsDate(date, time);
        }
        forall date, t
          ensures ResolveLocal(date, 0) <= t <==> date <= LocalDate(t)
        {
          MidnightIsFirst(date, t);
        }
      } else {
        var i :| 0 <= i < |changes| && !KeepsDate(i);
        if changes[i].offset < Before(i) {
          CrossingFold(i);
        } else {
          CrossingGap(i);
        }
      }
    }

    lemma CrossingFold(i: nat)
      requires WellSpaced() && i < |changes| && changes[i].offset < Before(i) && !KeepsDate(i)
      ensures !Time().Faithful()
    {
      var a := changes[i].at;
      SegmentIs(a - 1, i);
      SegmentIs(a, i + 1);
      DateOfMonotone(Opens(i), Closes(i) - 1);
      assert LocalDate(a) < LocalDate(a - 1);
      assert Time().dateOf(a) < Time().dateOf(a - 1);
    }

    lemma CrossingGap(i: nat)
      requires WellSpaced() && i < |changes| && Before(i) < changes[i].offset && !KeepsDate(i)
      ensures !Time().Faithful()
    {
      var first, last := Opens(i), Closes(i) - 1;
      InGap(i, first);
      InGap(i, last);
      DateOfMonotone(first, last);
      DateOfMonotone(last, first + Jump(i));
      DateOfMonotone(first + Jump(i), last + Jump(i));
      Misplaced(if LocalDate(Compatible(first)) != DateOf(first) then first else last);
    }

    lemma Misplaced(wall: int)
      requires LocalDate(Compatible(wall)) != DateOf(wall)
      ensures !Time().Faithful()
    {
      var time: TimeOfDay := wall % DAY;
      ReadingOf(wall);
      MisplacedAt(wall / DAY, time);
    }

    lemma ReadingOf(wall: int)
      ensures wall == DateOf(wall) * DAY + wall % DAY
    {
    }

    lemma MisplacedAt(date: int, time: TimeOfDay)
      requires LocalDate(ResolveLocal(date, time)) != date
      ensures !Time().Faithful()
    {
      assert Time().dateOf(Time().resolve(date, time)) != date;
    }

    lemma InGap(i: nat, wall: int)
      requires WellSpaced() && SkippedBy(wall, i)
      ensures Local(Compatible(wall)) == wall + Jump(i)
    {
      var j := FirstOpen(wall, 0);
      if j < i {
        ChangesApart(j, i);
      }
      assert j == i;
      Shown(wall);
    }
  }
}
