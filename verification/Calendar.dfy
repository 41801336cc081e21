/** Civil dates over day numbers, and the proleptic Gregorian calendar with day 0 on 1970-01-01.
    Months are numbered consecutively: month `k` is month `k % 12 + 1` of year `k / 12`. */
module Calendar {
  import opened Cells

  function Year(k: int): int { k / 12 }

  function Month(k: int): int { k % 12 + 1 }

  function Number(year: int, month: int): int { 12 * year + month - 1 }

  lemma MonthOfNumber(year: int, month: int)
    requires 1 <= month <= 12
    ensures Month(Number(year, month)) == month
  {
  }

  /** A civil date: its month, numbered consecutively, and the day of the month. */
  datatype Civil = Civil(number: int, day: int)

  /** A calendar of consecutively numbered months: the first day and the length of each. */
  datatype Months = Months(first: int -> int, length: int -> int) {

    predicate Adjoins(k: int) { length(k) >= 1 && first(k + 1) == first(k) + length(k) }

    ghost predicate Valid() { forall k :: Adjoins(k) }

    function OfDay(n: int): (c: Civil)
      requires Valid()
      ensures IsDate(c) && ToDay(c) == n
    {
      FirstIncreases();
      var k := CellOf(first, n);
      assert Adjoins(k);
      Civil(k, n - first(k) + 1)
    }

    function ToDay(c: Civil): int { first(c.number) + c.day - 1 }

    predicate IsDate(c: Civil) { 1 <= c.day <= length(c.number) }

    lemma FirstIncreases()
      requires Valid()
      ensures Increasing(first)
    {
      forall k
        ensures Steps(first, k)
      {
        assert Adjoins(k);
      }
    }

    /** Every day is exactly one civil date: with the contract of `OfDay`, the conversions are
        inverse to each other. */
    lemma CivilRoundTrip(c: Civil)
      requires Valid() && IsDate(c)
      ensures OfDay(ToDay(c)) == c
    {
      FirstIncreases();
      var other := OfDay(ToDay(c));
      assert Adjoins(c.number) && Adjoins(other.number);
      Unique(first, ToDay(c), other.number, c.number);
    }
  }

  // ---- The Gregorian months ----

  const EPOCH_MONTH := Number(1970, 1)

  function Gregorian(): Months { Months(k => First(k), k => Length(k)) }

  lemma GregorianIsValid()
    ensures Gregorian().Valid()
  {
    forall k
      ensures Gregorian().Adjoins(k)
    {
      MonthsAdjoin(k);
    }
  }

  predicate IsLeap(year: int) { year % 4 == 0 && (year % 100 != 0 || year % 400 == 0) }

  function DaysInMonth(year: int, month: int): (n: int)
    ensures 28 <= n <= 31
  {
    if month == 2 then (if IsLeap(year) then 29 else 28)
    else if month in {4, 6, 9, 11} then 30
    else 31
  }

  /** The number of days of month `k`. */
  function Length(k: int): (n: int)
    ensures 28 <= n <= 31
  {
    DaysInMonth(Year(k), Month(k))
  }

  /** The first day of month `k`. */
  function First(k: int): int
    decreases if k < EPOCH_MONTH then EPOCH_MONTH - k else k - EPOCH_MONTH
  {
    if k == EPOCH_MONTH then 0
    else if k > EPOCH_MONTH then First(k - 1) + Length(k - 1)
    else First(k + 1) - Length(k)
  }

  lemma MonthsAdjoin(k: int)
    ensures First(k + 1) == First(k) + Length(k)
  {
  }

  /** Summing month lengths gives the familiar closed form for the first day of a year. */
  function NewYear(year: int): int {
    var y := year - 1;
    365 * y + y / 4 - y / 100 + y / 400 - 719162
  }

  lemma {:induction false} YearStarts(year: int)
    ensures First(12 * year) == NewYear(year)
    decreases if year < 1970 then 1970 - year else year - 1970
  {
    if year > 1970 {
      YearStarts(year - 1);
      YearLength(year - 1);
      MonthsOfYear(year - 1);
    } else if year < 1970 {
      YearStarts(year + 1);
      YearLength(year);
      MonthsOfYear(year);
    }
  }

  lemma YearLength(y: int)
    ensures NewYear(y + 1) - NewYear(y) == if IsLeap(y) then 366 else 365
  {
    assert y / 4 - (y - 1) / 4 == if y % 4 == 0 then 1 else 0;
    assert y / 100 - (y - 1) / 100 == if y % 100 == 0 then 1 else 0;
    assert y / 400 - (y - 1) / 400 == if y % 400 == 0 then 1 else 0;
  }

  function DaysBefore(year: int, month: int): int
    requires 1 <= month <= 13
  {
    if month == 1 then 0 else DaysBefore(year, month - 1) + DaysInMonth(year, month - 1)
  }

  lemma {:induction false} MonthStarts(year: int, month: int)
    requires 1 <= month <= 13
    ensures First(12 * year + month - 1) == First(12 * year) + DaysBefore(year, month)
  {
    if month > 1 {
      MonthStarts(year, month - 1);
      MonthsAdjoin(12 * year + month - 2);
      LengthOfMonth(year, month - 1);
    }
  }

  lemma LengthOfMonth(year: int, month: int)
    requires 1 <= month <= 12
    ensures Length(12 * year + month - 1) == DaysInMonth(year, month)
  {
    var k := 12 * year + month - 1;
    assert Year(k) == year && Month(k) == month;
  }

  lemma MonthsOfYear(year: int)
    ensures First(12 * year + 12) - First(12 * year) == if IsLeap(year) then 366 else 365
  {
    MonthStarts(year, 13);
    DaysOfYear(year);
  }

  lemma DaysOfYear(year: int)
    ensures DaysBefore(year, 13) == if IsLeap(year) then 366 else 365
  {
    var february := DaysInMonth(year, 2);
    assert DaysBefore(year, 2) == 31;
    assert DaysBefore(year, 3) == 31 + february;
    assert DaysBefore(year, 4) == 62 + february;
    assert DaysBefore(year, 5) == 92 + february;
    assert DaysBefore(year, 6) == 123 + february;
    assert DaysBefore(year, 7) == 153 + february;
    assert DaysBefore(year, 8) == 184 + february;
    assert DaysBefore(year, 9) == 215 + february;
    assert DaysBefore(year, 10) == 245 + february;
    assert DaysBefore(year, 11) == 276 + february;
    assert DaysBefore(year, 12) == 306 + february;
  }
}
