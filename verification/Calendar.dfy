/** Calendar arithmetic (`leap` and `add_time` in wgrib.c), against the proleptic Gregorian
    calendar in which one day follows another. */
module Calendar {
  import opened Binary

  // ---- the calendar ----

  function Leap(year: int): bool {
    if year % 4 != 0 then false
    else if year % 100 != 0 then true
    else year % 400 == 0
  }

  function LeapDay(year: int): int {
    if Leap(year) then 1 else 0
  }

  datatype Date = Date(year: int, month: int, day: int) {
    predicate Valid() {
      1 <= month <= 12 && 1 <= day <= DaysIn(year, month)
    }
  }

  function DaysIn(year: int, month: int): int {
    if month == 2 then 28 + LeapDay(year)
    else if month == 4 || month == 6 || month == 9 || month == 11 then 30
    else 31
  }

  function NextDay(t: Date): (r: Date)
    requires t.Valid()
    ensures r.Valid()
  {
    if t.day < DaysIn(t.year, t.month) then t.(day := t.day + 1)
    else if t.month < 12 then Date(t.year, t.month + 1, 1)
    else Date(t.year + 1, 1, 1)
  }

  /** The date `n` days later, one day at a time. */
  function Later(t: Date, n: nat): (r: Date)
    requires t.Valid()
    ensures r.Valid()
  {
    if n == 0 then t else NextDay(Later(t, n - 1))
  }

  // ---- counting days ----

  /** The table `monthjday`: days before each month of a common year. */
  const MONTHJDAY: seq<int> := [0, 31, 59, 90, 120, 151, 181, 212, 243, 273, 304, 334]

  const FEB29 := 60

  function DayOfYear(t: Date): int
    requires 1 <= t.month <= 12
  {
    t.day + MONTHJDAY[t.month - 1] + (if Leap(t.year) && t.month > 2 then 1 else 0)
  }

  /** The days before the first of January. */
  function YearStart(year: int): int {
    365 * (year - 1) + (year - 1) / 4 - (year - 1) / 100 + (year - 1) / 400
  }

  function DayNumber(t: Date): int
    requires 1 <= t.month <= 12
  {
    YearStart(t.year) + DayOfYear(t)
  }

  lemma NextYear(year: int)
    ensures YearStart(year + 1) == YearStart(year) + 365 + LeapDay(year)
  {
    Step(year - 1, 4);
    Step(year - 1, 100);
    Step(year - 1, 400);
  }

  lemma Step(a: int, d: int)
    requires d > 1
    ensures (a + 1) / d == a / d + (if (a + 1) % d == 0 then 1 else 0)
  {
    if a % d == d - 1 {
      DivUnique(a + 1, d, a / d + 1, 0);
    } else {
      DivUnique(a + 1, d, a / d, a % d + 1);
    }
  }

  lemma DayOfYearBounds(t: Date)
    requires t.Valid()
    ensures 1 <= DayOfYear(t) <= 365 + LeapDay(t.year)
  {
  }

  lemma NextDayNumber(t: Date)
    requires t.Valid()
    ensures DayNumber(NextDay(t)) == DayNumber(t) + 1
  {
    NextYear(t.year);
  }

  lemma {:induction false} LaterNumber(t: Date, n: nat)
    requires t.Valid()
    ensures DayNumber(Later(t, n)) == DayNumber(t) + n
  {
    if n > 0 {
      LaterNumber(t, n - 1);
      NextDayNumber(Later(t, n - 1));
    }
  }

  lemma {:induction false} YearsGrow(y: int, z: int)
    requires y <= z
    ensures YearStart(y) <= YearStart(z)
    decreases z - y
  {
    if y < z {
      YearsGrow(y, z - 1);
      NextYear(z - 1);
    }
  }

  /** Different dates have different numbers. */
  lemma NumberTellsDate(t: Date, u: Date)
    requires t.Valid() && u.Valid() && DayNumber(t) == DayNumber(u)
    ensures t == u
  {
    DayOfYearBounds(t);
    DayOfYearBounds(u);
    if t.year < u.year {
      NextYear(t.year);
      YearsGrow(t.year + 1, u.year);
    } else if u.year < t.year {
      NextYear(u.year);
      YearsGrow(u.year + 1, t.year);
    } else {
      DayOfYearTells(t, u);
    }
  }

  lemma DayOfYearTells(t: Date, u: Date)
    requires t.Valid() && u.Valid() && t.year == u.year && DayOfYear(t) == DayOfYear(u)
    ensures t == u
  {
  }

  // ---- add_time ----

  /** Division and remainder of C, toward zero. */
  function Quot(a: int, d: int): int
    requires d > 0
  {
    if a >= 0 then a / d else -(-a / d)
  }

  function Rem(a: int, d: int): int
    requires d > 0
  {
    a - d * Quot(a, d)
  }

  const FOUR_YEARS := 1461

  /** The year after the four-year steps. */
  function Chunked(year: int, total: int): int {
    year + 4 * Quot(total, FOUR_YEARS)
  }

  /** The correction for one century mark (lines 2921-2930). */
  function Correction(year: int, total: int): int {
    var y := Chunked(year, total);
    if Quot(total, FOUR_YEARS) != 0 && Quot(y - 1, 100) != Quot(year - 1, 100) && Rem(Quot(y, 100), 4) != 0 then 1
    else 0
  }

  /** The leap days that four-year steps count but the calendar leaves out. */
  function Skipped(from: int, to: int): int {
    ((to - 1) / 100 - (from - 1) / 100) - ((to - 1) / 400 - (from - 1) / 400)
  }

  /** The day of the chunked year that the search for the month starts from. */
  function Rest(year: int, total: int): int {
    Rem(total, FOUR_YEARS) + Correction(year, total)
  }

  /** When the code is right: something is left for the last four years, and the one
      correction is all that the century marks passed call for. */
  predicate Exact(year: int, total: int) {
    Rest(year, total) >= 1 && Correction(year, total) == Skipped(year, Chunked(year, total))
  }

  lemma FourYearSteps(year: int, k: int)
    ensures YearStart(year + 4 * k) == YearStart(year) + FOUR_YEARS * k - Skipped(year, year + 4 * k)
  {
    DivUnique(year + 4 * k - 1, 4, (year - 1) / 4 + k, (year - 1) % 4);
  }

  const MINUTE := 0
  const HOUR := 1
  const DAY := 2
  const MONTH := 3
  const YEAR := 4
  const DECADE := 5
  const NORMAL := 6
  const CENTURY := 7
  const HOUR3 := 10
  const HOUR6 := 11
  const HOUR12 := 12
  const SECOND := 254

  const UNITS := {MINUTE, HOUR, DAY, MONTH, YEAR, DECADE, NORMAL, CENTURY, HOUR3, HOUR6, HOUR12, SECOND}
  const HOUR_UNITS := {SECOND, MINUTE, HOUR, HOUR3, HOUR6, HOUR12}

  /** The years in a unit of years. */
  function YearsOf(unit: int): nat {
    if unit == YEAR then 1
    else if unit == DECADE then 10
    else if unit == CENTURY then 100
    else if unit == NORMAL then 30
    else 0
  }

  /** An amount in hours; what is left of an hour is dropped. */
  function HoursOf(unit: int, dtime: int): int {
    if unit == SECOND then Quot(Quot(dtime, 60), 60)
    else if unit == MINUTE then Quot(dtime, 60)
    else if unit == HOUR3 then dtime * 3
    else if unit == HOUR6 then dtime * 6
    else if unit == HOUR12 then dtime * 12
    else dtime
  }

  /** What the units stand for: seconds and minutes count as whole hours only, toward zero. */
  lemma UnitsMean(dtime: int)
    ensures HoursOf(SECOND, dtime) == Quot(dtime, 3600) && HoursOf(MINUTE, dtime) == Quot(dtime, 60)
    ensures HoursOf(HOUR, dtime) == dtime && HoursOf(HOUR3, dtime) == 3 * dtime
    ensures HoursOf(HOUR6, dtime) == 6 * dtime && HoursOf(HOUR12, dtime) == 12 * dtime
    ensures YearsOf(YEAR) == 1 && YearsOf(DECADE) == 10 && YearsOf(NORMAL) == 30 && YearsOf(CENTURY) == 100
    ensures HOUR_UNITS == {SECOND, MINUTE, HOUR, HOUR3, HOUR6, HOUR12}
  {
  }

  datatype Status = Done | UndefinedUnit | OffTable

  /** The search for the month (lines 2941-2951).  For a day that is not positive it runs off
      the front of the table, where C code has no defined meaning. */
  method MonthOf(year: int, day0: int) returns (status: Status, month: int, day: int)
    requires day0 <= 365 + LeapDay(year)
    ensures status == if day0 >= 1 then Done else OffTable
    ensures status == Done ==> Date(year, month, day).Valid() && DayOfYear(Date(year, month, day)) == day0
  {
    var dtime := day0;
    if Leap(year) && dtime == FEB29 {
      return Done, 2, 29;
    }
    if Leap(year) && dtime > FEB29 {
      dtime := dtime - 1;
    }
    var i := 11;
    while i >= 0 && MONTHJDAY[i] >= dtime
      invariant -1 <= i <= 11
      invariant i < 11 ==> dtime <= MONTHJDAY[i + 1]
    {
      i := i - 1;
    }
    if i < 0 { return OffTable, 0, 0; }
    status, month, day := Done, i + 1, dtime - MONTHJDAY[i];
  }

  /** The four-year chunks (lines 2921-2933). */
  method FourYears(year: int, total: int) returns (y: int, dtime: int)
    ensures y == Chunked(year, total) && dtime == Rest(year, total)
  {
    y, dtime := year, total;
    var i := Quot(dtime, FOUR_YEARS);
    if i != 0 {
      y := y + i * 4;
      dtime := dtime - i * FOUR_YEARS;
      if Quot(y - 1, 100) != Quot(year - 1, 100) && Rem(Quot(y, 100), 4) != 0 {
        dtime := dtime + 1;
      }
    }
  }

  /** The one-year chunks (lines 2935-2939): the same day, in its own year. */
  method OneYears(year: int, day: int) returns (y: int, dtime: int)
    ensures YearStart(y) + dtime == YearStart(year) + day
    ensures dtime <= 365 + LeapDay(y) && (dtime >= 1 <==> day >= 1)
  {
    hide YearStart, Leap;
    y, dtime := year, day;
    while dtime > 365 + LeapDay(y)
      invariant YearStart(y) + dtime == YearStart(year) + day
      invariant dtime >= 1 <==> day >= 1
      decreases dtime
    {
      NextYear(y);
      dtime := dtime - (365 + LeapDay(y));
      y := y + 1;
    }
  }

  lemma RestFacts(year: int, total: int)
    ensures Chunked(year, total) == year + 4 * Quot(total, FOUR_YEARS)
    ensures Rest(year, total) == total - FOUR_YEARS * Quot(total, FOUR_YEARS) + Correction(year, total)
  {
  }

  class Clock {
    var year: int
    var month: int
    var day: int
    var hour: int

    function Today(): Date
      reads this
    {
      Date(year, month, day)
    }

    constructor (year: int, month: int, day: int, hour: int)
      ensures Today() == Date(year, month, day) && this.hour == hour
    {
      this.year, this.month, this.day, this.hour := year, month, day, hour;
    }

    /** The DAY part of add_time.  The date moves by `n` days, off by the century marks that
        the one correction misses. */
    method AddDays(n: int) returns (status: Status)
      requires Today().Valid()
      modifies `year, `month, `day
      ensures var total := old(DayOfYear(Today())) + n;
        status == if Rest(old(year), total) >= 1 then Done else OffTable
      ensures status == OffTable ==> Today() == old(Today())
      ensures status == Done ==> Today().Valid()
      ensures var total := old(DayOfYear(Today())) + n;
        status == Done ==>
          DayNumber(Today()) ==
            old(DayNumber(Today())) + n + Correction(old(year), total) - Skipped(old(year), Chunked(old(year), total))
    {
      hide YearStart, Skipped, Leap, Chunked, Rest, Correction;
      ghost var total := DayOfYear(Today()) + n;
      var y, dtime := FourYears(year, n + (day + MONTHJDAY[month - 1] + (if Leap(year) && month > 2 then 1 else 0)));
      FourYearSteps(year, Quot(total, FOUR_YEARS));
      RestFacts(year, total);
      y, dtime := OneYears(y, dtime);
      var m, d;
      status, m, d := MonthOf(y, dtime);
      if status == Done {
        year, month, day := y, m, d;
      }
    }

    /** The units that are turned into hours first: the clock shows the right time, counted in
        hours, if and only if the condition holds. */
    method AddHours(hours: int) returns (status: Status)
      requires Today().Valid()
      modifies this
      ensures hour == Rem(old(hour) + hours, 24) && -24 < hour < 24 && (old(hour) + hours >= 0 ==> hour >= 0)
      ensures var total := old(DayOfYear(Today())) + Quot(old(hour) + hours, 24);
        status == if Rest(old(year), total) >= 1 then Done else OffTable
      ensures status == OffTable ==> Today() == old(Today())
      ensures status == Done ==> Today().Valid()
      ensures status == Done && 24 * DayNumber(Today()) + hour == 24 * old(DayNumber(Today())) + old(hour) + hours
        <==> Exact(old(year), old(DayOfYear(Today())) + Quot(old(hour) + hours, 24))
    {
      hide YearStart, Skipped, Leap, DayNumber, DayOfYear, Correction, Chunked, Rest;
      var dtime := hours + hour;
      hour := Rem(dtime, 24);
      status := AddDays(Quot(dtime, 24));
    }

    /** add_time. */
    method AddTime(dtime: int, unit: int) returns (status: Status)
      requires Today().Valid()
      modifies this
      ensures status == UndefinedUnit <==> unit !in UNITS
      ensures status == UndefinedUnit ==> Today() == old(Today()) && hour == old(hour)
      ensures YearsOf(unit) > 0 || unit == MONTH ==> status == Done
      ensures unit in HOUR_UNITS ==> var total := old(DayOfYear(Today())) + Quot(old(hour) + HoursOf(unit, dtime), 24);
        status == if Rest(old(year), total) >= 1 then Done else OffTable
      ensures unit == DAY ==>
        status == if Rest(old(year), old(DayOfYear(Today())) + dtime) >= 1 then Done else OffTable
      ensures status == OffTable ==> Today() == old(Today())
      ensures YearsOf(unit) > 0 ==>
        Today() == Date(old(year) + YearsOf(unit) * dtime, old(month), old(day)) && hour == old(hour)
      ensures unit == MONTH ==>
        12 * year + month == 12 * old(year) + old(month) + dtime && day == old(day) && hour == old(hour)
      ensures unit == MONTH ==>
        (1 <= month <= 12 <==> old(month) - 1 + dtime >= 0 || (old(month) - 1 + dtime) % 12 == 0)
      ensures unit in HOUR_UNITS ==>
        (status == Done && Today().Valid() &&
          24 * DayNumber(Today()) + hour == 24 * old(DayNumber(Today())) + old(hour) + HoursOf(unit, dtime)
         <==> Exact(old(year), old(DayOfYear(Today())) + Quot(old(hour) + HoursOf(unit, dtime), 24)))
      ensures unit == DAY ==> hour == old(hour)
      ensures unit == DAY ==>
        (status == Done && Today().Valid() && DayNumber(Today()) == old(DayNumber(Today())) + dtime
         <==> Exact(old(year), old(DayOfYear(Today())) + dtime))
    {
      hide YearStart, Skipped, Leap, Rest, Correction, Chunked;
      status := Done;
      if YearsOf(unit) > 0 {
        year := year + YearsOf(unit) * dtime;
      } else if unit == MONTH {
        var months := dtime + (month - 1);
        year := year + Quot(months, 12);
        month := 1 + Rem(months, 12);
      } else if unit in HOUR_UNITS {
        status := AddHours(HoursOf(unit, dtime));
      } else if unit == DAY {
        status := AddDays(dtime);
      } else {
        status := UndefinedUnit;
      }
    }
  }

  /** The DAY part gives the date `n` days later if and only if the condition holds. */
  method AddDaysExactly(c: Clock, n: nat) returns (status: Status)
    requires c.Today().Valid()
    modifies c
    ensures status == Done && c.Today() == Later(old(c.Today()), n)
      <==> Exact(old(c.year), old(DayOfYear(c.Today())) + n)
  {
    hide YearStart, Skipped, Leap;
    ghost var start := c.Today();
    status := c.AddDays(n);
    LaterNumber(start, n);
    if status == Done && DayNumber(c.Today()) == DayNumber(Later(start, n)) {
      NumberTellsDate(c.Today(), Later(start, n));
    }
  }

  /** Less than a century of days ahead, only a multiple of four years can go wrong. */
  lemma ExactBelowCentury(year: int, total: int)
    requires year >= 1 && 1 <= total < 25 * FOUR_YEARS
    ensures Correction(year, total) == Skipped(year, Chunked(year, total))
    ensures Exact(year, total) <==> total % FOUR_YEARS != 0 || Correction(year, total) == 1
  {
    var i, y := total / FOUR_YEARS, Chunked(year, total);
    assert 0 <= i < 25 && y == year + 4 * i;
    var a, b := (year - 1) / 100, (y - 1) / 100;
    QuotientOfQuotient(year - 1);
    QuotientOfQuotient(y - 1);
    assert a <= b <= a + 1;
    if b == a + 1 {
      Step(a, 4);
      assert y / 100 == b;
    }
  }

  lemma QuotientOfQuotient(v: int)
    requires v >= 0
    ensures v / 400 == v / 100 / 4
  {
    var q := v / 100;
    assert v == 400 * (q / 4) + (100 * (q % 4) + v % 100);
    DivUnique(v, 400, q / 4, 100 * (q % 4) + v % 100);
  }

  /** From the first of January 2001, 1460 days lead to the last day of 2004; the code runs
      off its table instead. */
  lemma FourYearsFail()
    ensures !Exact(2001, DayOfYear(Date(2001, 1, 1)) + 1460)
    ensures DayNumber(Date(2004, 12, 31)) == DayNumber(Date(2001, 1, 1)) + 1460
  {
  }

  /** Over two century marks one correction is not enough: 73050 days after 1 January 1801 is
      2 January 2001, and the code, which corrects nothing here, gives 1 January 2001. */
  lemma TwoCenturiesFail()
    ensures var n, total := 73050, DayOfYear(Date(1801, 1, 1)) + 73050;
      && DayNumber(Date(2001, 1, 2)) == DayNumber(Date(1801, 1, 1)) + n
      && Correction(1801, total) == 0 && Chunked(1801, total) == 2001
      && Rest(1801, total) == DayOfYear(Date(2001, 1, 1))
      && DayNumber(Date(2001, 1, 1)) ==
        DayNumber(Date(1801, 1, 1)) + n + Correction(1801, total) - Skipped(1801, Chunked(1801, total))
  {
  }
}
