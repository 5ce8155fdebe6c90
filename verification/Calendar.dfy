/**
  `civil_from_days` and `rfc3339_utc` of prover/host/src/release.rs, against the Gregorian calendar. Years are
  taken to begin in March, so that the leap day ends a year, and 400 of them make an era of 146097 days. A day
  has a place in its era: a year and a day of that year; what is said of dates is proved on such places, and
  the divisions of the source are shown to find them.
*/
module Calendar {

  datatype Date = Date(year: int, month: int, day: int)

  /** Days since 1970-01-01 to a proleptic Gregorian date. */
  function CivilFromDays(days: int): Date {
    var z := days + 719468;
    var era := z / 146097;
    var doe := z % 146097;
    var yoe := YearOfEra(doe);
    DateAt(era, yoe, doe - YearStart(yoe))
  }

  /** The date of a day of a year of an era; years begin in March. */
  function DateAt(era: int, yoe: int, doy: int): Date {
    var y := yoe + era * 400;
    var mp := (5 * doy + 2) / 153;
    var d := doy - MonthStart(mp) + 1;
    var m := if mp < 10 then mp + 3 else mp - 9;
    Date(if m <= 2 then y + 1 else y, m, d)
  }

  /** First day of a year within its era of 400 years. */
  function YearStart(yoe: int): int {
    365 * yoe + yoe / 4 - yoe / 100
  }

  function MonthStart(mp: int): int {
    (153 * mp + 2) / 5
  }

  function YearOfEra(doe: int): int {
    (doe - doe / 1460 + doe / 36524 - doe / 146096) / 365
  }

  // ------------------------------------------------------------ the Gregorian calendar

  predicate Leap(year: int) {
    year % 4 == 0 && (year % 100 != 0 || year % 400 == 0)
  }

  function DaysIn(year: int, month: int): int {
    if month == 2 then (if Leap(year) then 29 else 28)
    else if month == 4 || month == 6 || month == 9 || month == 11 then 30
    else 31
  }

  predicate Valid(date: Date) {
    1 <= date.month <= 12 && 1 <= date.day <= DaysIn(date.year, date.month)
  }

  function NextDay(date: Date): Date {
    if date.day < DaysIn(date.year, date.month) then date.(day := date.day + 1)
    else if date.month < 12 then Date(date.year, date.month + 1, 1)
    else Date(date.year + 1, 1, 1)
  }

  // ------------------------------------------------------------ years that begin in March

  /** Years end with February: the leap day is the last one. */
  function YearLength(yoe: int): int {
    if Leap(yoe + 1) then 366 else 365
  }

  predicate Placed(yoe: int, doy: int) {
    0 <= yoe < 400 && 0 <= doy < YearLength(yoe)
  }

  /** Quotient and remainder, for the divisors of the calendar. */
  lemma Quotient(a: int, b: int, q: int, r: int)
    requires b == 4 || b == 100 || b == 365 || b == 400 || b == 1460 || b == 36524 || b == 146096 || b == 146097
    requires 0 <= r < b && a == b * q + r
    ensures a / b == q && a % b == r
  {
    if b == 4 {} else if b == 100 {} else if b == 365 {} else if b == 400 {} else if b == 1460 {} else if b == 36524 {}
      else if b == 146096 {}
  }

  /** Centuries, four-year cycles, years and days of an era. */
  lemma Cycles(c: int, q: int, y: int, doy: int)
    requires 0 <= c < 4 && 0 <= q < 25 && 0 <= y < 4 && Placed(100 * c + 4 * q + y, doy)
    ensures YearStart(100 * c + 4 * q + y) == 36524 * c + 1461 * q + 365 * y
    ensures YearOfEra(36524 * c + 1461 * q + 365 * y + doy) == 100 * c + 4 * q + y
    ensures 36524 * c + 1461 * q + 365 * y + doy < 146097
  {
    var n, doe := 100 * c + 4 * q + y, 36524 * c + 1461 * q + 365 * y + doy;
    Quotient(n, 4, 25 * c + q, y);
    Quotient(n, 100, c, 4 * q + y);
    LastOfFour(c, q, y, doy);
    CycleYear(c, q, y, doy);
  }

  lemma CycleYear(c: int, q: int, y: int, doy: int)
    requires 0 <= c < 4 && 0 <= q < 25 && 0 <= y < 4 && 0 <= doy <= 365 && (doy == 365 ==> y == 3)
    requires 1461 * q + 365 * y + doy <= 36524 && (1461 * q + 365 * y + doy == 36524 ==> c == 3)
    ensures YearOfEra(36524 * c + 1461 * q + 365 * y + doy) == 100 * c + 4 * q + y
  {
    var doe, r := 36524 * c + 1461 * q + 365 * y + doy, 1461 * q + 365 * y + doy;
    if r < 36524 {
      Quotient(doe, 36524, c, r);
      Quotient(doe, 146096, 0, doe);
    } else {
      Quotient(doe, 36524, 4, 0);
      Quotient(doe, 146096, 1, 0);
    }
    var s := 24 * c + q + 365 * y + doy;
    var e := if s >= 1460 then 1 else 0;
    Quotient(doe, 1460, 25 * c + q + e, s - 1460 * e);
    Quotient(doe - doe / 1460 + c, 365, 100 * c + 4 * q + y, doy - e);
  }

  /** A 366th day only ends the fourth year of a cycle, and not the last cycle of the first three centuries. */
  lemma LastOfFour(c: int, q: int, y: int, doy: int)
    requires 0 <= c < 4 && 0 <= q < 25 && 0 <= y < 4 && Placed(100 * c + 4 * q + y, doy)
    ensures doy == 365 ==> y == 3 && (q < 24 || c == 3)
    ensures 1461 * q + 365 * y + doy <= 36524
    ensures 1461 * q + 365 * y + doy == 36524 ==> c == 3
  {
    var n := 100 * c + 4 * q + y + 1;
    if doy == 365 {
      Quotient(n, 4, 25 * c + q + (if y == 3 then 1 else 0), if y == 3 then 0 else y + 1);
      if q == 24 && y == 3 { Quotient(n, 100, c + 1, 0); }
    }
  }

  /** The year found for a day is the one the day is placed in. */
  lemma YearFound(yoe: int, doy: int)
    requires Placed(yoe, doy)
    ensures 0 <= YearStart(yoe) + doy < 146097
    ensures YearOfEra(YearStart(yoe) + doy) == yoe
  {
    var c, q, y := yoe / 100, yoe % 100 / 4, yoe % 4;
    assert yoe == 100 * c + 4 * q + y;
    Cycles(c, q, y, doy);
  }

  /** Every day of an era is placed in a year. */
  lemma EveryDayPlaced(doe: int)
    requires 0 <= doe < 146097
    ensures Placed(YearOfEra(doe), doe - YearStart(YearOfEra(doe)))
  {
    var c := if doe / 36524 == 4 then 3 else doe / 36524;
    var r := doe - 36524 * c;
    var q := r / 1461;
    var s := r - 1461 * q;
    var y := if s / 365 == 4 then 3 else s / 365;
    var doy := s - 365 * y;
    var n := 100 * c + 4 * q + y;
    assert 0 <= c < 4 && 0 <= r <= 36524 && (r == 36524 ==> c == 3);
    assert 0 <= q < 25 && 0 <= s <= 1460;
    assert 0 <= y < 4 && 0 <= doy <= 365 && (doy == 365 ==> s == 1460 && y == 3);
    if doy == 365 {
      Quotient(n + 1, 4, 25 * c + q + 1, 0);
      if q == 24 {
        assert c == 3;
      } else {
        Quotient(n + 1, 100, c, 4 * q + 4);
      }
    }
    Cycles(c, q, y, doy);
  }

  // ------------------------------------------------------------ months that begin with March

  /** The day's month is the one whose days it is among. */
  lemma MonthFound(doy: int)
    requires 0 <= doy < 366
    ensures var mp := (5 * doy + 2) / 153; 0 <= mp < 12 && MonthStart(mp) <= doy < MonthStart(mp + 1)
  {}

  /** Lengths of the months, March first; February has what is left. */
  lemma MonthLengths(mp: int, year: int)
    requires 0 <= mp < 12
    ensures mp < 11 ==> MonthStart(mp + 1) - MonthStart(mp) == DaysIn(year, if mp < 10 then mp + 3 else mp - 9)
    ensures MonthStart(11) == 337
  {
    assert mp == 0 || mp == 1 || mp == 2 || mp == 3 || mp == 4 || mp == 5 || mp == 6 || mp == 7 || mp == 8 || mp == 9
           || mp == 10 || mp == 11;
  }

  /** The number of a placed day. */
  function Number(era: int, yoe: int, doy: int): int {
    era * 146097 + YearStart(yoe) + doy - 719468
  }

  lemma DaysPlaced(era: int, yoe: int, doy: int)
    requires Placed(yoe, doy)
    ensures CivilFromDays(Number(era, yoe, doy)) == DateAt(era, yoe, doy)
  {
    YearFound(yoe, doy);
    Quotient(Number(era, yoe, doy) + 719468, 146097, era, YearStart(yoe) + doy);
  }

  /** The place of a day. */
  lemma PlaceOf(days: int) returns (era: int, yoe: int, doy: int)
    ensures Placed(yoe, doy) && days == Number(era, yoe, doy)
    ensures CivilFromDays(days) == DateAt(era, yoe, doy)
  {
    var z := days + 719468;
    era := z / 146097;
    EveryDayPlaced(z % 146097);
    yoe := YearOfEra(z % 146097);
    doy := z % 146097 - YearStart(yoe);
    DaysPlaced(era, yoe, doy);
  }

  lemma LeapInEra(era: int, yoe: int)
    ensures Leap(yoe + 400 * era) == Leap(yoe)
  {
    Quotient(yoe + 400 * era, 400, era + yoe / 400, yoe % 400);
    Quotient(yoe + 400 * era, 100, 4 * era + yoe / 100, yoe % 100);
    Quotient(yoe + 400 * era, 4, 100 * era + yoe / 4, yoe % 4);
  }

  lemma PlacedIsValid(era: int, yoe: int, doy: int)
    requires Placed(yoe, doy)
    ensures Valid(DateAt(era, yoe, doy))
  {
    var mp, date := (5 * doy + 2) / 153, DateAt(era, yoe, doy);
    MonthFound(doy);
    MonthLengths(mp, date.year);
    LeapInEra(era, yoe + 1);
  }

  /** Within a year, the next day is the calendar's. */
  lemma NextInYear(era: int, yoe: int, doy: int)
    requires Placed(yoe, doy) && Placed(yoe, doy + 1)
    ensures DateAt(era, yoe, doy + 1) == NextDay(DateAt(era, yoe, doy))
  {
    var mp := (5 * doy + 2) / 153;
    MonthFound(doy);
    MonthFound(doy + 1);
    MonthLengths(mp, DateAt(era, yoe, doy).year);
    LeapInEra(era, yoe + 1);
    if doy + 1 < MonthStart(mp + 1) {
      assert (5 * (doy + 1) + 2) / 153 == mp;
    } else {
      assert (5 * (doy + 1) + 2) / 153 == mp + 1;
    }
  }

  /** After February comes March. */
  lemma NextYear(era: int, yoe: int)
    requires 0 <= yoe < 400
    ensures NextDay(DateAt(era, yoe, YearLength(yoe) - 1)) == Date(yoe + era * 400 + 1, 3, 1)
  {
    var doy := YearLength(yoe) - 1;
    MonthFound(doy);
    MonthLengths(11, 0);
    LeapInEra(era, yoe + 1);
    assert (5 * doy + 2) / 153 == 11;
  }

  lemma YearsAdjoin(yoe: int)
    requires 0 <= yoe < 399
    ensures YearStart(yoe) + YearLength(yoe) == YearStart(yoe + 1)
  {
    Quotient(yoe + 1, 4, (yoe + 1) / 4, (yoe + 1) % 4);
    Quotient(yoe + 1, 100, (yoe + 1) / 100, (yoe + 1) % 100);
  }

  // ------------------------------------------------------------ main results

  lemma Epoch()
    ensures CivilFromDays(0) == Date(1970, 1, 1)
  {
    assert Number(4, 369, 306) == 0;
    DaysPlaced(4, 369, 306);
    assert (5 * 306 + 2) / 153 == 10 && MonthStart(10) == 306;
  }

  /** The place of the next day. */
  lemma NextPlace(era: int, yoe: int, doy: int) returns (e: int, y: int, d: int)
    requires Placed(yoe, doy)
    ensures Placed(y, d) && Number(e, y, d) == Number(era, yoe, doy) + 1
    ensures DateAt(e, y, d) == NextDay(DateAt(era, yoe, doy))
  {
    if doy + 1 < YearLength(yoe) {
      NextInYear(era, yoe, doy);
      e, y, d := era, yoe, doy + 1;
    } else {
      NextYear(era, yoe);
      e, y, d := if yoe < 399 then era else era + 1, if yoe < 399 then yoe + 1 else 0, 0;
      if yoe < 399 { YearsAdjoin(yoe); } else { assert YearStart(399) + YearLength(399) == 146097; }
      FirstOfMarch(e, y);
    }
  }

  lemma FirstOfMarch(era: int, yoe: int)
    ensures DateAt(era, yoe, 0) == Date(yoe + era * 400, 3, 1)
  {}

  lemma NextDate(days: int, era: int, yoe: int, doy: int)
    requires Placed(yoe, doy) && days == Number(era, yoe, doy)
    ensures CivilFromDays(days + 1) == NextDay(DateAt(era, yoe, doy))
  {
    var e, y, d := NextPlace(era, yoe, doy);
    DaysPlaced(e, y, d);
  }

  /** Counting on by one day is going to the next day of the calendar, for every day. */
  lemma Successor(days: int)
    ensures CivilFromDays(days + 1) == NextDay(CivilFromDays(days))
  {
    var era, yoe, doy := PlaceOf(days);
    NextDate(days, era, yoe, doy);
  }

  /** Month and day are always valid. */
  lemma AlwaysValid(days: int)
    ensures Valid(CivilFromDays(days))
  {
    var era, yoe, doy := PlaceOf(days);
    PlacedIsValid(era, yoe, doy);
  }

  /** The count of a date, by the same cycles. */
  function DaysFromCivil(date: Date): int {
    var y := if date.month <= 2 then date.year - 1 else date.year;
    var mp := if date.month <= 2 then date.month + 9 else date.month - 3;
    y / 400 * 146097 + YearStart(y % 400) + MonthStart(mp) + date.day - 1 - 719468
  }

  lemma DateDetermines(era: int, yoe: int, doy: int)
    requires Placed(yoe, doy)
    ensures DaysFromCivil(DateAt(era, yoe, doy)) == Number(era, yoe, doy)
  {
    MonthFound(doy);
    Quotient(yoe + era * 400, 400, era, yoe);
  }

  /** Every valid date is the date of a day. */
  lemma DatePlaced(date: Date) returns (era: int, yoe: int, doy: int)
    requires Valid(date)
    ensures Placed(yoe, doy) && DateAt(era, yoe, doy) == date
  {
    var y := if date.month <= 2 then date.year - 1 else date.year;
    var mp := if date.month <= 2 then date.month + 9 else date.month - 3;
    era, yoe := y / 400, y % 400;
    doy := MonthStart(mp) + date.day - 1;
    MonthLengths(mp, date.year);
    LeapInEra(era, yoe + 1);
    MonthOf(mp, date.day - 1, YearLength(yoe));
  }

  lemma MonthOf(mp: int, offset: int, length: int)
    requires 0 <= mp < 12 && 0 <= offset && 365 <= length <= 366
    requires mp < 11 ==> offset < MonthStart(mp + 1) - MonthStart(mp)
    requires mp == 11 ==> MonthStart(11) + offset < length
    ensures 0 <= MonthStart(mp) + offset < length && (5 * (MonthStart(mp) + offset) + 2) / 153 == mp
  {
    assert mp == 0 || mp == 1 || mp == 2 || mp == 3 || mp == 4 || mp == 5 || mp == 6 || mp == 7 || mp == 8 || mp == 9
           || mp == 10 || mp == 11;
  }

  /** Days and valid dates correspond one to one. */
  lemma Bijection(days: int, date: Date)
    ensures DaysFromCivil(CivilFromDays(days)) == days
    ensures Valid(date) ==> CivilFromDays(DaysFromCivil(date)) == date
  {
    var era, yoe, doy := PlaceOf(days);
    DateDetermines(era, yoe, doy);
    if Valid(date) {
      var e, y, d := DatePlaced(date);
      DateDetermines(e, y, d);
      DaysPlaced(e, y, d);
    }
  }
}
