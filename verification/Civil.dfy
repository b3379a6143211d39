/** Dates and timestamps of exported entries (blindkey-cli/src/export.rs). */
module Civil {
  datatype Date = Date(year: int, month: int, day: int)

  // ---------------------------------------------------------------- the conversion

  /** Rust's `/` on signed integers. */
  function TruncDiv(a: int, b: int): int
    requires b > 0
  {
    if a >= 0 then a / b else -(-a / b)
  }

  /** An `as i32` cast. */
  function AsI32(x: int): int { (x + 0x8000_0000) % 0x1_0000_0000 - 0x8000_0000 }

  /** Days of a 400-year era. */
  const ERA_DAYS := 146_097

  function YearOfEra(doe: int): int {
    (doe - doe / 1460 + doe / 36524 - doe / 146_096) / 365
  }

  /** Days of the era before March-based year `yoe`. */
  function YearStart(yoe: int): int { 365 * yoe + yoe / 4 - yoe / 100 }

  /** Month of a March-based year, 0 for March. */
  function MonthOf(doy: int): int { (5 * doy + 2) / 153 }

  function MonthStart(mp: int): int { (153 * mp + 2) / 5 }

  /** The date before its year is cut to 32 bits. */
  function ExactDate(days: int): Date {
    var z := days + 719_468;
    var era := TruncDiv(if z >= 0 then z else z - 146_096, ERA_DAYS);
    var doe := z - era * ERA_DAYS;
    var yoe := YearOfEra(doe);
    var y := yoe + era * 400;
    var doy := doe - YearStart(yoe);
    var mp := MonthOf(doy);
    var d := doy - MonthStart(mp) + 1;
    var m := mp + if mp < 10 then 3 else -9;
    Date(y + if m <= 2 then 1 else 0, m, d)
  }

  function CivilFromDays(days: int): Date {
    var exact := ExactDate(days);
    exact.(year := AsI32(exact.year))
  }

  // ---------------------------------------------------------------- the calendar

  predicate Leap(y: int) { y % 4 == 0 && (y % 100 != 0 || y % 400 == 0) }

  function DaysInMonth(y: int, m: int): int {
    if m == 2 then (if Leap(y) then 29 else 28)
    else if m == 4 || m == 6 || m == 9 || m == 11 then 30
    else 31
  }

  predicate ValidDate(d: Date) {
    1 <= d.month <= 12 && 1 <= d.day <= DaysInMonth(d.year, d.month)
  }

  /** The day after. */
  function Tomorrow(d: Date): Date {
    if d.day < DaysInMonth(d.year, d.month) then d.(day := d.day + 1)
    else if d.month < 12 then Date(d.year, d.month + 1, 1)
    else Date(d.year + 1, 1, 1)
  }

  // ---------------------------------------------------------------- proof of the conversion

  lemma EraIsFloor(z: int)
    ensures var era := TruncDiv(if z >= 0 then z else z - 146_096, ERA_DAYS);
      0 <= z - era * ERA_DAYS < ERA_DAYS
  {
  }

  /** A day's place: century, run of four years, year of the run, and what is left of it. */
  ghost predicate Placed(doe: int, c: int, q: int, k: int, u: int) {
    && 0 <= c <= 3 && 0 <= q <= 24 && 0 <= k <= 3
    && doe == 36524 * c + 1461 * q + 365 * k + u
    && 0 <= u && (u < 365 || (u == 365 && k == 3))
    && (u == 365 && q == 24 ==> c == 3)
  }

  lemma Place(doe: int) returns (c: int, q: int, k: int, u: int)
    requires 0 <= doe < ERA_DAYS
    ensures Placed(doe, c, q, k, u)
  {
    c := if doe / 36524 < 3 then doe / 36524 else 3;
    var r := doe - 36524 * c;
    assert 0 <= r <= 36524 && (r == 36524 ==> c == 3);
    q := r / 1461;
    var rest := r - 1461 * q;
    assert 0 <= rest <= 1460 && 0 <= q <= 24;
    k := if rest / 365 < 3 then rest / 365 else 3;
    u := rest - 365 * k;
  }

  lemma PlacedYearStart(c: int, q: int, k: int)
    requires 0 <= c <= 3 && 0 <= q <= 24 && 0 <= k <= 3
    ensures YearStart(100 * c + 4 * q + k) == 36524 * c + 1461 * q + 365 * k
    ensures YearStart(100 * c + 4 * q + k + 1) == 36524 * c + 1461 * q + 365 * (k + 1) + if k == 3 && q < 24 then 1
      else 0
  {
    var y := 100 * c + 4 * q + k;
    assert y / 4 == 25 * c + q && y / 100 == c;
    if k < 3 {
      assert (y + 1) / 4 == 25 * c + q && (y + 1) / 100 == c;
    } else {
      assert (y + 1) / 4 == 25 * c + q + 1;
      assert (y + 1) / 100 == if q < 24 then c else c + 1;
    }
  }

  /** The closed formula for the year picks the same year as counting centuries and leap cycles. */
  lemma PlacedYear(doe: int, c: int, q: int, k: int, u: int)
    requires 0 <= doe < ERA_DAYS && Placed(doe, c, q, k, u)
    ensures YearOfEra(doe) == 100 * c + 4 * q + k
  {
    assert doe / 36524 - doe / 146_096 == c;
    var rest := 365 * k + u;
    var w := (24 * c + q + rest) / 1460;
    assert doe == 1460 * (25 * c + q) + (24 * c + q + rest);
    assert doe / 1460 == 25 * c + q + w;
    assert 0 <= w <= 1 && (w == 1 ==> rest >= 1364);
    assert doe - doe / 1460 + doe / 36524 - doe / 146_096 == 365 * (100 * c + 4 * q + k) + (u - w);
    assert 0 <= u - w < 365;
  }

  lemma YearOfEraCorrect(doe: int)
    requires 0 <= doe < ERA_DAYS
    ensures 0 <= YearOfEra(doe) < 400
    ensures YearStart(YearOfEra(doe)) <= doe
    ensures doe < YearStart(YearOfEra(doe) + 1) || (YearOfEra(doe) == 399 && doe == 146_096)
  {
    var c, q, k, u := Place(doe);
    PlacedYear(doe, c, q, k, u);
    PlacedYearStart(c, q, k);
  }

  lemma MonthCorrect(doy: int)
    requires 0 <= doy <= 365
    ensures 0 <= MonthOf(doy) <= 11
    ensures MonthStart(MonthOf(doy)) <= doy < MonthStart(MonthOf(doy) + 1)
  {
  }

  function YearLen(yoe: int): int { YearStart(yoe + 1) - YearStart(yoe) + if yoe == 399 then 1 else 0 }

  /** The day lies in this era, March-based year and day of that year. */
  ghost predicate Located(days: int, era: int, yoe: int, doy: int) {
    0 <= yoe < 400 && 0 <= doy < YearLen(yoe) && days + 719_468 == era * ERA_DAYS + YearStart(yoe) + doy
  }

  function DateAt(era: int, yoe: int, doy: int): Date {
    var mp := MonthOf(doy);
    var m := mp + if mp < 10 then 3 else -9;
    Date(yoe + era * 400 + if m <= 2 then 1 else 0, m, doy - MonthStart(mp) + 1)
  }

  lemma LocateInEra(doe: int)
    requires 0 <= doe < ERA_DAYS
    ensures 0 <= YearOfEra(doe) < 400 && 0 <= doe - YearStart(YearOfEra(doe)) < YearLen(YearOfEra(doe))
  {
    YearOfEraCorrect(doe);
    hide YearOfEra;
    assert YearStart(400) == 146_096;
  }

  lemma Locate(days: int) returns (era: int, yoe: int, doy: int)
    ensures Located(days, era, yoe, doy) && ExactDate(days) == DateAt(era, yoe, doy)
  {
    hide YearStart, YearOfEra, YearLen, MonthOf, MonthStart, TruncDiv;
    var z := days + 719_468;
    EraIsFloor(z);
    era := TruncDiv(if z >= 0 then z else z - 146_096, ERA_DAYS);
    var doe := z - era * ERA_DAYS;
    LocateInEra(doe);
    yoe := YearOfEra(doe);
    doy := doe - YearStart(yoe);
  }

  lemma YearStartMonotone(a: int, b: int)
    requires 0 <= a <= b
    ensures YearStart(a) <= YearStart(b)
  {
    assert a / 100 == a / 4 / 25 && b / 100 == b / 4 / 25;
  }

  lemma YearsDisjoint(a: int, d: int, b: int, e: int)
    requires 0 <= a < 400 && 0 <= d < YearLen(a) && 0 <= b < 400 && 0 <= e < YearLen(b)
    requires YearStart(a) + d == YearStart(b) + e
    ensures a == b && d == e
  {
    if a < b {
      YearStartMonotone(a + 1, b);
    } else if b < a {
      YearStartMonotone(b + 1, a);
    }
  }

  lemma DayOfEraBounds(yoe: int, doy: int)
    requires 0 <= yoe < 400 && 0 <= doy < YearLen(yoe)
    ensures 0 <= YearStart(yoe) + doy < ERA_DAYS
  {
    YearStartMonotone(0, yoe);
    YearStartMonotone(yoe + 1, 400);
    assert YearStart(400) == 146_096;
    if yoe < 399 {
      YearStartMonotone(yoe + 1, 399);
    }
  }

  lemma LocatedDate(days: int, era: int, yoe: int, doy: int)
    requires Located(days, era, yoe, doy)
    ensures ExactDate(days) == DateAt(era, yoe, doy)
  {
    var e, y, d := Locate(days);
    DayOfEraBounds(yoe, doy);
    DayOfEraBounds(y, d);
    assert e == era;
    YearsDisjoint(yoe, doy, y, d);
  }

  lemma YearLenIsLeap(era: int, yoe: int)
    requires 0 <= yoe < 400
    ensures YearLen(yoe) == if Leap(yoe + era * 400 + 1) then 366 else 365
  {
    LeapRepeats(yoe + 1, era);
    CarryAt(yoe, 4);
    CarryAt(yoe, 100);
    LeapInEra(yoe + 1);
  }

  /** The leap rule repeats every 400 years. */
  lemma LeapRepeats(y: int, era: int)
    ensures Leap(y + era * 400) == Leap(y)
  {
    assert (y + era * 400) / 4 == y / 4 + era * 100;
    assert (y + era * 400) / 100 == y / 100 + era * 4;
    assert (y + era * 400) / 400 == y / 400 + era;
  }

  lemma CarryAt(y: int, m: int)
    requires m == 4 || m == 100 || m == 400
    ensures (y + 1) / m == y / m + if (y + 1) % m == 0 then 1 else 0
  {
  }

  lemma LeapInEra(y: int)
    requires 1 <= y <= 400
    ensures Leap(y) <==> y % 4 == 0 && (y % 100 != 0 || y == 400)
  {
  }

  /** Every month but February ends where the next one starts. */
  lemma MonthLengths(mp: int, y: int)
    requires 0 <= mp <= 10
    ensures MonthStart(mp + 1) - MonthStart(mp) == DaysInMonth(y, mp + if mp < 10 then 3 else -9)
    ensures MonthStart(11) == 337 && MonthStart(0) == 0
  {
    assert mp in {0, 1, 2, 3, 4, 5, 6, 7, 8, 9, 10};
  }

  /** A month ends where the next one starts; February, the last of the March-based year, ends with the year. */
  lemma MonthEnd(era: int, yoe: int, doy: int)
    requires 0 <= yoe < 400 && 0 <= doy < YearLen(yoe)
    ensures 0 <= MonthOf(doy) <= 11 && MonthStart(MonthOf(doy)) <= doy
    ensures var mp, date := MonthOf(doy), DateAt(era, yoe, doy); var end := if mp < 11 then MonthStart(mp + 1)
      else YearLen(yoe);
      doy < end && DaysInMonth(date.year, date.month) == end - MonthStart(mp)
    ensures YearLen(yoe) <= 366 && MonthStart(12) == 367 && MonthStart(11) == 337
  {
    YearLenIsLeap(era, yoe);
    MonthCorrect(doy);
    hide Leap, YearLen, MonthOf;
    var mp := MonthOf(doy);
    if mp < 11 {
      MonthLengths(mp, DateAt(era, yoe, doy).year);
    }
  }

  lemma DateAtNextDay(era: int, yoe: int, doy: int)
    requires 0 <= yoe < 400 && 0 <= doy < YearLen(yoe)
    ensures ValidDate(DateAt(era, yoe, doy))
    ensures doy + 1 < YearLen(yoe) ==> DateAt(era, yoe, doy + 1) == Tomorrow(DateAt(era, yoe, doy))
    ensures doy + 1 == YearLen(yoe) ==> Tomorrow(DateAt(era, yoe, doy)) == Date(yoe + era * 400 + 1, 3, 1)
  {
    MonthEnd(era, yoe, doy);
    LastDayOfYear(era, yoe, doy);
    hide YearLen, MonthOf, MonthStart, DaysInMonth;
    if doy + 1 < YearLen(yoe) {
      MonthsAdjacent(doy);
    }
  }

  lemma LastDayOfYear(era: int, yoe: int, doy: int)
    requires 0 <= yoe < 400 && 0 <= doy < YearLen(yoe)
    ensures doy + 1 == YearLen(yoe) ==> MonthOf(doy) == 11
  {
    YearLenIsLeap(era, yoe);
  }

  lemma MonthsAdjacent(doy: int)
    requires 0 <= doy < 365
    ensures MonthOf(doy + 1) == if doy + 1 < MonthStart(MonthOf(doy) + 1) then MonthOf(doy) else MonthOf(doy) + 1
    ensures doy + 1 == MonthStart(MonthOf(doy) + 1) ==> MonthStart(MonthOf(doy + 1)) == doy + 1
  {
    MonthCorrect(doy);
    MonthCorrect(doy + 1);
  }

  // ---------------------------------------------------------------- what the conversion is

  /**
   The conversion is the calendar: it starts at 1 January 1970, every day has a valid date, and each day's
   date is followed by the next one's.
   */
  lemma FollowsCalendar(days: int)
    ensures ExactDate(0) == Date(1970, 1, 1)
    ensures ValidDate(ExactDate(days))
    ensures ExactDate(days + 1) == Tomorrow(ExactDate(days))
  {
    EpochDate();
    hide ExactDate, DateAt, Tomorrow, ValidDate;
    var era, yoe, doy := Locate(days);
    DateAtNextDay(era, yoe, doy);
    if doy + 1 < YearLen(yoe) {
      LocatedDate(days + 1, era, yoe, doy + 1);
    } else if yoe < 399 {
      YearLenIsLeap(era, yoe + 1);
      FirstOfMarch(era, yoe + 1);
      LocatedDate(days + 1, era, yoe + 1, 0);
    } else {
      assert YearStart(400) == 146_096;
      FirstOfMarch(era + 1, 0);
      LocatedDate(days + 1, era + 1, 0, 0);
    }
  }

  lemma EpochDate()
    ensures ExactDate(0) == Date(1970, 1, 1)
  {
  }

  lemma FirstOfMarch(era: int, yoe: int)
    ensures DateAt(era, yoe, 0) == Date(yoe + era * 400, 3, 1)
  {
  }

  // ---------------------------------------------------------------- counting days

  function DaysBeforeYear(y: int): int {
    365 * (y - 1970) + (y - 1) / 4 - (y - 1) / 100 + (y - 1) / 400 - 477
  }

  function DaysBeforeMonth(y: int, m: int): int
    decreases m
  {
    if m <= 1 then 0 else DaysBeforeMonth(y, m - 1) + DaysInMonth(y, m - 1)
  }

  /** Days from 1970-01-01 to a date, by counting whole years, whole months and days. */
  function DaysFromCivil(d: Date): int {
    DaysBeforeYear(d.year) + DaysBeforeMonth(d.year, d.month) + d.day - 1
  }

  lemma YearLength(y: int)
    ensures DaysBeforeYear(y + 1) - DaysBeforeYear(y) == if Leap(y) then 366 else 365
    ensures DaysBeforeMonth(y, 13) == if Leap(y) then 366 else 365
  {
    MonthsOfYear(y);
    LeapDays(y);
  }

  lemma LeapDays(y: int)
    ensures y / 4 - y / 100 + y / 400 == (y - 1) / 4 - (y - 1) / 100 + (y - 1) / 400 + if Leap(y) then 1 else 0
  {
    CarryAt(y - 1, 4);
    CarryAt(y - 1, 100);
    CarryAt(y - 1, 400);
    DividesDown(y);
  }

  lemma DividesDown(y: int)
    ensures y % 400 == 0 ==> y % 100 == 0
    ensures y % 100 == 0 ==> y % 4 == 0
  {
    WholeHundreds(4 * (y / 400));
    WholeFours(25 * (y / 100));
  }

  lemma WholeHundreds(k: int)
    ensures 100 * k % 100 == 0
  {
  }

  lemma WholeFours(k: int)
    ensures 4 * k % 4 == 0
  {
  }

  lemma MonthsOfYear(y: int)
    ensures DaysBeforeMonth(y, 13) == if Leap(y) then 366 else 365
  {
    hide Leap;
    assert DaysBeforeMonth(y, 3) == 31 + DaysInMonth(y, 2);
    assert DaysBeforeMonth(y, 5) == DaysBeforeMonth(y, 3) + 61;
    assert DaysBeforeMonth(y, 7) == DaysBeforeMonth(y, 5) + 61;
    assert DaysBeforeMonth(y, 9) == DaysBeforeMonth(y, 7) + 62;
    assert DaysBeforeMonth(y, 11) == DaysBeforeMonth(y, 9) + 61;
  }

  lemma CountsUp(d: Date)
    requires ValidDate(d)
    ensures DaysFromCivil(Tomorrow(d)) == DaysFromCivil(d) + 1
  {
    YearLength(d.year);
    hide DaysBeforeYear, Leap;
  }

  /** Counting the days up to a day's date gives the day back. */
  lemma {:induction false} CountsBack(days: int)
    ensures DaysFromCivil(ExactDate(days)) == days
    decreases if days < 0 then -days else days
  {
    hide ExactDate, Tomorrow, ValidDate;
    if days > 0 {
      CountsBack(days - 1);
      FollowsCalendar(days - 1);
      CountsUp(ExactDate(days - 1));
    } else if days < 0 {
      CountsBack(days + 1);
      FollowsCalendar(days);
      CountsUp(ExactDate(days));
    } else {
      EpochDate();
      assert DaysBeforeYear(1970) == 0 && DaysBeforeMonth(1970, 1) == 0;
    }
  }

  predicate Earlier(a: Date, b: Date) {
    a.year < b.year || (a.year == b.year && (a.month < b.month || (a.month == b.month && a.day < b.day)))
  }

  lemma {:induction false} YearsMonotone(a: int, b: int)
    requires a <= b
    ensures DaysBeforeYear(a) <= DaysBeforeYear(b)
    decreases b - a
  {
    if a < b {
      YearLength(b - 1);
      YearsMonotone(a, b - 1);
    }
  }

  lemma {:induction false} MonthsMonotone(y: int, m: int, n: int)
    requires 1 <= m < n
    ensures DaysBeforeMonth(y, m) + DaysInMonth(y, m) <= DaysBeforeMonth(y, n)
    decreases n
  {
    if m < n - 1 {
      MonthsMonotone(y, m, n - 1);
    }
  }

  lemma CountIsMonotone(a: Date, b: Date)
    requires ValidDate(a) && ValidDate(b) && Earlier(a, b)
    ensures DaysFromCivil(a) < DaysFromCivil(b)
  {
    if a.year < b.year {
      YearLength(a.year);
      YearsMonotone(a.year + 1, b.year);
      MonthsMonotone(a.year, a.month, 13);
      BeforeMonthNonNegative(b.year, b.month);
    } else if a.month < b.month {
      MonthsMonotone(a.year, a.month, b.month);
    }
  }

  lemma {:induction false} BeforeMonthNonNegative(y: int, m: int)
    ensures DaysBeforeMonth(y, m) >= 0
    decreases m
  {
    if m > 1 {
      BeforeMonthNonNegative(y, m - 1);
    }
  }

  /** Later days have later dates. */
  lemma DatesIncrease(a: int, b: int)
    requires a < b
    ensures Earlier(ExactDate(a), ExactDate(b))
  {
    FollowsCalendar(a);
    FollowsCalendar(b);
    hide ExactDate, DaysFromCivil;
    CountsBack(a);
    CountsBack(b);
    if Earlier(ExactDate(b), ExactDate(a)) {
      CountIsMonotone(ExactDate(b), ExactDate(a));
    }
  }

  /** Every valid date is the date of the day its count says. */
  lemma EveryDateReached(d: Date)
    requires ValidDate(d)
    ensures ExactDate(DaysFromCivil(d)) == d
  {
    hide ExactDate, DaysFromCivil;
    var e := ExactDate(DaysFromCivil(d));
    FollowsCalendar(DaysFromCivil(d));
    CountsBack(DaysFromCivil(d));
    if Earlier(e, d) {
      CountIsMonotone(e, d);
    } else if Earlier(d, e) {
      CountIsMonotone(d, e);
    }
  }

  /** The last day whose year fits 32 bits. */
  const LAST_DAY := 784_351_576_776

  /** From 1970 on, the 32-bit year is the right one up to the end of year 2147483647 and wrong from then on. */
  lemma CastIsExact(days: int)
    requires days >= 0
    ensures CivilFromDays(days) == ExactDate(days) <==> days <= LAST_DAY
  {
    hide ExactDate, AsI32;
    YearsReached(days);
    CastFits(ExactDate(days).year);
  }

  lemma CastFits(x: int)
    ensures AsI32(x) == x <==> -0x8000_0000 <= x <= 0x7FFF_FFFF
  {
  }

  lemma YearsReached(days: int)
    requires days >= 0
    ensures ExactDate(days).year >= 1970
    ensures ExactDate(days).year <= 0x7FFF_FFFF <==> days <= LAST_DAY
  {
    hide ExactDate, DaysFromCivil;
    LastDay();
    EpochDate();
    YearAtMost(days, 0x7FFF_FFFF);
    if days > 0 {
      DatesIncrease(0, days);
    }
  }

  /** A year is over exactly after its 31 December. */
  lemma YearAtMost(days: int, y: int)
    ensures ExactDate(days).year <= y <==> days <= DaysFromCivil(Date(y, 12, 31))
  {
    hide ExactDate, DaysFromCivil, Tomorrow;
    var last := Date(y, 12, 31);
    EveryDateReached(last);
    FollowsCalendar(days);
    if days < DaysFromCivil(last) {
      DatesIncrease(days, DaysFromCivil(last));
    } else if days > DaysFromCivil(last) {
      DatesIncrease(DaysFromCivil(last), days);
    }
  }

  lemma LastDay()
    ensures DaysFromCivil(Date(0x7FFF_FFFF, 12, 31)) == LAST_DAY
  {
    YearLength(0x7FFF_FFFF);
    assert DaysBeforeYear(0x8000_0000) == LAST_DAY + 1;
    assert DaysBeforeMonth(0x7FFF_FFFF, 13) == DaysBeforeMonth(0x7FFF_FFFF, 12) + 31;
  }
}
