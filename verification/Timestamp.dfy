/** RFC 3339 timestamps of exported entries (blindkey-cli/src/export.rs). */
module Timestamps {
  import opened Bytes
  import opened Civil
  import opened Decimal

  const DAY_SECONDS := 86_400

  // ---------------------------------------------------------------- formatting

  /** Hour, minute and second of a day. */
  function TimeText(rem: int): string
    requires 0 <= rem < DAY_SECONDS
  {
    Padded(rem / 3600, 2) + (":" + (Padded(rem % 3600 / 60, 2) + (":" + (Padded(rem % 60, 2) + "Z"))))
  }

  function DateThen(d: Date, time: string): string {
    Padded(d.year, 4) + ("-" + (Padded(d.month, 2) + ("-" + (Padded(d.day, 2) + ("T" + time)))))
  }

  /** `None` stands for the error before the epoch. */
  function Rfc3339Utc(secs: int): Option<string> {
    if secs < 0 then None
    else Some(DateThen(CivilFromDays(secs / DAY_SECONDS), TimeText(secs % DAY_SECONDS)))
  }

  /** The last second whose year fits 32 bits. */
  const LAST_SECOND := LAST_DAY * DAY_SECONDS + (DAY_SECONDS - 1)

  lemma DayFits(secs: int)
    requires 0 <= secs <= LAST_SECOND
    ensures 0 <= secs / DAY_SECONDS <= LAST_DAY
    ensures CivilFromDays(secs / DAY_SECONDS) == ExactDate(secs / DAY_SECONDS)
    ensures ValidDate(ExactDate(secs / DAY_SECONDS)) && ExactDate(secs / DAY_SECONDS).year >= 1970
  {
    hide ExactDate, ValidDate, Tomorrow, CivilFromDays;
    CastIsExact(secs / DAY_SECONDS);
    YearsReached(secs / DAY_SECONDS);
    FollowsCalendar(secs / DAY_SECONDS);
  }

  // ---------------------------------------------------------------- comparing strings

  /** The usual order of strings. */
  predicate LexLess(a: string, b: string) {
    if b == "" then false
    else if a == "" then true
    else a[0] < b[0] || (a[0] == b[0] && LexLess(a[1..], b[1..]))
  }

  lemma {:induction false} LexCommonPrefix(p: string, a: string, b: string)
    ensures LexLess(p + a, p + b) <==> LexLess(a, b)
  {
    if p == "" {
      assert p + a == a && p + b == b;
    } else {
      assert (p + a)[1..] == p[1..] + a && (p + b)[1..] == p[1..] + b;
      LexCommonPrefix(p[1..], a, b);
    }
  }

  lemma {:induction false} LexExtends(a: string, b: string, x: string, y: string)
    requires |a| == |b| && LexLess(a, b)
    ensures LexLess(a + x, b + y)
  {
    assert (a + x)[1..] == a[1..] + x && (b + y)[1..] == b[1..] + y;
    if a[0] == b[0] {
      LexExtends(a[1..], b[1..], x, y);
    }
  }

  lemma {:induction false} LexIrreflexive(a: string)
    ensures !LexLess(a, a)
  {
    if a != "" {
      LexIrreflexive(a[1..]);
    }
  }

  lemma {:induction false} DigitsOrdered(m: nat, n: nat, width: nat)
    requires m < n < Pow10(width)
    ensures |Digits(m, width)| == |Digits(n, width)| == width
    ensures LexLess(Digits(m, width), Digits(n, width))
    decreases width
  {
    DigitsFit(m, width);
    DigitsFit(n, width);
    if width > 1 {
      DigitsFit(m / 10, width - 1);
      DigitsFit(n / 10, width - 1);
      if m / 10 < n / 10 {
        DigitsOrdered(m / 10, n / 10, width - 1);
        LexExtends(Digits(m / 10, width - 1), Digits(n / 10, width - 1), [Digit(m % 10)], [Digit(n % 10)]);
      } else {
        LexCommonPrefix(Digits(m / 10, width - 1), [Digit(m % 10)], [Digit(n % 10)]);
      }
    } else {
      assert Pow10(1) == 10;
    }
  }

  /** A fixed-width field decides the order, unless it is equal; then what follows does. */
  lemma FieldOrdered(m: nat, n: nat, width: nat, x: string, y: string)
    requires m < Pow10(width) && n < Pow10(width) && 0 < width
    ensures m < n ==> LexLess(Digits(m, width) + x, Digits(n, width) + y)
    ensures m == n ==> (LexLess(Digits(m, width) + x, Digits(n, width) + y) <==> LexLess(x, y))
  {
    if m < n {
      DigitsOrdered(m, n, width);
      LexExtends(Digits(m, width), Digits(n, width), x, y);
    } else if m == n {
      LexCommonPrefix(Digits(m, width), x, y);
    }
  }

  /** A later second of the day has a later hour, or else minute, or else second. */
  lemma TimeFields(a: nat, b: nat)
    requires a < b < DAY_SECONDS
    ensures a / 3600 < 24 && a % 3600 / 60 < 60 && b / 3600 < 24 && b % 3600 / 60 < 60
    ensures a / 3600 <= b / 3600 && (a / 3600 == b / 3600 ==> a % 3600 / 60 <= b % 3600 / 60)
    ensures a / 3600 == b / 3600 && a % 3600 / 60 == b % 3600 / 60 ==> a % 60 < b % 60
  {
    SecondsOfHour(a);
    SecondsOfHour(b);
    var h, i, x, y := a / 3600, b / 3600, a % 3600, b % 3600;
    assert a == 3600 * h + x && b == 3600 * i + y;
  }

  lemma SecondsOfHour(a: nat)
    ensures a % 60 == a % 3600 % 60
  {
    var h, x := a / 3600, a % 3600;
    QuotientUnique(a, 60 * h + x / 60, x % 60, 60);
  }

  lemma TimeOrdered(a: nat, b: nat)
    requires a < b < DAY_SECONDS
    ensures LexLess(TimeText(a), TimeText(b))
  {
    TimeFields(a, b);
    var h, i := a / 3600, b / 3600;
    var m, n := a % 3600 / 60, b % 3600 / 60;
    var s, t := a % 60, b % 60;
    assert Pow10(2) == 100;
    hide Digits, Pow10, LexLess;
    var minuteA, minuteB := Digits(s, 2) + "Z", Digits(t, 2) + "Z";
    var hourA, hourB := Digits(m, 2) + (":" + minuteA), Digits(n, 2) + (":" + minuteB);
    FieldOrdered(s, t, 2, "Z", "Z");
    LexCommonPrefix(":", minuteA, minuteB);
    FieldOrdered(m, n, 2, ":" + minuteA, ":" + minuteB);
    LexCommonPrefix(":", hourA, hourB);
    FieldOrdered(h, i, 2, ":" + hourA, ":" + hourB);
  }

  /** While years have four digits, earlier dates come first, and equal ones leave it to the time. */
  lemma DateOrdered(a: Date, b: Date, x: string, y: string)
    requires ValidDate(a) && ValidDate(b) && 0 <= a.year <= 9999 && 0 <= b.year <= 9999
    ensures Earlier(a, b) || (a == b && LexLess(x, y)) ==> LexLess(DateThen(a, x), DateThen(b, y))
  {
    assert Pow10(2) == 100;
    assert Pow10(4) == 100 * Pow10(2);
    hide Digits, Pow10, LexLess;
    var dayA, dayB := Digits(a.day, 2) + ("T" + x), Digits(b.day, 2) + ("T" + y);
    var monthA, monthB := Digits(a.month, 2) + ("-" + dayA), Digits(b.month, 2) + ("-" + dayB);
    LexCommonPrefix("T", x, y);
    FieldOrdered(a.day, b.day, 2, "T" + x, "T" + y);
    LexCommonPrefix("-", dayA, dayB);
    FieldOrdered(a.month, b.month, 2, "-" + dayA, "-" + dayB);
    LexCommonPrefix("-", monthA, monthB);
    FieldOrdered(a.year, b.year, 4, "-" + monthA, "-" + monthB);
  }

  // ---------------------------------------------------------------- order and injectivity

  /** The first second of the year 10000. */
  const YEAR_10000 := 253_402_300_800

  lemma FourDigitYear(secs: int)
    requires 0 <= secs < YEAR_10000
    ensures 0 <= secs <= LAST_SECOND && ExactDate(secs / DAY_SECONDS).year <= 9999
  {
    hide ExactDate, DaysFromCivil;
    LastOf9999();
    YearAtMost(secs / DAY_SECONDS, 9999);
  }

  lemma TextOf(secs: int)
    requires 0 <= secs <= LAST_SECOND
    ensures ValidDate(ExactDate(secs / DAY_SECONDS)) && ExactDate(secs / DAY_SECONDS).year >= 1970
    ensures Rfc3339Utc(secs) == Some(DateThen(ExactDate(secs / DAY_SECONDS), TimeText(secs % DAY_SECONDS)))
  {
    DayFits(secs);
    hide ExactDate, ValidDate, DateThen, TimeText, CivilFromDays;
  }

  lemma DayThenTime(s: int, t: int)
    requires 0 <= s < t
    ensures s / DAY_SECONDS < t / DAY_SECONDS
      || (s / DAY_SECONDS == t / DAY_SECONDS && s % DAY_SECONDS < t % DAY_SECONDS)
  {
  }

  lemma TextOrdered(s: int, t: int)
    requires 0 <= s < t < YEAR_10000
    ensures LexLess(Rfc3339Utc(s).value, Rfc3339Utc(t).value)
  {
    FourDigitYear(s);
    FourDigitYear(t);
    TextOf(s);
    TextOf(t);
    DayThenTime(s, t);
    hide ExactDate, ValidDate, DateThen, TimeText, LexLess, Rfc3339Utc;
    var d, e, x, y := s / DAY_SECONDS, t / DAY_SECONDS, s % DAY_SECONDS, t % DAY_SECONDS;
    if d < e {
      DatesIncrease(d, e);
    } else {
      TimeOrdered(x, y);
    }
    DateOrdered(ExactDate(d), ExactDate(e), TimeText(x), TimeText(y));
  }

  lemma LastFourDigitSecond()
    ensures Rfc3339Utc(YEAR_10000 - 1) == Some("9999-12-31T23:59:59Z")
    ensures Rfc3339Utc(YEAR_10000) == Some("10000-01-01T00:00:00Z")
  {
    DatesAround10000();
    TextsAround10000();
    SomeTimes();
    hide CivilFromDays, TimeText, DateThen;
    assert (YEAR_10000 - 1) / DAY_SECONDS == 2_932_896 && (YEAR_10000 - 1) % DAY_SECONDS == 86_399;
    assert YEAR_10000 / DAY_SECONDS == 2_932_897 && YEAR_10000 % DAY_SECONDS == 0;
  }

  lemma DatesAround10000()
    ensures CivilFromDays(2_932_896) == Date(9999, 12, 31)
    ensures CivilFromDays(2_932_897) == Date(10_000, 1, 1)
  {
    hide ExactDate, CivilFromDays;
    LastOf9999();
    EveryDateReached(Date(9999, 12, 31));
    FollowsCalendar(2_932_896);
    CastIsExact(2_932_896);
    CastIsExact(2_932_897);
  }

  lemma LastOf9999()
    ensures DaysFromCivil(Date(9999, 12, 31)) == 2_932_896 == YEAR_10000 / DAY_SECONDS - 1
  {
    YearLength(9999);
    assert DaysBeforeYear(10_000) == YEAR_10000 / DAY_SECONDS;
    assert DaysBeforeMonth(9999, 13) == DaysBeforeMonth(9999, 12) + 31;
  }

  lemma TextsAround10000()
    ensures DateThen(Date(9999, 12, 31), "23:59:59Z") == "9999-12-31T23:59:59Z"
    ensures DateThen(Date(10_000, 1, 1), "00:00:00Z") == "10000-01-01T00:00:00Z"
  {
    SomeDigits();
    hide Digits;
  }

  lemma SomeTimes()
    ensures TimeText(86_399) == "23:59:59Z" && TimeText(0) == "00:00:00Z"
  {
    SomeDigits();
    hide Digits;
  }

  /** The year 10000 sorts before the year 9999. */
  lemma FiveDigitsSortFirst()
    ensures LexLess("10000-01-01T00:00:00Z", "9999-12-31T23:59:59Z")
    ensures !LexLess("9999-12-31T23:59:59Z", "10000-01-01T00:00:00Z")
  {
  }

  lemma SomeDigits()
    ensures Digits(9999, 4) == "9999" && Digits(10_000, 4) == "10000"
    ensures Digits(12, 2) == "12" && Digits(31, 2) == "31" && Digits(1, 2) == "01"
    ensures Digits(23, 2) == "23" && Digits(59, 2) == "59" && Digits(0, 2) == "00"
  {
    assert Digits(9, 1) == "9" && Digits(99, 2) == "99" && Digits(999, 3) == "999";
    assert Digits(1, 0) == "1" && Digits(10, 1) == "10" && Digits(100, 2) == "100" && Digits(1000, 3) == "1000";
  }

  lemma TwoDigits(n: nat)
    requires n < 100
    ensures |Digits(n, 2)| == 2 && Value(Digits(n, 2)) == n
  {
    assert Pow10(2) == 100;
    DigitsFit(n, 2);
    ValueOfDigits(n, 2);
  }

  lemma TimeSlices(h: string, m: string, s: string)
    requires |h| == |m| == |s| == 2
    ensures var x := h + (":" + (m + (":" + (s + "Z"))));
      && |x| == 9 && x[2] == ':' && x[5] == ':' && x[8] == 'Z' && x[..2] == h && x[3..5] == m && x[6..8] == s
  {
  }

  lemma TimeLayout(rem: nat)
    requires rem < DAY_SECONDS
    ensures var x := TimeText(rem);
      && |x| == 9 && x[2] == ':' && x[5] == ':' && x[8] == 'Z'
      && Value(x[..2]) == rem / 3600 && Value(x[3..5]) == rem / 60 % 60 && Value(x[6..8]) == rem % 60
  {
    MinuteOfHour(rem);
    var h, m, s := rem / 3600, rem % 3600 / 60, rem % 60;
    TwoDigits(h);
    TwoDigits(m);
    TwoDigits(s);
    hide Digits, Value;
    assert TimeText(rem) == Digits(h, 2) + (":" + (Digits(m, 2) + (":" + (Digits(s, 2) + "Z"))));
    hide TimeText;
    TimeSlices(Digits(h, 2), Digits(m, 2), Digits(s, 2));
  }

  lemma MinuteOfHour(rem: nat)
    requires rem < DAY_SECONDS
    ensures rem / 3600 < 100 && rem % 3600 / 60 < 100 && rem % 3600 / 60 == rem / 60 % 60
  {
    var h, x := rem / 3600, rem % 3600;
    QuotientUnique(rem, 60 * h + x / 60, x % 60, 60);
    QuotientUnique(60 * h + x / 60, h, x / 60, 60);
  }

  lemma DateSlices(y: string, m: string, d: string, time: string)
    requires |y| == 4 && |m| == |d| == 2
    ensures var x := y + ("-" + (m + ("-" + (d + ("T" + time)))));
      && |x| == 11 + |time| && x[4] == '-' && x[7] == '-' && x[10] == 'T' && x[11..] == time
      && x[..4] == y && x[5..7] == m && x[8..10] == d
  {
  }

  lemma DateLayout(d: Date, time: string)
    requires 0 <= d.year <= 9999 && 0 <= d.month < 100 && 0 <= d.day < 100
    ensures var x := DateThen(d, time);
      && |x| == 11 + |time| && x[4] == '-' && x[7] == '-' && x[10] == 'T' && x[11..] == time
      && Value(x[..4]) == d.year && Value(x[5..7]) == d.month && Value(x[8..10]) == d.day
  {
    assert Pow10(2) == 100 && Pow10(4) == 100 * Pow10(2);
    DigitsFit(d.year, 4);
    ValueOfDigits(d.year, 4);
    TwoDigits(d.month);
    TwoDigits(d.day);
    hide Digits, Value, Pow10;
    DateSlices(Digits(d.year, 4), Digits(d.month, 2), Digits(d.day, 2), time);
  }

  /** `YYYY-MM-DDTHH:MM:SSZ`: which date and time of day a timestamp names, digit by digit. */
  lemma TextLayout(secs: nat)
    requires secs < YEAR_10000
    ensures Rfc3339Utc(secs).Some? && |Rfc3339Utc(secs).value| == 20
    ensures var x, d := Rfc3339Utc(secs).value, ExactDate(secs / DAY_SECONDS);
      && Value(x[..4]) == d.year && Value(x[5..7]) == d.month && Value(x[8..10]) == d.day
      && Value(x[11..13]) == secs / 3600 % 24 && Value(x[14..16]) == secs / 60 % 60 && Value(x[17..19]) == secs % 60
      && x[4] == x[7] == '-' && x[10] == 'T' && x[13] == x[16] == ':' && x[19] == 'Z'
  {
    DayFits(secs);
    FourDigitYear(secs);
    var rem := secs % DAY_SECONDS;
    var d := CivilFromDays(secs / DAY_SECONDS);
    assert 1 <= d.month <= 12 && 1 <= d.day <= 31;
    TimeLayout(rem);
    DateLayout(d, TimeText(rem));
    OfDay(secs);
    hide CivilFromDays, ExactDate, TimeText, DateThen, Value, Digits;
    TimeBehindDate(Rfc3339Utc(secs).value, TimeText(rem));
  }

  lemma TimeBehindDate(x: string, time: string)
    requires |time| == 9 && |x| == 20 && x[11..] == time
    ensures x[11..13] == time[..2] && x[14..16] == time[3..5] && x[17..19] == time[6..8]
    ensures x[13] == time[2] && x[16] == time[5] && x[19] == time[8]
  {
  }

  lemma OfDay(secs: nat)
    ensures var rem := secs % DAY_SECONDS;
      && rem / 3600 == secs / 3600 % 24 && rem / 60 % 60 == secs / 60 % 60 && rem % 60 == secs % 60
  {
    var n, rem := secs / DAY_SECONDS, secs % DAY_SECONDS;
    QuotientUnique(secs, 24 * n + rem / 3600, rem % 3600, 3600);
    QuotientUnique(24 * n + rem / 3600, n, rem / 3600, 24);
    QuotientUnique(secs, 1440 * n + rem / 60, rem % 60, 60);
    QuotientUnique(1440 * n + rem / 60, 24 * n + rem / 60 / 60, rem / 60 % 60, 60);
  }

  /** Sorting timestamps as text sorts them by time exactly as long as no year has five digits. */
  lemma TextOrderExactly(n: nat)
    ensures (forall s, t :: 0 <= s < t <= n ==> LexLess(Rfc3339Utc(s).value, Rfc3339Utc(t).value)) <==> n < YEAR_10000
  {
    if n < YEAR_10000 {
      forall s, t | 0 <= s < t <= n ensures LexLess(Rfc3339Utc(s).value, Rfc3339Utc(t).value) {
        TextOrdered(s, t);
      }
    } else {
      LastFourDigitSecond();
      FiveDigitsSortFirst();
      hide Rfc3339Utc, LexLess;
      assert !LexLess(Rfc3339Utc(YEAR_10000 - 1).value, Rfc3339Utc(YEAR_10000).value);
    }
  }

  lemma StringSplit(a: string, x: string, b: string, y: string)
    requires |a| == |b| && a + x == b + y
    ensures a == b && x == y
  {
    assert a == (a + x)[..|a|] && b == (b + y)[..|b|];
    assert x == (a + x)[|a|..] && y == (b + y)[|b|..];
  }

  lemma FieldInjective(m: nat, n: nat, width: nat, x: string, y: string)
    requires |x| == |y| && Digits(m, width) + x == Digits(n, width) + y
    ensures m == n && x == y
  {
    var a, b := Digits(m, width), Digits(n, width);
    assert |a + x| == |b + y|;
    StringSplit(a, x, b, y);
    ValueOfDigits(m, width);
    ValueOfDigits(n, width);
  }

  lemma TimeInjective(a: nat, b: nat)
    requires a < DAY_SECONDS && b < DAY_SECONDS
    ensures |TimeText(a)| == |TimeText(b)| == 9
    ensures TimeText(a) == TimeText(b) ==> a == b
  {
    assert Pow10(2) == 100;
    DigitsFit(a / 3600, 2);
    DigitsFit(a % 3600 / 60, 2);
    DigitsFit(a % 60, 2);
    DigitsFit(b / 3600, 2);
    DigitsFit(b % 3600 / 60, 2);
    DigitsFit(b % 60, 2);
    hide Digits, Pow10;
    if a < b {
      TimeOrdered(a, b);
      LexIrreflexive(TimeText(a));
    } else if b < a {
      TimeOrdered(b, a);
      LexIrreflexive(TimeText(a));
    }
  }

  lemma DateInjective(a: Date, b: Date, x: string, y: string)
    requires ValidDate(a) && ValidDate(b) && 0 <= a.year && 0 <= b.year && |x| == |y|
    requires DateThen(a, x) == DateThen(b, y)
    ensures a == b && x == y
  {
    assert Pow10(2) == 100;
    DigitsFit(a.day, 2);
    DigitsFit(b.day, 2);
    DigitsFit(a.month, 2);
    DigitsFit(b.month, 2);
    hide Digits, Pow10, ValidDate;
    var dayA, dayB := Digits(a.day, 2) + ("T" + x), Digits(b.day, 2) + ("T" + y);
    var monthA, monthB := Digits(a.month, 2) + ("-" + dayA), Digits(b.month, 2) + ("-" + dayB);
    FieldInjective(a.year, b.year, 4, "-" + monthA, "-" + monthB);
    StringSplit("-", monthA, "-", monthB);
    FieldInjective(a.month, b.month, 2, "-" + dayA, "-" + dayB);
    StringSplit("-", dayA, "-", dayB);
    FieldInjective(a.day, b.day, 2, "T" + x, "T" + y);
    StringSplit("T", x, "T", y);
  }

  /** Different seconds have different timestamps, as long as the year fits 32 bits. */
  lemma TextInjective(s: int, t: int)
    requires 0 <= s <= LAST_SECOND && 0 <= t <= LAST_SECOND
    requires Rfc3339Utc(s) == Rfc3339Utc(t)
    ensures s == t
  {
    TextOf(s);
    TextOf(t);
    hide ExactDate, ValidDate, DateThen, TimeText, Rfc3339Utc, DaysFromCivil;
    TimeInjective(s % DAY_SECONDS, t % DAY_SECONDS);
    DateInjective(ExactDate(s / DAY_SECONDS), ExactDate(t / DAY_SECONDS),
                  TimeText(s % DAY_SECONDS), TimeText(t % DAY_SECONDS));
    CountsBack(s / DAY_SECONDS);
    CountsBack(t / DAY_SECONDS);
  }
}
