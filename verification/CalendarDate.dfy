/**
 The archive-date check of scripts/archived-agent-notes.ts (lines 70-78): a date is taken
 apart by a pattern, pushed through `Date.UTC` and read back, after section 21.4.1 of ECMA-262.
 */
module CalendarDate {
  predicate Leap(y: int) {
    y % 4 == 0 && (y % 100 != 0 || y % 400 == 0)
  }

  function DaysInMonth(y: int, m: int): int {
    if m == 2 then if Leap(y) then 29 else 28
    else if m == 4 || m == 6 || m == 9 || m == 11 then 30
    else 31
  }

  function DaysInYear(y: int): int {
    if Leap(y) then 366 else 365
  }

  /** Day number, counted from 1970, of the first day of a year. */
  function DayFromYear(y: nat): int {
    if y == 0 then -719528 else DayFromYear(y - 1) + DaysInYear(y - 1)
  }

  lemma FloorStep(n: int, k: int)
    requires k == 4 || k == 100 || k == 400
    ensures (n + 1) / k - n / k == if (n + 1) % k == 0 then 1 else 0
  {}

  /** It is the closed form of section 21.4.1.3 of ECMA-262. */
  lemma {:induction false} DayFromYearIsStandard(y: nat)
    ensures DayFromYear(y) == 365 * (y - 1970) + (y - 1969) / 4 - (y - 1901) / 100 + (y - 1601) / 400
  {
    if y > 0 {
      DayFromYearIsStandard(y - 1);
      FloorStep(y - 1970, 4);
      FloorStep(y - 1902, 100);
      FloorStep(y - 1602, 400);
      SameRemainders(y - 1);
    }
  }

  lemma SameRemainders(y: int)
    ensures (y - 1968) % 4 == y % 4 && (y - 1900) % 100 == y % 100 && (y - 1600) % 400 == y % 400
    ensures (y % 100 == 0 ==> y % 4 == 0) && (y % 400 == 0 ==> y % 100 == 0)
  {
    Remainder(y - 1968, 4, y / 4 - 492, y % 4);
    Remainder(y - 1900, 100, y / 100 - 19, y % 100);
    Remainder(y - 1600, 400, y / 400 - 4, y % 400);
    if y % 100 == 0 { Remainder(y, 4, 25 * (y / 100), 0); }
    if y % 400 == 0 { Remainder(y, 100, 4 * (y / 400), 0); }
  }

  lemma Remainder(n: int, k: int, q: int, r: int)
    requires (k == 4 || k == 100 || k == 400) && n == k * q + r && 0 <= r < k
    ensures n % k == r
  {}

  /** Days of a year before its month `m`, counted from 0; month 12 is the whole year. */
  function MonthStart(y: int, m: int): int
    requires 0 <= m <= 12
  {
    if m == 0 then 0 else MonthStart(y, m - 1) + DaysInMonth(y, m)
  }

  /** `MakeDay`: months and days outside their ranges run over into other months and years. */
  function MakeDay(y: int, m: int, date: int): int
    requires y + m / 12 >= 0
  {
    DayFromYear(y + m / 12) + MonthStart(y + m / 12, m % 12) + date - 1
  }

  /** `Date.UTC`, as a day number: two-digit years are taken to be in the twentieth century. */
  function UtcDay(y: nat, m: int, date: int): int
    requires m >= -1
  {
    MakeDay(if 0 <= y <= 99 then 1900 + y else y, m, date)
  }

  /** `getUTCFullYear`: the year whose days include this one. */
  function FullYear(day: int, from: nat): (y: nat)
    requires DayFromYear(from) <= day
    ensures DayFromYear(y) <= day < DayFromYear(y + 1)
    decreases day - DayFromYear(from)
  {
    if day < DayFromYear(from + 1) then from else FullYear(day, from + 1)
  }

  /** `getUTCMonth`, from 0. */
  function MonthOf(y: int, dayInYear: int, from: int): (m: int)
    requires 0 <= from <= 11 && MonthStart(y, from) <= dayInYear < MonthStart(y, 12)
    ensures 0 <= m <= 11 && MonthStart(y, m) <= dayInYear < MonthStart(y, m + 1)
    decreases 11 - from
  {
    if dayInYear < MonthStart(y, from + 1) then from else MonthOf(y, dayInYear, from + 1)
  }

  datatype Utc = Utc(year: nat, month: int, date: int)

  /** What the three getters read off a day number from year 0 on. */
  function ReadBack(day: int): (u: Utc)
    requires day >= DayFromYear(0)
    ensures 0 <= u.month <= 11 && 1 <= u.date <= DaysInMonth(u.year, u.month + 1)
    ensures day == DayFromYear(u.year) + MonthStart(u.year, u.month) + u.date - 1
  {
    var y := FullYear(day, 0);
    var d := day - DayFromYear(y);
    YearLength(y);
    var m := MonthOf(y, d, 0);
    Utc(y, m, d - MonthStart(y, m) + 1)
  }

  lemma MonthsOfYear(y: int)
    ensures MonthStart(y, 12) == DaysInYear(y)
  {
    assert MonthStart(y, 1) == 31;
    assert MonthStart(y, 2) == 31 + DaysInMonth(y, 2);
    assert MonthStart(y, 3) == 62 + DaysInMonth(y, 2);
    assert MonthStart(y, 4) == 92 + DaysInMonth(y, 2);
    assert MonthStart(y, 5) == 123 + DaysInMonth(y, 2);
    assert MonthStart(y, 6) == 153 + DaysInMonth(y, 2);
    assert MonthStart(y, 7) == 184 + DaysInMonth(y, 2);
    assert MonthStart(y, 8) == 215 + DaysInMonth(y, 2);
    assert MonthStart(y, 9) == 245 + DaysInMonth(y, 2);
    assert MonthStart(y, 10) == 276 + DaysInMonth(y, 2);
    assert MonthStart(y, 11) == 306 + DaysInMonth(y, 2);
  }

  lemma YearLength(y: nat)
    ensures DayFromYear(y + 1) - DayFromYear(y) == MonthStart(y, 12) == DaysInYear(y)
  {
    MonthsOfYear(y);
  }

  lemma {:induction false} YearsAscend(a: nat, b: nat)
    requires a <= b
    ensures DayFromYear(b) - DayFromYear(a) >= 365 * (b - a)
    decreases b - a
  {
    if a < b {
      YearsAscend(a, b - 1);
      YearLength(b - 1);
    }
  }

  lemma {:induction false} MonthsAscend(y: int, a: int, b: int)
    requires 0 <= a <= b <= 12
    ensures MonthStart(y, b) - MonthStart(y, a) >= 28 * (b - a)
    decreases b - a
  {
    if a < b { MonthsAscend(y, a, b - 1); }
  }

  /** A real date of the Gregorian calendar, months and days counted from 1. */
  predicate Real(y: int, m: int, d: int) {
    1 <= m <= 12 && 1 <= d <= DaysInMonth(y, m)
  }

  /** Reading back is the inverse of numbering, on every real date from year 0 on. */
  lemma ReadBackUndoes(y: nat, m: int, d: int)
    requires Real(y, m, d)
    ensures var day := MakeDay(y, m - 1, d); day >= DayFromYear(0) && ReadBack(day) == Utc(y, m - 1, d)
  {
    var day := MakeDay(y, m - 1, d);
    assert (m - 1) / 12 == 0 && (m - 1) % 12 == m - 1;
    MonthsAscend(y, 0, m - 1);
    MonthsAscend(y, m, 12);
    YearLength(y);
    YearsAscend(0, y);
    var u := ReadBack(day);
    SameDaySameDate(Utc(y, m - 1, d), u);
  }

  predicate Proper(u: Utc) {
    0 <= u.month <= 11 && 1 <= u.date <= DaysInMonth(u.year, u.month + 1)
  }

  function DayNumber(u: Utc): int
    requires Proper(u)
  {
    DayFromYear(u.year) + MonthStart(u.year, u.month) + u.date - 1
  }

  predicate Earlier(a: Utc, b: Utc) {
    a.year < b.year || (a.year == b.year && (a.month < b.month || (a.month == b.month && a.date < b.date)))
  }

  /** Day numbers follow the calendar. */
  lemma EarlierIsLower(a: Utc, b: Utc)
    requires Proper(a) && Proper(b)
    ensures Earlier(a, b) ==> DayNumber(a) < DayNumber(b)
  {
    MonthsAscend(a.year, a.month + 1, 12);
    MonthsAscend(b.year, 0, b.month);
    YearLength(a.year);
    if a.year < b.year {
      YearsAscend(a.year + 1, b.year);
    } else if a.year == b.year && a.month < b.month {
      MonthsAscend(a.year, a.month + 1, b.month);
    }
  }

  lemma SameDaySameDate(a: Utc, b: Utc)
    requires Proper(a) && Proper(b) && DayNumber(a) == DayNumber(b)
    ensures a == b
  {
    EarlierIsLower(a, b);
    EarlierIsLower(b, a);
  }

  predicate Digits(s: string) {
    forall i :: 0 <= i < |s| ==> '0' <= s[i] <= '9'
  }

  function Number(s: string): (n: nat)
    requires Digits(s)
  {
    if s == "" then 0 else 10 * Number(s[..|s| - 1]) + (s[|s| - 1] - '0') as nat
  }

  /** `/^(\d{4})-(\d{2})-(\d{2})$/`. */
  predicate Shaped(value: string) {
    |value| == 10 && Digits(value[..4]) && value[4] == '-' && Digits(value[5..7]) && value[7] == '-' && Digits(value[8..])
  }

  function Year(value: string): nat requires Shaped(value) { Number(value[..4]) }

  function Month(value: string): nat requires Shaped(value) { Number(value[5..7]) }

  function Day(value: string): nat requires Shaped(value) { Number(value[8..]) }

  /** Running over never goes back further than into the year before. */
  lemma MakeDayFloor(y: nat, m: int, d: int)
    requires y >= 1 && m >= -1 && d >= 0
    ensures MakeDay(y, m, d) >= DayFromYear(y - 1)
  {
    var carry, month := m / 12, m % 12;
    MonthsAscend(y + carry, 0, month);
    if carry == -1 {
      assert month == 11;
    } else {
      assert carry >= 0;
      YearsAscend(y - 1, y + carry);
    }
  }

  lemma ReadBackYear(day: int, y: nat)
    requires day >= DayFromYear(y) && day >= DayFromYear(0)
    ensures ReadBack(day).year >= y
  {
    EarlierIsLower(ReadBack(day), Utc(y, 0, 1));
  }

  /** The patterns only yield numbers whose normalised day lies in year 99 or later. */
  lemma UtcDayIsReadable(y: nat, m: int, d: int)
    requires m >= 0 && d >= 0
    ensures UtcDay(y, m - 1, d) >= DayFromYear(99) >= DayFromYear(0)
  {
    var y' := if y <= 99 then 1900 + y else y;
    MakeDayFloor(y', m - 1, d);
    YearsAscend(99, y' - 1);
    YearsAscend(0, 99);
  }

  /** The numbers read back off the normalised day are the ones it was made from. */
  predicate ComesBack(y: nat, m: nat, d: nat) {
    UtcDayIsReadable(y, m, d);
    ReadBack(UtcDay(y, m - 1, d)) == Utc(y, m - 1, d)
  }

  /** `validDate`. */
  predicate ValidDate(value: string) {
    Shaped(value) && ComesBack(Year(value), Month(value), Day(value))
  }

  /** The numbers come back unchanged exactly for real dates from year 100 on: years 0 to 99 move to 1900 and later. */
  lemma ComesBackExactly(y: nat, m: nat, d: nat)
    ensures ComesBack(y, m, d) <==> y >= 100 && Real(y, m, d)
  {
    UtcDayIsReadable(y, m, d);
    if y < 100 {
      TwoDigitYearsMove(y, m, d);
    } else if Real(y, m, d) {
      ReadBackUndoes(y, m, d);
    }
  }

  lemma ValidDateExactly(value: string)
    ensures ValidDate(value) <==> Shaped(value) && Year(value) >= 100 && Real(Year(value), Month(value), Day(value))
  {
    if Shaped(value) { ComesBackExactly(Year(value), Month(value), Day(value)); }
  }

  lemma TwoDigitYearsMove(y: nat, m: int, d: int)
    requires y <= 99 && m >= 0 && d >= 0
    ensures UtcDay(y, m - 1, d) >= DayFromYear(0) && ReadBack(UtcDay(y, m - 1, d)).year > y
  {
    UtcDayIsReadable(y, m, d);
    MakeDayFloor(1900 + y, m - 1, d);
    YearsAscend(100, 1899 + y);
    ReadBackYear(UtcDay(y, m - 1, d), 100);
  }

  const DIGITS := "0123456789"

  /** The last `width` decimal digits of a number. */
  function Padded(n: nat, width: nat): (s: string)
    ensures |s| == width
  {
    if width == 0 then "" else Padded(n / 10, width - 1) + [DIGITS[n % 10]]
  }

  /** A date as people write it in that form. */
  function Written(y: nat, m: nat, d: nat): string {
    Padded(y, 4) + "-" + Padded(m, 2) + "-" + Padded(d, 2)
  }

  function Ten(width: nat): nat {
    if width == 0 then 1 else 10 * Ten(width - 1)
  }

  lemma DigitIs(c: char)
    requires '0' <= c <= '9'
    ensures DIGITS[(c - '0') as int] == c
  {}

  lemma LastDigit(tens: nat, digit: nat, n: nat)
    requires digit < 10 && n == 10 * tens + digit
    ensures n / 10 == tens && n % 10 == digit
  {}

  lemma {:induction false} PaddedIsRead(n: nat, width: nat)
    requires n < Ten(width)
    ensures Digits(Padded(n, width)) && Number(Padded(n, width)) == n
  {
    if width > 0 {
      PaddedIsRead(n / 10, width - 1);
      var s := Padded(n, width);
      assert s[..|s| - 1] == Padded(n / 10, width - 1);
    }
  }

  lemma {:induction false} NumberIsPadded(s: string)
    requires Digits(s)
    ensures Number(s) < Ten(|s|) && Padded(Number(s), |s|) == s
  {
    if s != "" {
      var init, digit := s[..|s| - 1], (s[|s| - 1] - '0') as nat;
      NumberIsPadded(init);
      DigitIs(s[|s| - 1]);
      LastDigit(Number(init), digit, Number(s));
      assert s == init + [DIGITS[digit]];
      assert Padded(Number(s), |s|) == Padded(Number(init), |init|) + [DIGITS[digit]];
    }
  }

  lemma TenIs()
    ensures Ten(2) == 100 && Ten(4) == 10000
  {
    assert Ten(4) == 100 * Ten(2);
  }

  lemma WrittenParts(y: nat, m: nat, d: nat)
    ensures var value := Written(y, m, d);
            && |value| == 10 && value[..4] == Padded(y, 4) && value[5..7] == Padded(m, 2) && value[8..] == Padded(d, 2)
            && value[4] == value[7] == '-'
  {}

  lemma WrittenIsRead(y: nat, m: nat, d: nat)
    requires y < 10000 && m < 100 && d < 100
    ensures var value := Written(y, m, d); Shaped(value) && Year(value) == y && Month(value) == m && Day(value) == d
  {
    TenIs();
    PaddedIsRead(y, 4);
    PaddedIsRead(m, 2);
    PaddedIsRead(d, 2);
    WrittenParts(y, m, d);
  }

  lemma ShapedIsWritten(value: string)
    requires Shaped(value)
    ensures Year(value) < 10000 && value == Written(Year(value), Month(value), Day(value))
  {
    TenIs();
    NumberIsPadded(value[..4]);
    NumberIsPadded(value[5..7]);
    NumberIsPadded(value[8..]);
    assert value == value[..4] + [value[4]] + value[5..7] + [value[7]] + value[8..];
  }

  /** The accepted strings are exactly the real dates of the years 100 to 9999, written with four, two and two digits. */
  lemma ValidDatesAreWritten(value: string)
    ensures ValidDate(value) <==> exists y: nat, m: nat, d: nat :: 100 <= y <= 9999 && Real(y, m, d) && value == Written(y, m, d)
  {
    ValidDateExactly(value);
    if ValidDate(value) { ShapedIsWritten(value); }
    forall y: nat, m: nat, d: nat | 100 <= y <= 9999 && Real(y, m, d) && value == Written(y, m, d) ensures ValidDate(value) {
      WrittenIsRead(y, m, d);
    }
  }
}
