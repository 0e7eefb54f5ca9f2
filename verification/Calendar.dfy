/** Dates as the two services exchange them: the proleptic Gregorian calendar from year 0000
  * to year 9999, the `2006-01-02` layout, and instants counted in nanoseconds from the Unix
  * epoch.  A day is numbered from 1970-01-01; `Civil` dates are numbered from 0000-01-01.
  */
module Calendar {
  import opened Outcomes

  const EPOCH := 719528  // days from 0000-01-01 to 1970-01-01
  const NS_PER_SECOND := 1_000_000_000
  const NS_PER_DAY := 86_400_000_000_000
  const END_OF_YEARS := 3652425  // days from 0000-01-01 to 10000-01-01

  datatype Civil = Civil(year: nat, month: nat, day: nat)

  // ----- Years and months -----

  predicate IsLeap(y: nat) {
    y % 4 == 0 && (y % 100 != 0 || y % 400 == 0)
  }

  function DaysBeforeYear(y: nat): nat {
    365 * y + (y + 3) / 4 - (y + 99) / 100 + (y + 399) / 400
  }

  lemma YearLength(y: nat)
    ensures DaysBeforeYear(y + 1) == DaysBeforeYear(y) + if IsLeap(y) then 366 else 365
  {
    NextQuotient(y, 4);
    NextQuotient(y, 100);
    NextQuotient(y, 400);
    HundredIsFours(y);
    FourHundredIsHundreds(y);
  }

  /** Rounding up: the quotient grows after each multiple. */
  lemma NextQuotient(y: nat, n: nat)
    requires n == 4 || n == 100 || n == 400
    ensures (y + n) / n == (y + n - 1) / n + if y % n == 0 then 1 else 0
  {
    var q, r := y / n, y % n;
    assert (y + n) / n == q + 1;
    assert (y + n - 1) / n == if r == 0 then q else q + 1;
  }

  lemma HundredIsFours(y: nat)
    ensures y % 100 == 0 ==> y % 4 == 0
  {
    if y % 100 == 0 {
      assert y == 4 * (25 * (y / 100));
      Fours(25 * (y / 100));
    }
  }

  lemma FourHundredIsHundreds(y: nat)
    ensures y % 400 == 0 ==> y % 100 == 0
  {
    if y % 400 == 0 {
      assert y == 100 * (4 * (y / 400));
      Hundreds(4 * (y / 400));
    }
  }

  lemma Fours(q: nat)
    ensures 4 * q % 4 == 0
  {
  }

  lemma Hundreds(q: nat)
    ensures 100 * q % 100 == 0
  {
  }

  lemma {:induction false} YearsGrow(y: nat, z: nat)
    requires y < z
    ensures DaysBeforeYear(y + 1) <= DaysBeforeYear(z)
    decreases z
  {
    if y + 1 < z {
      YearsGrow(y, z - 1);
      YearLength(z - 1);
    }
  }

  /** Days of the year before month `m`; month 13 closes the year. */
  function DaysBeforeMonth(leap: bool, m: nat): nat
    requires 1 <= m <= 13
  {
    var l := if leap then 1 else 0;
    match m
    case 1 => 0
    case 2 => 31
    case 3 => 59 + l
    case 4 => 90 + l
    case 5 => 120 + l
    case 6 => 151 + l
    case 7 => 181 + l
    case 8 => 212 + l
    case 9 => 243 + l
    case 10 => 273 + l
    case 11 => 304 + l
    case 12 => 334 + l
    case 13 => 365 + l
  }

  predicate ValidCivil(c: Civil) {
    && 1 <= c.month <= 12
    && 1 <= c.day
    && DaysBeforeMonth(IsLeap(c.year), c.month) + c.day <= DaysBeforeMonth(IsLeap(c.year), c.month + 1)
  }

  function ToDays(c: Civil): nat
    requires ValidCivil(c)
  {
    DaysBeforeYear(c.year) + DaysBeforeMonth(IsLeap(c.year), c.month) + c.day - 1
  }

  // ----- The calendar as it is usually told -----

  /** Thirty days have April, June, September and November; February has 28, or 29 in a year that 4
    * divides, unless 100 does and 400 does not; the others have 31. */
  lemma ValidDates(c: Civil)
    ensures ValidCivil(c) <==>
            && 1 <= c.month <= 12
            && 1 <= c.day <= 31
            && (c.month == 4 || c.month == 6 || c.month == 9 || c.month == 11 ==> c.day <= 30)
            && (c.month == 2 ==> c.day <= 29)
            && (c.month == 2 && c.day == 29 ==> c.year % 4 == 0 && (c.year % 100 == 0 ==> c.year % 400 == 0))
  {
  }

  /** Days are numbered one after another: tomorrow is the next day of the month if there is one, else
    * the first of the next month, else New Year. */
  lemma NextDate(c: Civil)
    requires ValidCivil(c)
    ensures var tomorrow := if ValidCivil(c.(day := c.day + 1)) then c.(day := c.day + 1)
                            else if c.month < 12 then Civil(c.year, c.month + 1, 1)
                            else Civil(c.year + 1, 1, 1);
      ValidCivil(tomorrow) && ToDays(tomorrow) == ToDays(c) + 1
  {
    hide DaysBeforeYear, IsLeap;
    YearLength(c.year);
    YearIsItsMonths(c);
  }

  /** The months fill the year, whose first day follows the last day of the year before. */
  lemma YearIsItsMonths(c: Civil)
    ensures DaysBeforeYear(c.year + 1) == DaysBeforeYear(c.year) + DaysBeforeMonth(IsLeap(c.year), 13)
    ensures forall leap :: DaysBeforeMonth(leap, 1) == 0
  {
    YearLength(c.year);
  }

  // ----- From a day number back to a date -----

  /** The last year that starts on or before day `n`, searched downwards from `y`. */
  function YearOf(n: nat, y: nat): (r: nat)
    requires n < DaysBeforeYear(y + 1)
    ensures DaysBeforeYear(r) <= n < DaysBeforeYear(r + 1)
  {
    if DaysBeforeYear(y) <= n then y else YearOf(n, y - 1)
  }

  function MonthOf(leap: bool, r: nat): (m: nat)
    requires r < DaysBeforeMonth(leap, 13)
    ensures 1 <= m <= 12
    ensures DaysBeforeMonth(leap, m) <= r < DaysBeforeMonth(leap, m + 1)
  {
    if r < DaysBeforeMonth(leap, 2) then 1
    else if r < DaysBeforeMonth(leap, 3) then 2
    else if r < DaysBeforeMonth(leap, 4) then 3
    else if r < DaysBeforeMonth(leap, 5) then 4
    else if r < DaysBeforeMonth(leap, 6) then 5
    else if r < DaysBeforeMonth(leap, 7) then 6
    else if r < DaysBeforeMonth(leap, 8) then 7
    else if r < DaysBeforeMonth(leap, 9) then 8
    else if r < DaysBeforeMonth(leap, 10) then 9
    else if r < DaysBeforeMonth(leap, 11) then 10
    else if r < DaysBeforeMonth(leap, 12) then 11
    else 12
  }

  function FromDays(n: nat): Civil {
    var y := YearOf(n, n / 365);
    YearLength(y);
    var r := n - DaysBeforeYear(y);
    var m := MonthOf(IsLeap(y), r);
    Civil(y, m, r - DaysBeforeMonth(IsLeap(y), m) + 1)
  }

  lemma FromDaysIsInverse(n: nat)
    ensures ValidCivil(FromDays(n)) && ToDays(FromDays(n)) == n
  {
    YearLength(YearOf(n, n / 365));
  }

  lemma MonthsGrow(leap: bool, m: nat, k: nat)
    requires 1 <= m < k <= 13
    ensures DaysBeforeMonth(leap, m + 1) <= DaysBeforeMonth(leap, k)
  {
  }

  lemma DayWithinYear(c: Civil)
    requires ValidCivil(c)
    ensures DaysBeforeYear(c.year) <= ToDays(c) < DaysBeforeYear(c.year + 1)
  {
    YearLength(c.year);
  }

  predicate Earlier(a: Civil, b: Civil) {
    || a.year < b.year
    || (a.year == b.year && (a.month < b.month || (a.month == b.month && a.day < b.day)))
  }

  lemma EarlierHasFewerDays(a: Civil, b: Civil)
    requires ValidCivil(a) && ValidCivil(b) && Earlier(a, b)
    ensures ToDays(a) < ToDays(b)
  {
    if a.year < b.year {
      hide *;
      DayWithinYear(a);
      DayWithinYear(b);
      YearsGrow(a.year, b.year);
    } else if a.month < b.month {
      hide DaysBeforeYear, DaysBeforeMonth, IsLeap;
      MonthsGrow(IsLeap(a.year), a.month, b.month);
    }
  }

  /** Day numbers and valid dates are in the same order. */
  lemma DaysFollowDates(a: Civil, b: Civil)
    requires ValidCivil(a) && ValidCivil(b)
    ensures ToDays(a) < ToDays(b) <==> Earlier(a, b)
  {
    hide ToDays, ValidCivil;
    if Earlier(a, b) {
      EarlierHasFewerDays(a, b);
    } else if Earlier(b, a) {
      EarlierHasFewerDays(b, a);
    } else {
      assert a == b;
    }
  }

  /** Every valid date has its own day number: days-from-civil and civil-from-days are inverse. */
  lemma ToDaysIsInverse(c: Civil)
    requires ValidCivil(c)
    ensures FromDays(ToDays(c)) == c
  {
    var d := FromDays(ToDays(c));
    FromDaysIsInverse(ToDays(c));
    DaysFollowDates(c, d);
    DaysFollowDates(d, c);
  }

  // ----- The 2006-01-02 layout -----

  predicate IsDigit(c: char) { '0' <= c <= '9' }

  function DigitValue(c: char): nat
    requires IsDigit(c)
  {
    c as int - '0' as int
  }

  function DigitChar(d: nat): char
    requires d < 10
  {
    (d + '0' as int) as char
  }

  function Pad2(n: nat): string
    requires n < 100
  {
    [DigitChar(n / 10), DigitChar(n % 10)]
  }

  function Pad4(n: nat): string
    requires n < 10000
  {
    Pad2(n / 100) + Pad2(n % 100)
  }

  function Value2(s: string): nat
    requires |s| == 2 && IsDigit(s[0]) && IsDigit(s[1])
  {
    10 * DigitValue(s[0]) + DigitValue(s[1])
  }

  function WriteCivil(c: Civil): string
    requires c.year < 10000 && c.month < 100 && c.day < 100
  {
    Pad4(c.year) + "-" + Pad2(c.month) + "-" + Pad2(c.day)
  }

  predicate DateShape(s: string) {
    && |s| == 10 && s[4] == '-' && s[7] == '-'
    && forall i | 0 <= i < 10 && i != 4 && i != 7 :: IsDigit(s[i])
  }

  function ReadCivil(s: string): Civil
    requires DateShape(s)
  {
    Civil(100 * Value2(s[0..2]) + Value2(s[2..4]), Value2(s[5..7]), Value2(s[8..10]))
  }

  /** `time.Parse("2006-01-02", s)`: the day, or nothing when the text is not a date. */
  function ParseDay(s: string): (r: Option<int>)
    ensures r.Some? ==> InYears(r.value)
  {
    if DateShape(s) && ValidCivil(ReadCivil(s)) then
      var c := ReadCivil(s);
      DayWithinYear(c);
      YearsBound(c.year);
      Some(ToDays(c) - EPOCH)
    else
      None
  }

  /** A text is accepted exactly when it reads, digit by digit, as a date of the calendar; it names
    * the day with that number, and 1970-01-01 is day 0. */
  lemma ParseReads(s: string)
    ensures ParseDay(s).Some? <==>
            && |s| == 10 && s[4] == '-' && s[7] == '-'
            && (forall i | 0 <= i < 10 && i != 4 && i != 7 :: '0' <= s[i] <= '9')
            && ValidCivil(Digits(s))
    ensures ParseDay(s).Some? ==> ParseDay(s).value == ToDays(Digits(s)) - ToDays(Civil(1970, 1, 1))
  {
    if DateShape(s) {
      assert ReadCivil(s) == Digits(s) by {
        hide ValidCivil, ToDays;
        assert s[0..2] == [s[0], s[1]] && s[2..4] == [s[2], s[3]];
        assert s[5..7] == [s[5], s[6]] && s[8..10] == [s[8], s[9]];
      }
      hide ReadCivil, Digits;
      UnixEpoch();
    }
  }

  lemma UnixEpoch()
    ensures ValidCivil(Civil(1970, 1, 1)) && ToDays(Civil(1970, 1, 1)) == EPOCH
  {
  }

  /** The numbers at the places of year, month and day. */
  function Digits(s: string): Civil
    requires |s| == 10 && forall i | 0 <= i < 10 && i != 4 && i != 7 :: '0' <= s[i] <= '9'
  {
    var zero := '0' as int;
    Civil(1000 * (s[0] as int - zero) + 100 * (s[1] as int - zero) + 10 * (s[2] as int - zero) + (s[3] as int - zero),
          10 * (s[5] as int - zero) + (s[6] as int - zero),
          10 * (s[8] as int - zero) + (s[9] as int - zero))
  }

  /** The days of years 0000 to 9999. */
  predicate InYears(day: int) {
    0 <= day + EPOCH < END_OF_YEARS
  }

  lemma YearsBound(y: nat)
    ensures y < 10000 ==> DaysBeforeYear(y + 1) <= END_OF_YEARS
    ensures y >= 10000 ==> END_OF_YEARS <= DaysBeforeYear(y)
  {
    assert DaysBeforeYear(10000) == END_OF_YEARS;
    if y + 1 < 10000 { YearsGrow(y, 10000); }
    if y > 10000 { YearsGrow(10000, y); YearLength(10000); }
  }

  lemma DayIsWritable(day: int)
    requires InYears(day)
    ensures var c := FromDays(day + EPOCH); c.year < 10000 && c.month < 100 && c.day < 100
  {
    hide FromDays, ToDays, DaysBeforeYear;
    var c := FromDays(day + EPOCH);
    FromDaysIsInverse(day + EPOCH);
    DayWithinYear(c);
    YearsBound(c.year);
    MonthsAreShort(c);
  }

  lemma MonthsAreShort(c: Civil)
    requires ValidCivil(c)
    ensures c.month <= 12 && c.day <= 31
  {
  }

  /** `t.Format("2006-01-02")` for a time on this day. */
  function FormatDay(day: int): string
    requires InYears(day)
  {
    DayIsWritable(day);
    WriteCivil(FromDays(day + EPOCH))
  }

  lemma ReadUndoesWrite(c: Civil)
    requires c.year < 10000 && c.month < 100 && c.day < 100
    ensures DateShape(WriteCivil(c)) && ReadCivil(WriteCivil(c)) == c
  {
    var s := WriteCivil(c);
    assert s[0..2] == Pad2(c.year / 100);
    assert s[2..4] == Pad2(c.year % 100);
    assert s[5..7] == Pad2(c.month);
    assert s[8..10] == Pad2(c.day);
  }

  lemma WriteUndoesRead(s: string)
    requires DateShape(s)
    ensures ReadCivil(s).year < 10000 && ReadCivil(s).month < 100 && ReadCivil(s).day < 100
    ensures WriteCivil(ReadCivil(s)) == s
  {
    var c := ReadCivil(s);
    Pad2OfValue(s[0..2]);
    Pad2OfValue(s[2..4]);
    Pad2OfValue(s[5..7]);
    Pad2OfValue(s[8..10]);
    assert c.year / 100 == Value2(s[0..2]) && c.year % 100 == Value2(s[2..4]);
    assert s == s[0..2] + s[2..4] + "-" + s[5..7] + "-" + s[8..10];
  }

  lemma Pad2OfValue(s: string)
    requires |s| == 2 && IsDigit(s[0]) && IsDigit(s[1])
    ensures Value2(s) < 100 && Pad2(Value2(s)) == s
  {
    assert Value2(s) / 10 == DigitValue(s[0]) && Value2(s) % 10 == DigitValue(s[1]);
  }

  lemma CivilOf(day: int) returns (c: Civil)
    requires InYears(day)
    ensures ValidCivil(c) && ToDays(c) == day + EPOCH
    ensures c.year < 10000 && c.month < 100 && c.day < 100 && FormatDay(day) == WriteCivil(c)
  {
    hide ToDays, FromDays, WriteCivil;
    c := FromDays(day + EPOCH);
    FromDaysIsInverse(day + EPOCH);
    DayWithinYear(c);
    YearsBound(c.year);
  }

  /** Formatting a day and parsing it again yields the day. */
  lemma ParseUndoesFormat(day: int)
    requires InYears(day)
    ensures ParseDay(FormatDay(day)) == Some(day)
  {
    hide WriteCivil, ReadCivil, DateShape, FromDays;
    var c := CivilOf(day);
    ReadUndoesWrite(c);
  }

  /** Every accepted text is the one its day is formatted as. */
  lemma FormatUndoesParse(s: string)
    requires ParseDay(s).Some?
    ensures FormatDay(ParseDay(s).value) == s
  {
    ToDaysIsInverse(ReadCivil(s));
    WriteUndoesRead(s);
  }

  /** The days that have a text are those of years 0000 to 9999. */
  lemma DaysWithText(day: int)
    ensures InYears(day) <==> exists s :: ParseDay(s) == Some(day)
  {
    if InYears(day) {
      ParseUndoesFormat(day);
    }
  }

  // ----- String order -----

  /** Byte-wise lexicographic order. */
  predicate StringLess(a: string, b: string) {
    b != [] && (a == [] || a[0] < b[0] || (a[0] == b[0] && StringLess(a[1..], b[1..])))
  }

  lemma {:induction false} StringLessSplits(a: string, b: string, x: string, y: string)
    requires |a| == |b|
    ensures StringLess(a + x, b + y) <==> StringLess(a, b) || (a == b && StringLess(x, y))
  {
    if a == [] {
      assert a + x == x && b + y == y;
    } else {
      StringLessSplits(a[1..], b[1..], x, y);
      assert (a + x)[1..] == a[1..] + x && (b + y)[1..] == b[1..] + y;
      assert a == b <==> a[0] == b[0] && a[1..] == b[1..] by {
        assert a == [a[0]] + a[1..] && b == [b[0]] + b[1..];
      }
    }
  }

  lemma Pad2Order(m: nat, n: nat)
    requires m < 100 && n < 100
    ensures StringLess(Pad2(m), Pad2(n)) <==> m < n
    ensures Pad2(m) == Pad2(n) <==> m == n
  {
    assert StringLess(Pad2(m)[1..], Pad2(n)[1..]) <==> DigitChar(m % 10) < DigitChar(n % 10);
  }

  lemma Pad4Order(m: nat, n: nat)
    requires m < 10000 && n < 10000
    ensures StringLess(Pad4(m), Pad4(n)) <==> m < n
    ensures Pad4(m) == Pad4(n) <==> m == n
  {
    Pad2Order(m / 100, n / 100);
    Pad2Order(m % 100, n % 100);
    StringLessSplits(Pad2(m / 100), Pad2(n / 100), Pad2(m % 100), Pad2(n % 100));
    assert Pad4(m)[0..2] == Pad2(m / 100) && Pad4(m)[2..4] == Pad2(m % 100);
    assert Pad4(n)[0..2] == Pad2(n / 100) && Pad4(n)[2..4] == Pad2(n % 100);
  }

  lemma WriteOrder(a: Civil, b: Civil)
    requires a.year < 10000 && a.month < 100 && a.day < 100
    requires b.year < 10000 && b.month < 100 && b.day < 100
    ensures StringLess(WriteCivil(a), WriteCivil(b)) <==> Earlier(a, b)
  {
    var ya, yb := Pad4(a.year), Pad4(b.year);
    var ma, mb := Pad2(a.month), Pad2(b.month);
    var da, db := Pad2(a.day), Pad2(b.day);
    Pad4Order(a.year, b.year);
    Pad2Order(a.month, b.month);
    Pad2Order(a.day, b.day);
    assert WriteCivil(a) == ya + ("-" + (ma + ("-" + da)));
    assert WriteCivil(b) == yb + ("-" + (mb + ("-" + db)));
    StringLessSplits(ya, yb, "-" + (ma + ("-" + da)), "-" + (mb + ("-" + db)));
    StringLessSplits("-", "-", ma + ("-" + da), mb + ("-" + db));
    StringLessSplits(ma, mb, "-" + da, "-" + db);
    StringLessSplits("-", "-", da, db);
  }

  /** Formatted dates compare as strings exactly as their days compare as numbers. */
  lemma FormatKeepsOrder(a: int, b: int)
    requires InYears(a) && InYears(b)
    ensures StringLess(FormatDay(a), FormatDay(b)) <==> a < b
  {
    var c := CivilOf(a);
    var d := CivilOf(b);
    DaysFollowDates(c, d);
    WriteOrder(c, d);
  }

  type Day = d: int | InYears(d) witness 0

  // ----- Instants -----

  function DayOf(ns: int): int { ns / NS_PER_DAY }

  function Midnight(day: int): int { day * NS_PER_DAY }
}
