/** Days of the proleptic Gregorian calendar and their yyyy/mm/dd form. */
module Calendar {
  import opened Options

  datatype Date = Date(year: int, month: int, day: int) {
    predicate Valid() { 1 <= month <= 12 && 1 <= day <= DaysIn(year, month) }
  }

  predicate Leap(y: int) { y % 4 == 0 && (y % 100 != 0 || y % 400 == 0) }

  function DaysIn(y: int, m: int): int
    requires 1 <= m <= 12
  {
    if m == 2 then (if Leap(y) then 29 else 28)
    else if m in {4, 6, 9, 11} then 30
    else 31
  }

  function YearDays(y: int): int { if Leap(y) then 366 else 365 }

  /** Days from 1 January of year 0 to 1 January of year y. */
  function DaysBeforeYear(y: int): int
    decreases if y < 0 then -y else y
  {
    if y == 0 then 0
    else if y > 0 then DaysBeforeYear(y - 1) + YearDays(y - 1)
    else DaysBeforeYear(y + 1) - YearDays(y)
  }

  /** The years before y that are divisible by four, less those by a hundred, and again those by four hundred. */
  function LeapYearsBefore(y: int): int { (y + 3) / 4 - (y + 99) / 100 + (y + 399) / 400 }

  lemma NextOfFour(y: int)
    ensures (y + 4) / 4 == (y + 3) / 4 + if y % 4 == 0 then 1 else 0
  {
    var q, r := y / 4, y % 4;
    assert y == 4 * q + r;
  }

  lemma NextOfHundred(y: int)
    ensures (y + 100) / 100 == (y + 99) / 100 + if y % 100 == 0 then 1 else 0
  {
    var q, r := y / 100, y % 100;
    assert y == 100 * q + r;
  }

  lemma NextOfFourHundred(y: int)
    ensures (y + 400) / 400 == (y + 399) / 400 + if y % 400 == 0 then 1 else 0
  {
    var q, r := y / 400, y % 400;
    assert y == 400 * q + r;
  }

  lemma MultiplesOfMultiples(y: int)
    ensures (y % 400 == 0 ==> y % 100 == 0) && (y % 100 == 0 ==> y % 4 == 0)
  {}

  lemma LeapYearsStep(y: int)
    ensures LeapYearsBefore(y + 1) == LeapYearsBefore(y) + if Leap(y) then 1 else 0
  {
    NextOfFour(y);
    NextOfHundred(y);
    NextOfFourHundred(y);
    MultiplesOfMultiples(y);
  }

  lemma {:induction false} DaysInClosedForm(y: int)
    ensures DaysBeforeYear(y) == 365 * y + LeapYearsBefore(y)
    decreases if y < 0 then -y else y
  {
    if y == 0 {
    } else if y > 0 {
      DaysInClosedForm(y - 1);
      LeapYearsStep(y - 1);
    } else {
      DaysInClosedForm(y + 1);
      LeapYearsStep(y);
    }
  }

  /** The calendar repeats itself after 400 years. */
  lemma CalendarRepeats(y: int)
    ensures DaysBeforeYear(y + 400) == DaysBeforeYear(y) + 146097
  {
    DaysInClosedForm(y);
    DaysInClosedForm(y + 400);
    LeapYearsRepeat(y);
  }

  lemma LeapYearsRepeat(y: int)
    ensures LeapYearsBefore(y + 400) == LeapYearsBefore(y) + 97
  {
    assert (y + 403) / 4 == (y + 3) / 4 + 100;
    assert (y + 499) / 100 == (y + 99) / 100 + 4;
    assert (y + 799) / 400 == (y + 399) / 400 + 1;
  }

  function DaysBeforeMonth(y: int, m: int): int
    requires 1 <= m <= 13
    decreases m
  {
    if m == 1 then 0 else DaysBeforeMonth(y, m - 1) + DaysIn(y, m - 1)
  }

  lemma YearLength(y: int)
    ensures DaysBeforeYear(y + 1) == DaysBeforeYear(y) + YearDays(y)
    ensures DaysBeforeMonth(y, 13) == YearDays(y)
  {
    assert DaysBeforeMonth(y, 3) == 31 + DaysIn(y, 2);
    assert DaysBeforeMonth(y, 6) == DaysBeforeMonth(y, 3) + 92;
    assert DaysBeforeMonth(y, 9) == DaysBeforeMonth(y, 6) + 92;
    assert DaysBeforeMonth(y, 12) == DaysBeforeMonth(y, 9) + 91;
  }

  function DayNumber(d: Date): int
    requires d.Valid()
  {
    DaysBeforeYear(d.year) + DaysBeforeMonth(d.year, d.month) + d.day - 1
  }

  function YearFrom(day: int, y: int): (r: int)
    requires DaysBeforeYear(y) <= day
    ensures DaysBeforeYear(r) <= day < DaysBeforeYear(r + 1)
    decreases day - DaysBeforeYear(y)
  {
    YearLength(y);
    if day < DaysBeforeYear(y + 1) then y else YearFrom(day, y + 1)
  }

  function YearBack(day: int, y: int): (r: int)
    requires day < DaysBeforeYear(y)
    ensures DaysBeforeYear(r) <= day < DaysBeforeYear(r + 1)
    decreases DaysBeforeYear(y) - day
  {
    YearLength(y - 1);
    if DaysBeforeYear(y - 1) <= day then y - 1 else YearBack(day, y - 1)
  }

  function MonthFrom(y: int, rest: int, m: int): (r: int)
    requires 1 <= m <= 12 && DaysBeforeMonth(y, m) <= rest < DaysBeforeMonth(y, 13)
    ensures 1 <= r <= 12 && DaysBeforeMonth(y, r) <= rest < DaysBeforeMonth(y, r + 1)
    decreases 13 - m
  {
    if rest < DaysBeforeMonth(y, m + 1) then m else MonthFrom(y, rest, m + 1)
  }

  function DateOf(day: int): (d: Date)
    ensures d.Valid() && DayNumber(d) == day
  {
    var y := if day < 0 then YearBack(day, 0) else YearFrom(day, 0);
    YearLength(y);
    var rest := day - DaysBeforeYear(y);
    var m := MonthFrom(y, rest, 1);
    Date(y, m, rest - DaysBeforeMonth(y, m) + 1)
  }

  lemma {:induction false} YearsApart(a: int, b: int)
    requires a <= b
    ensures DaysBeforeYear(a) <= DaysBeforeYear(b)
    decreases b - a
  {
    if a == b {
    } else {
      YearLength(a);
      YearsApart(a + 1, b);
    }
  }

  lemma {:induction false} MonthsApart(y: int, a: int, b: int)
    requires 1 <= a <= b <= 13
    ensures DaysBeforeMonth(y, a) <= DaysBeforeMonth(y, b)
    decreases b - a
  {
    if a == b {
    } else {
      MonthsApart(y, a + 1, b);
    }
  }

  /** Dates are in the order of their day numbers, so a day has one date. */
  lemma DayNumberIncreases(d: Date, e: Date)
    requires d.Valid() && e.Valid()
    requires d.year < e.year || (d.year == e.year && (d.month < e.month || (d.month == e.month && d.day < e.day)))
    ensures DayNumber(d) < DayNumber(e)
  {
    if d.year < e.year {
      YearLength(d.year);
      YearsApart(d.year + 1, e.year);
      MonthsApart(d.year, d.month + 1, 13);
      MonthsApart(e.year, 1, e.month);
    } else if d.month < e.month {
      MonthsApart(d.year, d.month + 1, e.month);
    }
  }

  lemma DateOfDayNumber(d: Date)
    requires d.Valid()
    ensures DateOf(DayNumber(d)) == d
  {
    var e := DateOf(DayNumber(d));
    if e.year < d.year || (e.year == d.year && (e.month < d.month || (e.month == d.month && e.day < d.day))) {
      DayNumberIncreases(e, d);
    } else if e != d {
      DayNumberIncreases(d, e);
    }
  }

  lemma NewYear(y: int)
    ensures DateOf(DaysBeforeYear(y)) == Date(y, 1, 1)
  {
    DateOfDayNumber(Date(y, 1, 1));
  }

  // ---------- The text form ----------

  function Digit(n: nat): char
    requires n < 10
  {
    '0' + n as char
  }

  function Decimal(n: nat): (s: string)
    ensures |s| > 0 && (n >= 10 ==> |s| > 1)
  {
    if n < 10 then [Digit(n)] else Decimal(n / 10) + [Digit(n % 10)]
  }

  function Zeros(n: int): string { if n <= 0 then "" else "0" + Zeros(n - 1) }

  /** A number padded with zeros to a width; the sign does not count. */
  function Padded(x: int, width: nat): string {
    var digits := Decimal(if x < 0 then -x else x);
    (if x < 0 then "-" else "") + Zeros(width - |digits|) + digits
  }

  function FormatDate(d: Date): string { Padded(d.year, 4) + "/" + Padded(d.month, 2) + "/" + Padded(d.day, 2) }

  predicate IsDigit(c: char) { '0' <= c <= '9' }

  function Value(c: char): nat
    requires IsDigit(c)
  {
    c as nat - '0' as nat
  }

  /** Exactly four, two and two digits, and a day that the month has. */
  function ParseDate(s: string): Option<Date> {
    if |s| == 10 && s[4] == '/' && s[7] == '/'
       && IsDigit(s[0]) && IsDigit(s[1]) && IsDigit(s[2]) && IsDigit(s[3])
       && IsDigit(s[5]) && IsDigit(s[6]) && IsDigit(s[8]) && IsDigit(s[9])
    then
      var d := Date(1000 * Value(s[0]) + 100 * Value(s[1]) + 10 * Value(s[2]) + Value(s[3]),
                    10 * Value(s[5]) + Value(s[6]), 10 * Value(s[8]) + Value(s[9]));
      if d.Valid() then Some(d) else None
    else None
  }

  lemma TwoDigits(n: nat)
    requires n < 100
    ensures Padded(n, 2) == [Digit(n / 10), Digit(n % 10)]
  {
    if n < 10 {
      assert Zeros(1) == "0" + Zeros(0);
    } else {
      assert Decimal(n / 10) == [Digit(n / 10)];
      assert Zeros(0) == "";
    }
  }

  lemma FourDigits(n: nat)
    requires n < 10000
    ensures Padded(n, 4) == [Digit(n / 1000), Digit(n / 100 % 10), Digit(n / 10 % 10), Digit(n % 10)]
  {
    assert Zeros(0) == "" && Zeros(1) == "0" && Zeros(2) == "00" && Zeros(3) == "000";
    assert n / 10 / 10 == n / 100 && n / 100 / 10 == n / 1000;
    if n < 10 {
      assert Decimal(n) == [Digit(n)];
    } else if n < 100 {
      assert Decimal(n) == Decimal(n / 10) + [Digit(n % 10)];
    } else if n < 1000 {
      assert Decimal(n) == Decimal(n / 10) + [Digit(n % 10)];
      assert Decimal(n / 10) == Decimal(n / 100) + [Digit(n / 10 % 10)];
    } else {
      assert Decimal(n) == Decimal(n / 10) + [Digit(n % 10)];
      assert Decimal(n / 10) == Decimal(n / 100) + [Digit(n / 10 % 10)];
      assert Decimal(n / 100) == Decimal(n / 1000) + [Digit(n / 100 % 10)];
    }
  }

  lemma LongYear(n: nat)
    requires n >= 10000
    ensures |Decimal(n)| >= 5
  {
    assert Decimal(n) == Decimal(n / 10) + [Digit(n % 10)];
    assert Decimal(n / 10) == Decimal(n / 10 / 10) + [Digit(n / 10 % 10)];
    assert Decimal(n / 10 / 10) == Decimal(n / 10 / 10 / 10) + [Digit(n / 10 / 10 % 10)];
  }

  lemma {:induction false} ZerosLength(n: int)
    ensures |Zeros(n)| == if n <= 0 then 0 else n
  {
    if n > 0 { ZerosLength(n - 1); }
  }

  /** The ten characters of a date with a four-digit year. */
  lemma Spelled(d: Date)
    requires d.Valid() && 0 <= d.year <= 9999
    ensures FormatDate(d) == [Digit(d.year / 1000), Digit(d.year / 100 % 10), Digit(d.year / 10 % 10),
        Digit(d.year % 10), '/',
                              Digit(d.month / 10), Digit(d.month % 10), '/', Digit(d.day / 10), Digit(d.day % 10)]
  {
    FourDigits(d.year);
    TwoDigits(d.month);
    TwoDigits(d.day);
  }

  lemma Unspelled(d: Date)
    requires d.Valid() && !(0 <= d.year <= 9999)
    ensures |FormatDate(d)| > 10
  {
    TwoDigits(d.month);
    TwoDigits(d.day);
    if d.year > 9999 { LongYear(d.year); } else { ZerosLength(4 - |Decimal(-d.year)|); }
  }

  lemma ParseSpelled(s: string, d: Date)
    requires d.Valid() && 0 <= d.year <= 9999
    requires s == [Digit(d.year / 1000), Digit(d.year / 100 % 10), Digit(d.year / 10 % 10), Digit(d.year % 10), '/',
                   Digit(d.month / 10), Digit(d.month % 10), '/', Digit(d.day / 10), Digit(d.day % 10)]
    ensures ParseDate(s) == Some(d)
  {
    FourValues(d.year);
    TwoValues(d.month);
    TwoValues(d.day);
  }

  /** Reading a written date gives it back exactly when its year has at most four digits and no sign. */
  lemma ParseFormat(d: Date)
    requires d.Valid()
    ensures ParseDate(FormatDate(d)) == if 0 <= d.year <= 9999 then Some(d) else None
  {
    if 0 <= d.year <= 9999 {
      Spelled(d);
      ParseSpelled(FormatDate(d), d);
    } else {
      Unspelled(d);
    }
  }

  lemma TwoValues(n: nat)
    requires n < 100
    ensures 10 * Value(Digit(n / 10)) + Value(Digit(n % 10)) == n
  {}

  lemma FourValues(n: nat)
    requires n < 10000
    ensures 1000 * (n / 1000) + 100 * (n / 100 % 10) + 10 * (n / 10 % 10) + n % 10 == n
  {
    assert n / 10 / 10 == n / 100 && n / 100 / 10 == n / 1000;
  }

  lemma DigitsBack(n: nat, c: char, e: char)
    requires IsDigit(c) && IsDigit(e) && n == 10 * Value(c) + Value(e)
    ensures Digit(n / 10) == c && Digit(n % 10) == e
  {
    LastDigit(Value(c), Value(e));
  }

  /** A date has one written form. */
  lemma FormatParse(s: string)
    requires ParseDate(s).Some?
    ensures FormatDate(ParseDate(s).value) == s
  {
    var d := ParseDate(s).value;
    Spelled(d);
    DigitsOf(Value(s[0]), Value(s[1]), Value(s[2]), Value(s[3]));
    DigitsBack(d.month, s[5], s[6]);
    DigitsBack(d.day, s[8], s[9]);
    assert s == [s[0], s[1], s[2], s[3], '/', s[5], s[6], '/', s[8], s[9]];
  }

  lemma LastDigit(q: nat, e: nat)
    requires e < 10
    ensures (10 * q + e) / 10 == q && (10 * q + e) % 10 == e
  {}

  lemma DigitsOf(a: nat, b: nat, c: nat, e: nat)
    requires a < 10 && b < 10 && c < 10 && e < 10
    ensures var n := 1000 * a + 100 * b + 10 * c + e;
            n / 1000 == a && n / 100 % 10 == b && n / 10 % 10 == c && n % 10 == e
  {
    LastDigit(a, b);
    LastDigit(10 * a + b, c);
    LastDigit(100 * a + 10 * b + c, e);
    var n := 1000 * a + 100 * b + 10 * c + e;
    assert n / 100 == n / 10 / 10 && n / 1000 == n / 10 / 10 / 10;
  }
}
