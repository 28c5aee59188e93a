/**
  Proleptic-Gregorian calendar days as Python's `datetime.date` sees them:
  years 1..9999, ordinals with 0001-01-01 as day 1, `weekday()` with
  Monday = 0, `strftime("%Y%m%d")`, and the two parsers the core uses
  (`strptime(.., "%Y-%m-%d")` and a strict `%Y%m%d`).
 */
module Calendar {
  import opened Wrappers
  import opened Digits

  datatype Date = Date(year: int, month: int, day: int)

  const MaxYear := 9999
  const LastDate := Date(9999, 12, 31)
  /** `date.max.toordinal()` */
  const MaxOrdinal := 3652059

  predicate IsLeapYear(y: int) { y % 4 == 0 && (y % 100 != 0 || y % 400 == 0) }

  function DaysInMonth(y: int, m: int): (n: int)
    requires 1 <= m <= 12
    ensures 28 <= n <= 31
  {
    if m == 2 then (if IsLeapYear(y) then 29 else 28)
    else if m == 4 || m == 6 || m == 9 || m == 11 then 30
    else 31
  }

  function DaysInYear(y: int): int { if IsLeapYear(y) then 366 else 365 }

  /** A day `datetime.date` accepts. */
  predicate IsValid(d: Date)
  {
    1 <= d.year <= MaxYear && 1 <= d.month <= 12 && 1 <= d.day <= DaysInMonth(d.year, d.month)
  }

  function DaysBeforeYear(y: int): int
    requires y >= 1
  {
    var p := y - 1;
    365 * p + p / 4 - p / 100 + p / 400
  }

  function DaysBeforeMonth(y: int, m: int): int
    requires 1 <= m <= 12
  {
    (if m == 1 then 0 else if m == 2 then 31 else if m == 3 then 59
     else if m == 4 then 90 else if m == 5 then 120 else if m == 6 then 151
     else if m == 7 then 181 else if m == 8 then 212 else if m == 9 then 243
     else if m == 10 then 273 else if m == 11 then 304 else 334)
    + (if m > 2 && IsLeapYear(y) then 1 else 0)
  }

  /** `date.toordinal()`: 0001-01-01 is day 1. */
  function Ordinal(d: Date): int
    requires d.year >= 1 && 1 <= d.month <= 12
  {
    DaysBeforeYear(d.year) + DaysBeforeMonth(d.year, d.month) + d.day
  }

  /** Calendar order: year, then month, then day. */
  predicate Before(a: Date, b: Date)
  {
    a.year < b.year || (a.year == b.year && (a.month < b.month || (a.month == b.month && a.day < b.day)))
  }

  /** The following day (`d + timedelta(days=1)`). */
  function NextDay(d: Date): Date
    requires IsValid(d)
  {
    if d.day < DaysInMonth(d.year, d.month) then Date(d.year, d.month, d.day + 1)
    else if d.month < 12 then Date(d.year, d.month + 1, 1)
    else Date(d.year + 1, 1, 1)
  }

  /** `d + timedelta(days=n)`, defined whenever it does not pass 9999-12-31. */
  function AddDays(d: Date, n: nat): (r: Date)
    requires IsValid(d) && Ordinal(d) + n <= MaxOrdinal
    ensures IsValid(r) && Ordinal(r) == Ordinal(d) + n
    decreases n
  {
    if n == 0 then d
    else
      NextDayStep(d);
      AddDays(NextDay(d), n - 1)
  }

  /** `date.weekday()`: Monday is 0, Sunday is 6. */
  function Weekday(d: Date): (r: int)
    requires IsValid(d)
    ensures 0 <= r < 7
  {
    (Ordinal(d) + 6) % 7
  }

  /** `strftime("%Y%m%d")` with the year written as four digits. */
  function Format(d: Date): (s: string)
    requires IsValid(d)
    ensures |s| == 8 && AllDigits(s)
  {
    Fixed(d.year, 4) + Fixed(d.month, 2) + Fixed(d.day, 2)
  }

  /** Exactly eight ASCII digits that name a valid day (`%Y%m%d`, strict). */
  function ParseCompact(s: string): (r: Option<Date>)
    ensures r.Some? ==> IsValid(r.value)
  {
    if |s| == 8 && AllDigits(s) then
      var d := Date(Value(s[..4]), Value(s[4..6]), Value(s[6..]));
      if IsValid(d) then Some(d) else None
    else None
  }

  /** The `%m` directive of `strptime`: `1[0-2]|0[1-9]|[1-9]`. */
  function MonthToken(t: string): Option<int>
  {
    if |t| == 1 && '1' <= t[0] <= '9' then Some(DigitValue(t[0]))
    else if |t| == 2 && t[0] == '1' && '0' <= t[1] <= '2' then Some(10 + DigitValue(t[1]))
    else if |t| == 2 && t[0] == '0' && '1' <= t[1] <= '9' then Some(DigitValue(t[1]))
    else None
  }

  /**
    The `%d` directive of `strptime`, `3[01]|[12]\d|0[1-9]|[1-9]| [1-9]`,
    when it has to consume the whole rest of the text.
   */
  function DayToken(t: string): Option<int>
  {
    if |t| == 1 && '1' <= t[0] <= '9' then Some(DigitValue(t[0]))
    else if |t| == 2 && t[0] == '3' && '0' <= t[1] <= '1' then Some(30 + DigitValue(t[1]))
    else if |t| == 2 && '1' <= t[0] <= '2' && IsDigit(t[1]) then Some(10 * DigitValue(t[0]) + DigitValue(t[1]))
    else if |t| == 2 && t[0] == '0' && '1' <= t[1] <= '9' then Some(DigitValue(t[1]))
    else if |t| == 2 && t[0] == ' ' && '1' <= t[1] <= '9' then Some(DigitValue(t[1]))
    else None
  }

  /**
    `datetime.strptime(s, "%Y-%m-%d")`: four digits, '-', a month token,
    '-', a day token ending the text, and a day that exists. `None` stands
    for the `ValueError` it raises otherwise.
   */
  function ParseDashed(s: string): (r: Option<Date>)
    ensures r.Some? ==> IsValid(r.value)
  {
    if |s| < 8 || !AllDigits(s[..4]) || s[4] != '-' then None
    else
      var monthLen := if s[6] == '-' then 1 else 2;
      if monthLen == 2 && s[7] != '-' then None
      else
        match (MonthToken(s[5..5 + monthLen]), DayToken(s[6 + monthLen..]))
        case (Some(m), Some(dd)) =>
          var d := Date(Value(s[..4]), m, dd);
          if IsValid(d) then Some(d) else None
        case _ => None
  }

  // ---------------------------------------------------------------------
  // Ordinal arithmetic

  lemma DaysBeforeYearStep(y: int)
    requires y >= 1
    ensures DaysBeforeYear(y + 1) == DaysBeforeYear(y) + DaysInYear(y)
  {
    DivStep(y, 4);
    DivStep(y, 100);
    DivStep(y, 400);
  }

  /** Going from `y - 1` to `y`, the quotient by `n` grows by one exactly when `n` divides `y`. */
  lemma DivStep(y: int, n: int)
    requires y >= 1 && n >= 1
    ensures y / n == (y - 1) / n + (if y % n == 0 then 1 else 0)
  {
    var q, r := (y - 1) / n, (y - 1) % n;
    assert y == q * n + r + 1 && 0 <= r < n;
    if r == n - 1 {
      assert y == (q + 1) * n;
      DivUnique(y, n, q + 1, 0);
    } else {
      DivUnique(y, n, q, r + 1);
    }
  }

  lemma DivUnique(y: int, n: int, q: int, r: int)
    requires n >= 1 && y == q * n + r && 0 <= r < n
    ensures y / n == q && y % n == r
  {
    var q', r' := y / n, y % n;
    var k := q - q';
    assert k * n == r' - r by {
      assert q * n - q' * n == k * n;
    }
    MulBound(k, n);
  }

  lemma MulBound(k: int, n: int)
    requires n >= 1
    ensures k >= 1 ==> k * n >= n
    ensures k <= -1 ==> k * n <= -n
  {
    if k >= 1 {
      assert k * n == (k - 1) * n + n;
      MulNonNegative(k - 1, n);
    } else if k <= -1 {
      assert -k * n == (-k - 1) * n + n;
      MulNonNegative(-k - 1, n);
    }
  }

  lemma MulNonNegative(a: int, b: int)
    requires a >= 0 && b >= 0
    ensures a * b >= 0
  {
  }

  lemma {:induction false} DaysBeforeYearGrows(y: int, z: int)
    requires 1 <= y <= z
    ensures DaysBeforeYear(y) + 365 * (z - y) <= DaysBeforeYear(z)
    decreases z - y
  {
    if y < z {
      DaysBeforeYearGrows(y, z - 1);
      DaysBeforeYearStep(z - 1);
    }
  }

  lemma MonthFitsInYear(y: int, m: int)
    requires 1 <= m <= 12
    ensures DaysBeforeMonth(y, m) + DaysInMonth(y, m) <= DaysInYear(y)
    ensures m < 12 ==> DaysBeforeMonth(y, m + 1) == DaysBeforeMonth(y, m) + DaysInMonth(y, m)
    ensures m == 12 ==> DaysBeforeMonth(y, m) + DaysInMonth(y, m) == DaysInYear(y)
  {
  }

  lemma {:induction false} DaysBeforeMonthGrows(y: int, m: int, n: int)
    requires 1 <= m < n <= 12
    ensures DaysBeforeMonth(y, m) + DaysInMonth(y, m) <= DaysBeforeMonth(y, n)
    decreases n - m
  {
    MonthFitsInYear(y, m);
    if m + 1 < n {
      DaysBeforeMonthGrows(y, m + 1, n);
      MonthFitsInYear(y, m + 1);
    }
  }

  /** The successor of a day is one ordinal later (and still a valid day, except after 9999-12-31). */
  lemma NextDayStep(d: Date)
    requires IsValid(d) && Ordinal(d) < MaxOrdinal
    ensures IsValid(NextDay(d)) && Ordinal(NextDay(d)) == Ordinal(d) + 1
  {
    MonthFitsInYear(d.year, d.month);
    if d.day == DaysInMonth(d.year, d.month) && d.month == 12 {
      DaysBeforeYearStep(d.year);
    }
  }

  /** Calendar order and ordinal order agree. */
  lemma OrdinalMonotone(a: Date, b: Date)
    requires IsValid(a) && IsValid(b) && Before(a, b)
    ensures Ordinal(a) < Ordinal(b)
  {
    MonthFitsInYear(a.year, a.month);
    if a.year < b.year {
      DaysBeforeYearStep(a.year);
      DaysBeforeYearGrows(a.year + 1, b.year);
    } else if a.month < b.month {
      DaysBeforeMonthGrows(a.year, a.month, b.month);
    }
  }

  /** Distinct valid days have distinct ordinals, and ordinals order days. */
  lemma OrdinalOrder(a: Date, b: Date)
    requires IsValid(a) && IsValid(b)
    ensures Ordinal(a) < Ordinal(b) <==> Before(a, b)
    ensures Ordinal(a) == Ordinal(b) <==> a == b
  {
    if Before(a, b) { OrdinalMonotone(a, b); }
    else if Before(b, a) { OrdinalMonotone(b, a); }
    else { assert a == b; }
  }

  lemma OrdinalRange(d: Date)
    requires IsValid(d)
    ensures 1 <= Ordinal(d) <= MaxOrdinal
  {
    if d != LastDate {
      assert Before(d, LastDate);
      OrdinalMonotone(d, LastDate);
    }
  }

  /** `AddDays` reaches every later valid day, and only that day. */
  lemma AddDaysReaches(d: Date, e: Date)
    requires IsValid(d) && IsValid(e) && Ordinal(d) <= Ordinal(e)
    ensures Ordinal(e) <= MaxOrdinal
    ensures AddDays(d, Ordinal(e) - Ordinal(d)) == e
  {
    OrdinalRange(e);
    OrdinalOrder(AddDays(d, Ordinal(e) - Ordinal(d)), e);
  }

  /** Each day's weekday follows the previous day's. */
  lemma WeekdayNext(d: Date)
    requires IsValid(d) && Ordinal(d) < MaxOrdinal
    ensures 0 <= Weekday(d) < 7
    ensures Weekday(NextDay(d)) == (Weekday(d) + 1) % 7
  {
    NextDayStep(d);
    var x := Ordinal(d) + 6;
    assert Ordinal(NextDay(d)) + 6 == x + 1;
    ModSevenNext(x);
  }

  lemma ModSevenNext(x: int)
    ensures (x + 1) % 7 == (x % 7 + 1) % 7
  {
  }

  /** 2024-01-01 is a Monday, so `Weekday` numbers Monday as 0. */
  lemma KnownMonday()
    ensures Weekday(Date(2024, 1, 1)) == 0
  {
  }

  // ---------------------------------------------------------------------
  // Formatting and parsing

  /** Reading back a formatted day gives the day. */
  lemma {:induction false} ParseCompactFormat(d: Date)
    requires IsValid(d)
    ensures ParseCompact(Format(d)) == Some(d)
  {
    var s := Format(d);
    assert s[..4] == Fixed(d.year, 4);
    assert s[4..6] == Fixed(d.month, 2);
    assert s[6..] == Fixed(d.day, 2);
    FixedValue(d.year, 4);
    FixedValue(d.month, 2);
    FixedValue(d.day, 2);
  }

  /** Every text `ParseCompact` accepts is the formatting of the day it yields. */
  lemma {:induction false} FormatParseCompact(s: string)
    requires ParseCompact(s).Some?
    ensures Format(ParseCompact(s).value) == s
  {
    ValueFixed(s[..4]);
    ValueFixed(s[4..6]);
    ValueFixed(s[6..]);
    assert s == s[..4] + s[4..6] + s[6..];
  }

  /** Formatting is one-to-one. */
  lemma FormatInjective(a: Date, b: Date)
    requires IsValid(a) && IsValid(b) && Format(a) == Format(b)
    ensures a == b
  {
    ParseCompactFormat(a);
    ParseCompactFormat(b);
  }

  /** `strptime` accepts the zero-padded `YYYY-MM-DD` form of every valid day. */
  lemma TwoDigits(n: nat)
    requires n < 100
    ensures Fixed(n, 2) == [DigitChar(n / 10), DigitChar(n % 10)]
  {
    var q := n / 10;
    assert q < 10 && q % 10 == q && q / 10 == 0;
    assert Fixed(q, 1) == Fixed(0, 0) + [DigitChar(q)];
    assert Fixed(n, 2) == Fixed(q, 1) + [DigitChar(n % 10)];
  }

  lemma MonthTokenPadded(m: int)
    requires 1 <= m <= 12
    ensures MonthToken(Fixed(m, 2)) == Some(m)
  {
    TwoDigits(m);
  }

  lemma DayTokenPadded(dd: int)
    requires 1 <= dd <= 31
    ensures DayToken(Fixed(dd, 2)) == Some(dd)
  {
    TwoDigits(dd);
  }

  lemma ParseDashedPadded(d: Date)
    requires IsValid(d)
    ensures ParseDashed(Fixed(d.year, 4) + "-" + Fixed(d.month, 2) + "-" + Fixed(d.day, 2)) == Some(d)
  {
    var s := Fixed(d.year, 4) + "-" + Fixed(d.month, 2) + "-" + Fixed(d.day, 2);
    assert s[..4] == Fixed(d.year, 4);
    assert s[5..7] == Fixed(d.month, 2);
    assert s[8..] == Fixed(d.day, 2);
    FixedValue(d.year, 4);
    MonthTokenPadded(d.month);
    DayTokenPadded(d.day);
  }
}
