/** The Gregorian calendar, by stepping from day to day, and Gauss' formulas for it as
    `ngx_gmtime()` and `ngx_parse_http_time()` use them. */
module Calendar {

  /** A day: year, month from 1, day from 1, weekday with 0 for Sunday. */
  datatype Date = Date(year: nat, month: nat, day: nat, wday: nat)

  predicate Leap(y: nat) { y % 4 == 0 && (y % 100 != 0 || y % 400 == 0) }

  function MonthDays(y: nat, m: nat): nat {
    if m == 2 then if Leap(y) then 29 else 28
    else if m == 4 || m == 6 || m == 9 || m == 11 then 30
    else 31
  }

  predicate Valid(d: Date) {
    1 <= d.year && 1 <= d.month <= 12 && 1 <= d.day <= MonthDays(d.year, d.month) && d.wday < 7
  }

  function Tomorrow(d: Date): Date {
    var w := (d.wday + 1) % 7;
    if d.day < MonthDays(d.year, d.month) then Date(d.year, d.month, d.day + 1, w)
    else if d.month < 12 then Date(d.year, d.month + 1, 1, w)
    else Date(d.year + 1, 1, 1, w)
  }

  /** The day `n` days after Thursday, January 1, 1970. */
  function DateAt(n: nat): Date {
    if n == 0 then Date(1970, 1, 1, 4) else Tomorrow(DateAt(n - 1))
  }

  // ----- Gauss' formulas; years start on March 1

  /** Days before year `y`, counted from March 1, 1 BC. */
  function YearStart(y: nat): nat { 365 * y + y / 4 - y / 100 + y / 400 }

  /** Days before the month in its year, for months counted from March as 1. */
  function MonthStart(m: nat): int { 367 * m / 12 - 30 }

  const EPOCH: nat := 719468

  /** Days since March 1, 1 BC. */
  function Number(d: Date): int
    requires d.year >= 1
  {
    if d.month > 2 then YearStart(d.year) + MonthStart(d.month - 2) + d.day - 1
    else YearStart(d.year - 1) + MonthStart(d.month + 10) + d.day - 1
  }

  lemma YearStep(y: nat)
    ensures YearStart(y + 1) == YearStart(y) + 365 + if Leap(y + 1) then 1 else 0
  {
    DivStep4(y);
    DivStep100(y);
    DivStep400(y);
  }

  lemma DivStep4(y: nat)
    ensures (y + 1) / 4 == y / 4 + if (y + 1) % 4 == 0 then 1 else 0
    ensures (y + 1) % 100 == 0 ==> (y + 1) % 4 == 0
  {
    assert (y + 1) % 100 == 0 ==> y + 1 == 4 * (25 * ((y + 1) / 100));
  }

  lemma DivStep100(y: nat)
    ensures (y + 1) / 100 == y / 100 + if (y + 1) % 100 == 0 then 1 else 0
  {
  }

  lemma DivStep400(y: nat)
    ensures (y + 1) / 400 == y / 400 + if (y + 1) % 400 == 0 then 1 else 0
    ensures (y + 1) % 400 == 0 ==> (y + 1) % 100 == 0
  {
    assert (y + 1) % 400 == 0 ==> y + 1 == 100 * (4 * ((y + 1) / 400));
  }

  lemma MonthTable()
    ensures MonthStart(1) == 0 && MonthStart(2) == 31 && MonthStart(3) == 61 && MonthStart(4) == 92
    ensures MonthStart(5) == 122 && MonthStart(6) == 153 && MonthStart(7) == 184 && MonthStart(8) == 214
    ensures MonthStart(9) == 245 && MonthStart(10) == 275 && MonthStart(11) == 306 && MonthStart(12) == 337
  {
  }

  /** The number of the next day is the next number. */
  lemma NumberTomorrow(d: Date)
    requires Valid(d)
    ensures Valid(Tomorrow(d)) && Number(Tomorrow(d)) == Number(d) + 1
  {
    hide YearStart, MonthStart, Leap;
    MonthTable();
    YearStep(d.year - 1);
    assert d.month == 1 || d.month == 2 || d.month == 3 || d.month == 4 || d.month == 5 || d.month == 6 ||
           d.month == 7 || d.month == 8 || d.month == 9 || d.month == 10 || d.month == 11 || d.month == 12;
  }

  lemma {:induction false} NumberDateAt(n: nat)
    ensures Valid(DateAt(n)) && Number(DateAt(n)) == n + EPOCH && DateAt(n).wday == (4 + n) % 7
  {
    if n == 0 {
      FirstDay();
    } else {
      NumberDateAt(n - 1);
      hide Number, Valid, Tomorrow;
      NumberTomorrow(DateAt(n - 1));
      NextWeekday(DateAt(n - 1), n);
    }
  }

  lemma NextWeekday(d: Date, n: nat)
    requires n > 0 && d.wday == (4 + n - 1) % 7
    ensures Tomorrow(d).wday == (4 + n) % 7
  {
    hide MonthDays;
  }

  lemma FirstDay()
    ensures Valid(Date(1970, 1, 1, 4)) && Number(Date(1970, 1, 1, 4)) == EPOCH
  {
  }

  // ----- from the number back to the date

  /** 400 times the start of year `y` is close to 146097 times `y`. */
  lemma YearStartNear(y: nat)
    ensures 146097 * y - 591 <= 400 * YearStart(y) <= 146097 * y + 288
  {
    var q, a, b := y / 400, y % 400 / 100, y % 100;
    assert y == 400 * q + 100 * a + b;
    assert y / 4 == 100 * q + 25 * a + b / 4 && y / 100 == 4 * q + a && y / 400 == q;
  }

  /** The first guess at the year is right, or one too large. */
  lemma GuessedYear(n: nat)
    requires n > 400
    ensures var y := (n + 2) * 400 / 146097; y >= 1 && YearStart(y - 1) <= n < YearStart(y + 1)
  {
    var y := (n + 2) * 400 / 146097;
    YearStartNear(y - 1);
    YearStartNear(y + 1);
  }

  lemma {:induction false} YearStartMono(a: nat, b: nat)
    requires a <= b
    ensures YearStart(a) <= YearStart(b)
  {
    if a < b {
      YearStartMono(a, b - 1);
      YearStep(b - 1);
    }
  }

  /** The formula for the month is right for every day of the year. */
  lemma MonthFormula(yday: nat)
    requires yday <= 365
    ensures var m := (yday + 31) * 10 / 306;
            1 <= m <= 12 && MonthStart(m) <= yday && (m < 12 ==> yday < MonthStart(m + 1))
  {
    var m := (yday + 31) * 10 / 306;
    MonthTable();
    hide MonthStart;
    assert m == 1 || m == 2 || m == 3 || m == 4 || m == 5 || m == 6 || m == 7 || m == 8 || m == 9 || m == 10
        || m == 11 || m == 12;
  }

  /** A day lies in the year, from March on, that its number says. */
  lemma NumberBounds(d: Date)
    requires Valid(d)
    ensures var y := if d.month > 2 then d.year else d.year - 1; YearStart(y) <= Number(d) < YearStart(y + 1)
    ensures var m := if d.month > 2 then d.month - 2 else d.month + 10;
            var y := if d.month > 2 then d.year else d.year - 1;
            1 <= m <= 12 && MonthStart(m) <= Number(d) - YearStart(y)
                && (m < 12 ==> Number(d) - YearStart(y) < MonthStart(m + 1))
  {
    MonthTable();
    YearStep(if d.month > 2 then d.year else d.year - 1);
    hide YearStart, MonthStart, Leap;
    assert d.month == 1 || d.month == 2 || d.month == 3 || d.month == 4 || d.month == 5 || d.month == 6 ||
           d.month == 7 || d.month == 8 || d.month == 9 || d.month == 10 || d.month == 11 || d.month == 12;
  }

  lemma MonthUnique(a: nat, b: nat, yday: int)
    requires 1 <= a <= 12 && MonthStart(a) <= yday && (a < 12 ==> yday < MonthStart(a + 1))
    requires 1 <= b <= 12 && MonthStart(b) <= yday && (b < 12 ==> yday < MonthStart(b + 1))
    ensures a == b
  {
  }

  lemma YearOrder(a: nat, b: nat, n: nat)
    requires YearStart(a) <= n < YearStart(b)
    ensures a < b
  {
    if b <= a {
      YearStartMono(b, a);
    }
  }

  lemma YearUnique(a: nat, b: nat, n: nat)
    requires YearStart(a) <= n < YearStart(a + 1) && YearStart(b) <= n < YearStart(b + 1)
    ensures a == b
  {
    YearOrder(a, b + 1, n);
    YearOrder(b, a + 1, n);
  }

  /** The day that a year from March, a day of that year, its month and its weekday make up. */
  lemma DateFrom(d: Date, year: nat, yday: nat)
    requires Valid(d) && Number(d) == YearStart(year) + yday && Number(d) < YearStart(year + 1)
    ensures yday <= 365
    ensures var m := (yday + 31) * 10 / 306;
            && d.day == yday - MonthStart(m) + 1
            && if yday >= 306 then d.year == year + 1 && d.month == m - 10 else d.year == year && d.month == m + 2
  {
    hide YearStart, Leap, MonthDays;
    YearStep(year);
    NumberBounds(d);
    var y := if d.month > 2 then d.year else d.year - 1;
    YearUnique(y, year, Number(d));
    MonthFormula(yday);
    var m, m' := (yday + 31) * 10 / 306, if d.month > 2 then d.month - 2 else d.month + 10;
    MonthUnique(m, m', yday);
    MonthTable();
    hide MonthStart;
  }

  /** The last day of the year 9999 is day 2932896, and no later day has a four-digit year. */
  lemma LastDay(n: nat)
    ensures n <= 2932896 <==> DateAt(n).year <= 9999
    ensures DateAt(n).year >= 1970
  {
    NumberDateAt(n);
    YearIn(DateAt(n), n + EPOCH);
  }

  lemma YearIn(d: Date, number: nat)
    requires Valid(d) && Number(d) == number >= EPOCH
    ensures number <= 3652364 <==> d.year <= 9999
    ensures d.year >= 1970
  {
    hide YearStart, MonthStart, Number, MonthDays;
    NumberBounds(d);
    YearStarts();
    MonthTable();
    var y := if d.month > 2 then d.year else d.year - 1;
    if number <= 3652364 {
      YearOrder(y, 10000, number);
    } else {
      YearOrder(9999, y + 1, number);
    }
    if number < 719527 {
      YearOrder(1969, y + 1, number);
    } else {
      YearOrder(1970, y + 1, number);
    }
  }

  lemma YearStarts()
    ensures YearStart(9999) == 3652059 && YearStart(10000) == 3652425 && YearStart(1970) == 719527
            && YearStart(1969) == 719162
  {
  }
}
