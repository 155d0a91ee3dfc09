/** Times as HTTP writes them: `ngx_gmtime()`, `ngx_http_time()` and `ngx_parse_http_time()`. */
module HttpTime {
  import opened Words
  import opened Calendar

  /** ngx_tm_t: a day and the time of that day. */
  datatype Tm = Tm(date: Date, hour: nat, min: nat, sec: nat)

  const DAY: nat := 86400
  const LAST: int := 253402300799

  /** The calendar day and the time of day `t` seconds after the epoch; times the format cannot
      express are moved to the nearest one it can. */
  function TmAt(t: int): Tm {
    var u := if t < 0 then 0 else if t > LAST then LAST else t;
    TmOf(DateAt(u / DAY), u % DAY)
  }

  function TmOf(d: Date, s: nat): Tm { Tm(d, s / 3600, s % 3600 / 60, s % 60) }

  /** ngx_gmtime(). */
  method Gmtime(t: int) returns (tm: Tm)
    ensures tm == TmAt(t)
  {
    hide DateAt;
    var t' := if t < 0 then 0 else t;
    var days, sec := t' / DAY, t' % DAY;
    if days > 2932896 {
      days := 2932896;
      sec := 86399;
    }
    ghost var s := sec;
    var wday := (4 + days) % 7;
    var hour := sec / 3600;
    sec := sec % 3600;
    var min := sec / 60;
    sec := sec % 60;
    MinuteOfDay(s);
    var year, mon, mday := Civil(days);
    tm := Tm(Date(year, mon, mday, wday), hour, min, sec);
  }

  lemma MinuteOfDay(s: nat)
    ensures s % 3600 % 60 == s % 60
  {
    assert s == 3600 * (s / 3600) + s % 3600;
    assert s == 60 * (60 * (s / 3600) + s % 3600 / 60) + s % 3600 % 60;
  }

  /** The part of ngx_gmtime() that is about the date. */
  method Civil(n: nat) returns (year: nat, mon: nat, mday: nat)
    ensures DateAt(n) == Date(year, mon, mday, (4 + n) % 7)
  {
    NumberDateAt(n);
    hide DateAt, YearStart, MonthStart, Number;
    var days := n - (31 + 28) + 719527;
    GuessedYear(days);
    year := (days + 2) * 400 / (365 * 400 + 100 - 4 + 1);
    YearSum(year);
    YearStep(year - 1);
    var yday := days - (365 * year + year / 4 - year / 100 + year / 400);
    if yday < 0 {
      var leap := if year % 4 == 0 && (year % 100 != 0 || year % 400 == 0) then 1 else 0;
      yday := 365 + leap + yday;
      year := year - 1;
    }
    DateFrom(DateAt(n), year, yday);
    mon := (yday + 31) * 10 / 306;
    MonthSum(mon);
    mday := yday - (367 * mon / 12 - 30) + 1;
    if yday >= 306 {
      year := year + 1;
      mon := mon - 10;
    } else {
      mon := mon + 2;
    }
  }

  lemma YearSum(y: nat)
    ensures YearStart(y) == 365 * y + y / 4 - y / 100 + y / 400
  {
  }

  lemma MonthSum(m: nat)
    ensures MonthStart(m) == 367 * m / 12 - 30
  {
  }

  // ----- printing

  const WEEK: seq<string> := ["Sun", "Mon", "Tue", "Wed", "Thu", "Fri", "Sat"]
  const MONTHS: seq<string> := ["Jan", "Feb", "Mar", "Apr", "May", "Jun", "Jul", "Aug", "Sep", "Oct", "Nov", "Dec"]

  function Digit(n: nat): (c: char)
    requires n < 10
    ensures IsDigit(c) && Value(c) == n
  {
    ('0' as int + n) as char
  }

  /** The conversions %02d and %4d, for numbers that have that many digits. */
  function Dec2(n: nat): (s: string)
    requires n < 100
    ensures |s| == 2
  {
    [Digit(n / 10), Digit(n % 10)]
  }

  function Dec4(n: nat): (s: string)
    requires n < 10000
    ensures |s| == 4
  {
    Dec2(n / 100) + Dec2(n % 100)
  }

  /** Numbers that have as many digits as there is room for; a day or an hour of them need not exist. */
  predicate Written(tm: Tm) {
    && 1 <= tm.date.year <= 9999 && 1 <= tm.date.month <= 12 && tm.date.day < 100 && tm.date.wday < 7
    && tm.hour < 100 && tm.min < 100 && tm.sec < 100
  }

  /** A time in the form IMF-fixdate of section 7.1.1.1 of RFC 7231. */
  function Imf(tm: Tm): string
    requires Written(tm)
  {
    WEEK[tm.date.wday] + ", " + Dec2(tm.date.day) + " " + MONTHS[tm.date.month - 1] + " " + Dec4(tm.date.year) + " " +
    ClockText(tm) + " GMT"
  }

  function ClockText(tm: Tm): (s: string)
    requires tm.hour < 100 && tm.min < 100 && tm.sec < 100
    ensures |s| == 8
  {
    Dec2(tm.hour) + ":" + Dec2(tm.min) + ":" + Dec2(tm.sec)
  }

  lemma TmPrintable(t: int)
    ensures var tm := TmAt(t);
            Valid(tm.date) && 1970 <= tm.date.year <= 9999 && tm.hour < 24 && tm.min < 60 && tm.sec < 60
  {
    hide DateAt;
    var u := if t < 0 then 0 else if t > LAST then LAST else t;
    NumberDateAt(u / DAY);
    LastDay(u / DAY);
  }

  /** ngx_http_time(). */
  method Print(t: int) returns (buf: string)
    ensures Valid(TmAt(t).date) && 1970 <= TmAt(t).date.year <= 9999 && TmAt(t).hour < 24 && TmAt(t).min < 60
            && TmAt(t).sec < 60
    ensures buf == Imf(TmAt(t)) && |buf| == 29
  {
    TmPrintable(t);
    var tm := Gmtime(t);
    hide TmAt;
    buf := WEEK[tm.date.wday] + ", " + Dec2(tm.date.day) + " " + MONTHS[tm.date.month - 1] + " " +
           Dec4(tm.date.year) + " " + ClockText(tm) + " GMT";
  }

  // ----- parsing: what each of the three formats is

  predicate IsDigit(c: char) { '0' <= c <= '9' }

  function Value(c: char): nat
    requires IsDigit(c)
  {
    c as int - '0' as int
  }

  function Two(v: string, p: nat): (r: Option<nat>)
    ensures r.Some? ==> r.value < 100
  {
    if p + 2 <= |v| && IsDigit(v[p]) && IsDigit(v[p + 1]) then Some(Value(v[p]) * 10 + Value(v[p + 1])) else None
  }

  function Four(v: string, p: nat): (r: Option<nat>)
    ensures r.Some? ==> r.value < 10000
  {
    var a :- Two(v, p);
    var b :- Two(v, p + 2);
    Some(a * 100 + b)
  }

  function Expect(v: string, p: nat, c: char): Option<char> {
    if p < |v| && v[p] == c then Some(c) else None
  }

  /** The month, from 0, whose name is at `p`; as few letters are looked at as tell the names apart. */
  function MonthAt(v: string, p: nat): (r: Option<nat>)
    ensures r.Some? ==> r.value < 12
  {
    if p + 3 > |v| then None
    else match v[p]
      case 'J' => Some(if v[p + 1] == 'a' then 0 else if v[p + 2] == 'n' then 5 else 6)
      case 'F' => Some(1)
      case 'M' => Some(if v[p + 2] == 'r' then 2 else 4)
      case 'A' => Some(if v[p + 1] == 'p' then 3 else 7)
      case 'S' => Some(8)
      case 'O' => Some(9)
      case 'N' => Some(10)
      case 'D' => Some(11)
      case _ => None
  }

  datatype Fields = Fields(day: nat, month: nat, year: word, hour: nat, min: nat, sec: nat)

  /** hh:mm:ss */
  function Clock(v: string, p: nat): Option<(nat, nat, nat)> {
    var hour :- Two(v, p);
    var _ :- Expect(v, p + 2, ':');
    var min :- Two(v, p + 3);
    var _ :- Expect(v, p + 5, ':');
    var sec :- Two(v, p + 6);
    Some((hour, min, sec))
  }

  /** 06 Nov 1994 08:49:37 */
  function Rfc822(v: string, p: nat): Option<Fields> {
    var day :- Two(v, p);
    var _ :- Expect(v, p + 2, ' ');
    var month :- MonthAt(v, p + 3);
    var _ :- Expect(v, p + 6, ' ');
    var year :- Four(v, p + 7);
    var _ :- Expect(v, p + 11, ' ');
    var clock :- Clock(v, p + 12);
    Some(Fields(day, month, year, clock.0, clock.1, clock.2))
  }

  /** 06-Nov-94 08:49:37, with years from 1970 to 2069 */
  function Rfc850(v: string, p: nat): Option<Fields> {
    var day :- Two(v, p);
    var _ :- Expect(v, p + 2, '-');
    var month :- MonthAt(v, p + 3);
    var _ :- Expect(v, p + 6, '-');
    var year :- Two(v, p + 7);
    var _ :- Expect(v, p + 9, ' ');
    var clock :- Clock(v, p + 10);
    Some(Fields(day, month, if year < 70 then year + 2000 else year + 1900, clock.0, clock.1, clock.2))
  }

  /** Nov  6 08:49:37 1994, with one or two digits for the day */
  function Asctime(v: string, p: nat): Option<Fields> {
    var month :- MonthAt(v, p);
    var q := if p + 4 < |v| && v[p + 4] == ' ' then p + 5 else p + 4;
    if q + 1 >= |v| || !IsDigit(v[q]) then None
    else if v[q + 1] == ' ' then
      AscRest(v, q + 1, month, Value(v[q]))
    else
      var day :- Two(v, q);
      AscRest(v, q + 2, month, day)
  }

  function AscRest(v: string, p: nat, month: nat, day: nat): Option<Fields> {
    var _ :- Expect(v, p, ' ');
    var clock :- Clock(v, p + 1);
    var _ :- Expect(v, p + 9, ' ');
    var year :- Four(v, p + 10);
    Some(Fields(day, month, year, clock.0, clock.1, clock.2))
  }

  /** The first comma or blank from `p` on. */
  function Separator(v: string, p: nat): (q: nat)
    requires p <= |v|
    ensures p <= q <= |v|
    decreases |v| - p
  {
    if p == |v| || v[p] == ',' || v[p] == ' ' then p else Separator(v, p + 1)
  }

  /** The first character from `p` on that is not a blank. */
  function NonBlank(v: string, p: nat): (q: nat)
    ensures p <= q && (p <= |v| ==> q <= |v|)
    decreases |v| - p
  {
    if p >= |v| || v[p] != ' ' then p else NonBlank(v, p + 1)
  }

  function Parsed(v: string): Option<Fields> {
    var q := Separator(v, 0);
    var p := NonBlank(v, q + 1);
    if |v| - p < 18 then None
    else if q < |v| && v[q] == ' ' then Asctime(v, p)
    else if v[p + 2] == ' ' then Rfc822(v, p)
    else Rfc850(v, p)
  }

  /** The time the fields stand for, in seconds since the epoch.  All arithmetic is on unsigned
      words, so the January of a year 0 wraps around. */
  function Seconds(f: Fields): int {
    if f.month - 1 <= 0 then Wrapped(Total(WrapSub(f.year, 1), f.month - 1 + 12, f))
    else Wrapped(Total(f.year, f.month - 1, f))
  }

  function Total(year: word, month: int, f: Fields): int {
    Gauss(year, month, f.day) * DAY + f.hour * 3600 + f.min * 60 + f.sec
  }

  /** What is left of a sum in 64 bits, read as a time_t. */
  function Wrapped(x: int): int { Signed(x % WORD_SIZE) }

  /** Days since the epoch, for months counted from March as 1. */
  function Gauss(year: word, month: int, day: int): int {
    365 * year + year / 4 - year / 100 + year / 400 + 367 * month / 12 - 30 + day - 1 - 719527 + 31 + 28
  }

  /** What text `v` means: nothing, or a number of seconds. */
  function Meaning(v: string): Option<int> {
    var f :- Parsed(v);
    Evaluated(f)
  }

  function Evaluated(f: Fields): Option<int> {
    if f.hour > 23 || f.min > 59 || f.sec > 59 || f.day > MonthDays(f.year, f.month + 1) then None
    else Some(Seconds(f))
  }

  // ----- parsing: how it is done

  const ERROR: int := -1

  function OrError(r: Option<int>): int { if r.Some? then r.value else ERROR }

  /** Past the weekday: the place the date starts at, and whether the weekday ended with a blank. */
  method SkipWeekday(v: string) returns (p: nat, isoc: bool)
    ensures var q := Separator(v, 0); p == NonBlank(v, q + 1) && (isoc <==> q < |v| && v[q] == ' ')
  {
    p, isoc := 0, false;
    while p < |v|
      invariant p <= |v| && Separator(v, 0) == Separator(v, p)
    {
      if v[p] == ',' {
        break;
      }
      if v[p] == ' ' {
        isoc := true;
        break;
      }
      p := p + 1;
    }
    ghost var q := Separator(v, p);
    p := p + 1;
    while p < |v|
      invariant p <= |v| + 1 && NonBlank(v, q + 1) == NonBlank(v, p)
    {
      if v[p] != ' ' {
        break;
      }
      p := p + 1;
    }
  }

  /** The switch on the month. */
  method ParseMonth(v: string, p: nat) returns (month: int)
    requires p + 3 <= |v|
    ensures month == OrError(MonthAt(v, p))
  {
    match v[p] {
      case 'J' =>
        if v[p + 1] == 'a' { month := 0; } else if v[p + 2] == 'n' { month := 5; } else { month := 6; }
      case 'F' => month := 1;
      case 'M' => month := if v[p + 2] == 'r' then 2 else 4;
      case 'A' => month := if v[p + 1] == 'p' then 3 else 7;
      case 'S' => month := 8;
      case 'O' => month := 9;
      case 'N' => month := 10;
      case 'D' => month := 11;
      case _ => month := ERROR;
    }
  }

  /** Two digits, as the code tests and evaluates them all over. */
  method ParseTwo(v: string, p: nat) returns (n: int)
    requires p + 2 <= |v|
    ensures n == OrError(Two(v, p))
  {
    if v[p] < '0' || v[p] > '9' || v[p + 1] < '0' || v[p + 1] > '9' {
      return ERROR;
    }
    n := (v[p] as int - '0' as int) * 10 + (v[p + 1] as int - '0' as int);
  }

  method ParseFour(v: string, p: nat) returns (n: int)
    requires p + 4 <= |v|
    ensures n == OrError(Four(v, p))
  {
    if v[p] < '0' || v[p] > '9' || v[p + 1] < '0' || v[p + 1] > '9'
       || v[p + 2] < '0' || v[p + 2] > '9' || v[p + 3] < '0' || v[p + 3] > '9' {
      return ERROR;
    }
    n := (v[p] as int - '0' as int) * 1000 + (v[p + 1] as int - '0' as int) * 100
         + (v[p + 2] as int - '0' as int) * 10 + (v[p + 3] as int - '0' as int);
  }

  /** Hours, minutes and seconds; `ok` says whether they are well-formed. */
  method ParseClock(v: string, p0: nat) returns (ok: bool, hour: int, min: int, sec: int)
    requires p0 + 8 <= |v|
    ensures ok <==> Clock(v, p0).Some?
    ensures ok ==> Clock(v, p0).value == (hour, min, sec)
  {
    var p := p0;
    ok, hour, min, sec := false, 0, 0, 0;
    hour := ParseTwo(v, p);
    if hour < 0 {
      return;
    }
    p := p + 2;
    if v[p] != ':' {
      return;
    }
    p := p + 1;
    min := ParseTwo(v, p);
    if min < 0 {
      return;
    }
    p := p + 2;
    if v[p] != ':' {
      return;
    }
    p := p + 1;
    sec := ParseTwo(v, p);
    ok := sec >= 0;
  }

  /** ngx_parse_http_time(), from the date on, for dates that start with the day. */
  method ParseDay(v: string, p0: nat) returns (r: Option<Fields>)
    requires |v| - p0 >= 18
    ensures r == if v[p0 + 2] == ' ' then Rfc822(v, p0) else Rfc850(v, p0)
  {
    hide Two, Four, Clock, MonthAt;
    TwoSome(v, p0);
    var p := p0;
    var day := ParseTwo(v, p);
    if day < 0 {
      return None;
    }
    p := p + 2;
    var rfc822 := v[p] == ' ';
    if rfc822 {
      if |v| - p < 18 {
        ClockNone(v, p0 + 12);
        return None;
      }
    } else if v[p] != '-' {
      return None;
    }
    p := p + 1;
    var month := ParseMonth(v, p);
    if month < 0 {
      return None;
    }
    p := p + 3;
    if (rfc822 && v[p] != ' ') || (!rfc822 && v[p] != '-') {
      return None;
    }
    p := p + 1;
    var year;
    if rfc822 {
      year := ParseFour(v, p);
      if year < 0 {
        return None;
      }
      p := p + 4;
    } else {
      year := ParseTwo(v, p);
      if year < 0 {
        return None;
      }
      year := year + if year < 70 then 2000 else 1900;
      p := p + 2;
    }
    if v[p] != ' ' {
      return None;
    }
    p := p + 1;
    var ok, hour, min, sec := ParseClock(v, p);
    if !ok {
      return None;
    }
    r := Some(Fields(day, month, year, hour, min, sec));
  }

  lemma TwoSome(v: string, p: nat)
    ensures Two(v, p).Some? ==> p + 2 <= |v| && Two(v, p).value < 100
  {
  }

  lemma ClockNone(v: string, p: nat)
    requires p + 8 > |v|
    ensures Clock(v, p).None?
  {
  }

  /** The same for dates that start with the month. */
  method ParseAsc(v: string, p0: nat) returns (r: Option<Fields>)
    requires |v| - p0 >= 18
    ensures r == Asctime(v, p0)
  {
    hide Four, Clock, MonthAt;
    var p := p0;
    var month := ParseMonth(v, p);
    if month < 0 {
      return None;
    }
    p := p + 4;
    if v[p] == ' ' {
      p := p + 1;
    }
    if v[p] < '0' || v[p] > '9' {
      return None;
    }
    var day := v[p] as int - '0' as int;
    p := p + 1;
    if v[p] != ' ' {
      if v[p] < '0' || v[p] > '9' {
        return None;
      }
      day := day * 10 + (v[p] as int - '0' as int);
      p := p + 1;
    }
    if |v| - p < 14 {
      FourNone(v, p + 10);
      return None;
    }
    if v[p] != ' ' {
      return None;
    }
    p := p + 1;
    var ok, hour, min, sec := ParseClock(v, p);
    if !ok {
      return None;
    }
    p := p + 8;
    if v[p] != ' ' {
      return None;
    }
    p := p + 1;
    var year := ParseFour(v, p);
    if year < 0 {
      return None;
    }
    r := Some(Fields(day, month, year, hour, min, sec));
  }

  lemma FourNone(v: string, p: nat)
    requires p + 4 > |v|
    ensures Four(v, p).None?
  {
  }

  /** ngx_parse_http_time(). */
  method Parse(v: string) returns (time: int)
    ensures time == OrError(Meaning(v))
  {
    hide Asctime, Rfc822, Rfc850, Evaluated;
    var p, isoc := SkipWeekday(v);
    if |v| - p < 18 {
      return ERROR;
    }
    var fields: Option<Fields>;
    if isoc {
      fields := ParseAsc(v, p);
    } else {
      fields := ParseDay(v, p);
    }
    if fields.None? {
      return ERROR;
    }
    FieldsBounded(v, fields.value);
    hide Parsed, Evaluated;
    time := Evaluate(fields.value);
  }

  /** The checks and the arithmetic at the end. */
  method Evaluate(f: Fields) returns (time: int)
    requires f.month < 12
    ensures time == OrError(Evaluated(f))
  {
    if f.hour > 23 || f.min > 59 || f.sec > 59 {
      return ERROR;
    }
    var mday := [31, 28, 31, 30, 31, 30, 31, 31, 30, 31, 30, 31];
    MonthLengths(f.year, f.month);
    if f.day == 29 && f.month == 1 {
      if f.year % 4 != 0 || (f.year % 100 == 0 && f.year % 400 != 0) {
        return ERROR;
      }
    } else if f.day > mday[f.month] {
      return ERROR;
    }
    hide MonthDays, Wrapped, Total;
    var month: int, year: word := f.month, f.year;
    month := month - 1;
    if month <= 0 {
      month := month + 12;
      year := WrapSub(year, 1);
    }
    time := Wrapped(Total(year, month, f));
  }

  lemma MonthLengths(y: nat, m: nat)
    requires m < 12
    ensures var mday := [31, 28, 31, 30, 31, 30, 31, 31, 30, 31, 30, 31];
            MonthDays(y, m + 1) == if m == 1 && Leap(y) then 29 else mday[m]
  {
  }

  lemma FieldsBounded(v: string, f: Fields)
    requires Parsed(v) == Some(f)
    ensures f.month < 12
  {
    hide Clock;
  }

  // ----- what is printed is parsed back

  /** The second that the fields name, counted from the epoch; it may be negative, and day 0 is the day before the
      first of the month. */
  function Instant(tm: Tm): int
    requires tm.date.year >= 1
  {
    (Number(tm.date) - EPOCH) * DAY + tm.hour * 3600 + tm.min * 60 + tm.sec
  }

  predicate Printable(tm: Tm) {
    Valid(tm.date) && tm.date.year <= 9999 && tm.hour < 24 && tm.min < 60 && tm.sec < 60
  }

  /** The day and the time of day exist; day 0 is let through. */
  predicate Exists(tm: Tm) {
    tm.hour < 24 && tm.min < 60 && tm.sec < 60 && tm.date.day <= MonthDays(tm.date.year, tm.date.month)
  }

  function FieldsOf(tm: Tm): Fields
    requires Written(tm)
  {
    Fields(tm.date.day, tm.date.month - 1, tm.date.year, tm.hour, tm.min, tm.sec)
  }

  /** The formula counts days, for every date of the years 1 to 9999, and what does not exist is refused. */
  lemma SecondsCount(tm: Tm)
    requires Written(tm)
    ensures Evaluated(FieldsOf(tm)) == if Exists(tm) then Some(Instant(tm)) else None
  {
    if Exists(tm) {
      TotalIs(tm);
      NumberRange(tm.date);
      InstantRange(tm);
      hide Total, Wrapped, Instant, Number;
      WrappedSmall(Instant(tm));
    }
  }

  lemma TotalIs(tm: Tm)
    requires Written(tm)
    ensures var f := FieldsOf(tm);
            Instant(tm) == if f.month <= 1 then Total(f.year - 1, f.month + 11, f) else Total(f.year, f.month - 1, f)
  {
    var d := tm.date;
    GaussIs(if d.month > 2 then d.year else d.year - 1, if d.month > 2 then d.month - 2 else d.month + 10, d.day);
    hide Gauss, YearStart, MonthStart, MonthDays;
  }

  lemma InstantRange(tm: Tm)
    requires Written(tm) && -1 <= Number(tm.date) < 4000000
    ensures -HALF_WORD <= Instant(tm) < HALF_WORD
  {
    hide Number;
  }

  lemma WrappedSmall(x: int)
    requires -HALF_WORD <= x < HALF_WORD
    ensures Wrapped(x) == x
  {
  }

  lemma NumberRange(d: Date)
    requires 1 <= d.year <= 9999 && 1 <= d.month <= 12 && d.day <= MonthDays(d.year, d.month)
    ensures -1 <= Number(d) < 4000000
  {
    hide YearStart, MonthStart;
    var d1 := Date(d.year, d.month, if d.day == 0 then 1 else d.day, 0);
    assert Number(d) == Number(d1) - if d.day == 0 then 1 else 0;
    hide Number;
    NumberBounds(d1);
    YearStartNear((if d.month > 2 then d.year else d.year - 1) + 1);
  }

  lemma GaussIs(y: word, m: nat, day: nat)
    ensures Gauss(y, m, day) == YearStart(y) + MonthStart(m) + day - 1 - EPOCH
  {
  }

  lemma DecimalTwo(v: string, p: nat, n: nat)
    requires n < 100 && p + 2 <= |v| && v[p..p + 2] == Dec2(n)
    ensures Two(v, p) == Some(n)
  {
    assert v[p] == v[p..p + 2][0] && v[p + 1] == v[p..p + 2][1];
  }

  lemma DecimalFour(v: string, p: nat, n: nat)
    requires n < 10000 && p + 4 <= |v| && v[p..p + 4] == Dec4(n)
    ensures Four(v, p) == Some(n)
  {
    assert v[p..p + 2] == v[p..p + 4][..2] == Dec2(n / 100);
    assert v[p + 2..p + 4] == v[p..p + 4][2..] == Dec2(n % 100);
    DecimalTwo(v, p, n / 100);
    DecimalTwo(v, p + 2, n % 100);
  }

  lemma NamedMonth(v: string, p: nat, m: nat)
    requires m < 12 && p + 3 <= |v| && v[p..p + 3] == MONTHS[m]
    ensures MonthAt(v, p) == Some(m)
  {
    var s := v[p..p + 3];
    assert v[p] == s[0] && v[p + 1] == s[1] && v[p + 2] == s[2];
    assert m == 0 || m == 1 || m == 2 || m == 3 || m == 4 || m == 5 || m == 6 || m == 7 || m == 8 || m == 9 || m == 10
        || m == 11;
  }

  lemma PrintedClock(v: string, p: nat, tm: Tm)
    requires tm.hour < 100 && tm.min < 100 && tm.sec < 100 && p + 8 <= |v|
    requires v[p..p + 8] == ClockText(tm)
    ensures Clock(v, p) == Some((tm.hour, tm.min, tm.sec))
  {
    hide Two, Dec2;
    ClockParts(v, p, Dec2(tm.hour), Dec2(tm.min), Dec2(tm.sec));
    DecimalTwo(v, p, tm.hour);
    DecimalTwo(v, p + 3, tm.min);
    DecimalTwo(v, p + 6, tm.sec);
  }

  lemma ClockParts(v: string, p: nat, a: string, b: string, c: string)
    requires |a| == |b| == |c| == 2 && p + 8 <= |v| && v[p..p + 8] == a + ":" + b + ":" + c
    ensures v[p..p + 2] == a && v[p + 3..p + 5] == b && v[p + 6..p + 8] == c && v[p + 2] == ':' && v[p + 5] == ':'
  {
    var s := v[p..p + 8];
    assert s[..8] == s;
    LastPart(s, a + ":" + b + ":", c);
    LastPart(s, a + ":" + b, ":");
    LastPart(s, a + ":", b);
    LastPart(s, a, ":");
    Inner(v, p, 8, 0, 2);
    Inner(v, p, 8, 3, 5);
    Inner(v, p, 8, 6, 8);
    assert s[2] == s[2..3][0] && s[5] == s[5..6][0];
  }

  /** The last part of a text put together from the front. */
  lemma LastPart(v: string, p: string, x: string)
    requires |p| + |x| <= |v| && v[..|p| + |x|] == p + x
    ensures v[..|p|] == p && v[|p|..|p| + |x|] == x
  {
    assert v[..|p|] == (p + x)[..|p|];
    assert v[|p|..|p| + |x|] == (p + x)[|p|..];
  }

  lemma Inner(v: string, p: nat, n: nat, i: nat, j: nat)
    requires i <= j <= n && p + n <= |v|
    ensures v[p..p + n][i..j] == v[p + i..p + j]
  {
    var s := v[p..p + n];
    assert forall k :: 0 <= k < n ==> s[k] == v[p + k];
    assert s[i..j] == v[p + i..p + j];
  }

  /** The text of a date in IMF-fixdate means that date, if there is one. */
  lemma ImfMeans(tm: Tm)
    requires Written(tm)
    ensures Meaning(Imf(tm)) == if Exists(tm) then Some(Instant(tm)) else None
  {
    var v := Imf(tm);
    ImfParts(tm, v);
    hide Imf, Dec2, Dec4, ClockText, Exists, Instant, Parsed, Evaluated, Meaning, Rfc822;
    Rfc822Fields(v, 5, tm);
    ParsedAs(v, 3, 5);
    FieldsMean(v, tm);
  }

  lemma Rfc822Fields(v: string, p: nat, tm: Tm)
    requires Written(tm) && p + 20 <= |v| && v[p + 2] == v[p + 6] == v[p + 11] == ' '
    requires v[p..p + 2] == Dec2(tm.date.day) && v[p + 3..p + 6] == MONTHS[tm.date.month - 1]
    requires v[p + 7..p + 11] == Dec4(tm.date.year) && v[p + 12..p + 20] == ClockText(tm)
    ensures Rfc822(v, p) == Some(FieldsOf(tm))
  {
    hide Two, Four, Clock, MonthAt, Dec2, Dec4;
    DecimalTwo(v, p, tm.date.day);
    NamedMonth(v, p + 3, tm.date.month - 1);
    DecimalFour(v, p + 7, tm.date.year);
    PrintedClock(v, p + 12, tm);
  }

  lemma ImfParts(tm: Tm, v: string)
    requires Written(tm) && v == Imf(tm)
    ensures |v| == 29 && v[3] == ',' && v[4] == ' ' && v[7] == ' ' && v[11] == ' ' && v[16] == ' '
    ensures forall i :: 0 <= i < 3 ==> v[i] != ',' && v[i] != ' '
    ensures v[5] != ' '
    ensures v[5..7] == Dec2(tm.date.day) && v[8..11] == MONTHS[tm.date.month - 1] && v[12..16] == Dec4(tm.date.year)
    ensures v[17..25] == ClockText(tm)
  {
    var w, day := WEEK[tm.date.wday], Dec2(tm.date.day);
    Names(tm.date.wday, tm.date.month - 1);
    assert IsDigit(day[0]);
    hide Dec2, Dec4, ClockText;
    Pieces(w, day, MONTHS[tm.date.month - 1], Dec4(tm.date.year), ClockText(tm), v);
  }

  lemma Names(wday: nat, month: nat)
    requires wday < 7 && month < 12
    ensures |WEEK[wday]| == |MONTHS[month]| == 3 && MONTHS[month][0] != ' ' && WEEK[wday] == WEEKDAYS[wday][..3]
    ensures forall i :: 0 <= i < |WEEKDAYS[wday]| ==> WEEKDAYS[wday][i] != ',' && WEEKDAYS[wday][i] != ' '
  {
  }

  lemma Pieces(w: string, d: string, m: string, y: string, c: string, v: string)
    requires |w| == 3 && |d| == 2 && |m| == 3 && |y| == 4 && |c| == 8
    requires v == w + ", " + d + " " + m + " " + y + " " + c + " GMT"
    ensures |v| == 29 && v[..3] == w && v[3] == ',' && v[4] == ' ' && v[5..7] == d && v[7] == ' ' && v[8..11] == m
    ensures v[11] == ' ' && v[12..16] == y && v[16] == ' ' && v[17..25] == c && v[5] == d[0]
  {
    var p1 := w + ", ";
    var p2 := p1 + d;
    var p3 := p2 + " ";
    var p4 := p3 + m;
    var p5 := p4 + " ";
    var p6 := p5 + y;
    var p7 := p6 + " ";
    var p8 := p7 + c;
    assert v[..25] == p8;
    LastPart(v, p7, c);
    LastPart(v, p6, " ");
    LastPart(v, p5, y);
    LastPart(v, p4, " ");
    LastPart(v, p3, m);
    LastPart(v, p2, " ");
    LastPart(v, p1, d);
    LastPart(v, w, ", ");
    Singles(v);
  }

  lemma Singles(v: string)
    requires |v| == 29
    ensures v[3] == v[3..5][0] && v[4] == v[3..5][1] && v[5] == v[5..7][0]
    ensures v[7] == v[7..8][0] && v[11] == v[11..12][0] && v[16] == v[16..17][0]
  {
  }

  /** The weekday ends at `q` and the date starts at `p`. */
  lemma SkipsTo(v: string, q: nat, p: nat)
    requires q < p < |v| && (v[q] == ',' || v[q] == ' ') && v[p] != ' '
    requires forall i :: 0 <= i < q ==> v[i] != ',' && v[i] != ' '
    requires forall i :: q < i < p ==> v[i] == ' '
    ensures Separator(v, 0) == q && NonBlank(v, q + 1) == p
  {
    SeparatorFrom(v, 0, q);
    NonBlankFrom(v, q + 1, p);
  }

  lemma {:induction false} SeparatorFrom(v: string, i: nat, q: nat)
    requires i <= q < |v| && (v[q] == ',' || v[q] == ' ')
    requires forall k :: i <= k < q ==> v[k] != ',' && v[k] != ' '
    ensures Separator(v, i) == q
    decreases q - i
  {
    if i < q {
      SeparatorFrom(v, i + 1, q);
    }
  }

  lemma {:induction false} NonBlankFrom(v: string, i: nat, p: nat)
    requires i <= p < |v| && v[p] != ' ' && forall k :: i <= k < p ==> v[k] == ' '
    ensures NonBlank(v, i) == p
    decreases p - i
  {
    if i < p {
      NonBlankFrom(v, i + 1, p);
    }
  }

  // ----- the two older forms, of section 7.1.1.1 of RFC 7231

  const WEEKDAYS: seq<string> := ["Sunday", "Monday", "Tuesday", "Wednesday", "Thursday", "Friday", "Saturday"]

  /** The form of RFC 850, with the last two digits of the year. */
  function Rfc850Text(tm: Tm): string
    requires Written(tm)
  {
    WEEKDAYS[tm.date.wday] + ", " + Dec2(tm.date.day) + "-" + MONTHS[tm.date.month - 1] + "-" +
    Dec2(tm.date.year % 100) + " " + ClockText(tm) + " GMT"
  }

  /** The form of asctime(), with the day spelled as `day`. */
  function AsctimeText(tm: Tm, day: string): string
    requires Written(tm)
  {
    WEEK[tm.date.wday] + " " + MONTHS[tm.date.month - 1] + " " + day + " " + ClockText(tm) + " " + Dec4(tm.date.year)
  }

  /** A number with two digits, or with one, before which there may be a blank. */
  predicate Spells(day: string, n: nat)
    requires n < 100
  {
    day == Dec2(n) || (n < 10 && (day == [' ', Digit(n)] || day == [Digit(n)]))
  }

  /** The text of a date of the years 1970 to 2069 in the form of RFC 850 means that date, if there is one. */
  lemma Rfc850Means(tm: Tm)
    requires Written(tm) && 1970 <= tm.date.year <= 2069
    ensures Meaning(Rfc850Text(tm)) == if Exists(tm) then Some(Instant(tm)) else None
  {
    var v, n := Rfc850Text(tm), |WEEKDAYS[tm.date.wday]|;
    Rfc850Parts(tm, v);
    hide Rfc850Text, Dec2, ClockText, Exists, Instant, Parsed, Evaluated, Meaning, Rfc850;
    Rfc850Fields(v, n + 2, tm);
    ParsedAs(v, n, n + 2);
    FieldsMean(v, tm);
  }

  lemma FieldsMean(v: string, tm: Tm)
    requires Written(tm) && Parsed(v) == Some(FieldsOf(tm))
    ensures Meaning(v) == if Exists(tm) then Some(Instant(tm)) else None
  {
    hide Exists, Instant, Parsed, Evaluated, Meaning;
    SecondsCount(tm);
    Evaluates(v, FieldsOf(tm));
  }

  /** Which of the three readings is taken. */
  lemma ParsedAs(v: string, q: nat, p: nat)
    requires q < p && p + 18 <= |v| && (v[q] == ',' || v[q] == ' ') && v[p] != ' '
    requires forall i :: 0 <= i < q ==> v[i] != ',' && v[i] != ' '
    requires forall i :: q < i < p ==> v[i] == ' '
    ensures Parsed(v) == if v[q] == ' ' then Asctime(v, p) else if v[p + 2] == ' ' then Rfc822(v, p) else Rfc850(v, p)
  {
    hide Asctime, Rfc822, Rfc850, Separator, NonBlank;
    SkipsTo(v, q, p);
  }

  lemma Evaluates(v: string, f: Fields)
    requires Parsed(v) == Some(f)
    ensures Meaning(v) == Evaluated(f)
  {
    hide Parsed, Evaluated;
  }

  lemma Rfc850Fields(v: string, p: nat, tm: Tm)
    requires Written(tm) && 1970 <= tm.date.year <= 2069 && p + 18 <= |v| && v[p + 2] == v[p + 6] == '-'
    requires v[p..p + 2] == Dec2(tm.date.day) && v[p + 3..p + 6] == MONTHS[tm.date.month - 1]
    requires v[p + 7..p + 9] == Dec2(tm.date.year % 100) && v[p + 9] == ' ' && v[p + 10..p + 18] == ClockText(tm)
    ensures Rfc850(v, p) == Some(FieldsOf(tm))
  {
    hide Two, Clock, MonthAt, Dec2;
    DecimalTwo(v, p, tm.date.day);
    NamedMonth(v, p + 3, tm.date.month - 1);
    DecimalTwo(v, p + 7, tm.date.year % 100);
    PrintedClock(v, p + 10, tm);
  }

  lemma Rfc850Parts(tm: Tm, v: string)
    requires Written(tm) && v == Rfc850Text(tm)
    ensures var n := |WEEKDAYS[tm.date.wday]|;
            && |v| == n + 24 && v[n] == ',' && v[n + 1] == ' ' && v[n + 2] != ' ' && v[n + 4] == '-' && v[n + 8] == '-'
            && v[n + 11] == ' ' && (forall i :: 0 <= i < n ==> v[i] != ',' && v[i] != ' ')
            && v[n + 2..n + 4] == Dec2(tm.date.day) && v[n + 5..n + 8] == MONTHS[tm.date.month - 1]
            && v[n + 9..n + 11] == Dec2(tm.date.year % 100) && v[n + 12..n + 20] == ClockText(tm)
  {
    var w, d, m, y, c := WEEKDAYS[tm.date.wday], Dec2(tm.date.day), MONTHS[tm.date.month - 1],
                         Dec2(tm.date.year % 100), ClockText(tm);
    Names(tm.date.wday, tm.date.month - 1);
    assert IsDigit(d[0]);
    hide Dec2, ClockText;
    Rfc850Pieces(w, d, m, y, c, v);
  }

  lemma Rfc850Pieces(w: string, d: string, m: string, y: string, c: string, v: string)
    requires |d| == 2 && |m| == 3 && |y| == 2 && |c| == 8
    requires v == w + ", " + d + "-" + m + "-" + y + " " + c + " GMT"
    ensures var n := |w|;
            && |v| == n + 24 && v[..n] == w && v[n] == ',' && v[n + 1] == ' ' && v[n + 2] == d[0] && v[n + 4] == '-'
            && v[n + 8] == '-' && v[n + 11] == ' ' && v[n + 2..n + 4] == d && v[n + 5..n + 8] == m
            && v[n + 9..n + 11] == y && v[n + 12..n + 20] == c
  {
    var n, p1 := |w|, w + ", ";
    var p2 := p1 + d;
    var p3 := p2 + "-";
    var p4 := p3 + m;
    var p5 := p4 + "-";
    var p6 := p5 + y;
    var p7 := p6 + " ";
    assert v[..n + 20] == p7 + c;
    LastPart(v, p7, c);
    LastPart(v, p6, " ");
    LastPart(v, p5, y);
    LastPart(v, p4, "-");
    LastPart(v, p3, m);
    LastPart(v, p2, "-");
    LastPart(v, p1, d);
    LastPart(v, w, ", ");
    assert v[n] == v[n..n + 2][0] && v[n + 1] == v[n..n + 2][1] && v[n + 2] == v[n + 2..n + 4][0];
    assert v[n + 4] == v[n + 4..n + 5][0] && v[n + 8] == v[n + 8..n + 9][0] && v[n + 11] == v[n + 11..n + 12][0];
  }

  /** The text of a date in the form of asctime() means that date, if there is one, however the day is spelled. */
  lemma AsctimeMeans(tm: Tm, day: string)
    requires Written(tm) && Spells(day, tm.date.day)
    ensures Meaning(AsctimeText(tm, day)) == if Exists(tm) then Some(Instant(tm)) else None
  {
    var v := AsctimeText(tm, day);
    AsctimeParts(tm, day, v);
    hide AsctimeText, Dec2, Dec4, ClockText, Exists, Instant, Spells, Asctime, Evaluated, Parsed, Meaning;
    AsctimeFields(v, day, tm);
    ParsedAs(v, 3, 4);
    FieldsMean(v, tm);
  }

  lemma AsctimeFields(v: string, day: string, tm: Tm)
    requires Written(tm) && Spells(day, tm.date.day) && 1 <= |day| && |v| == |day| + 22
    requires v[4..7] == MONTHS[tm.date.month - 1] && v[8..|day| + 8] == day
    requires v[7] == v[|day| + 8] == v[|day| + 17] == ' '
    requires v[|day| + 9..|day| + 17] == ClockText(tm) && v[|day| + 18..|day| + 22] == Dec4(tm.date.year)
    ensures Asctime(v, 4) == Some(FieldsOf(tm))
  {
    hide Dec2, Dec4, ClockText, Spells, Asctime, AscRest, MonthAt;
    NamedMonth(v, 4, tm.date.month - 1);
    AsctimeRest(v, |day| + 8, tm);
    SpelledDay(v, day, tm.date.month - 1, tm.date.day);
  }

  lemma AsctimeRest(v: string, p: nat, tm: Tm)
    requires Written(tm) && p + 14 <= |v| && v[p] == ' ' && v[p + 9] == ' '
    requires v[p + 1..p + 9] == ClockText(tm) && v[p + 10..p + 14] == Dec4(tm.date.year)
    ensures AscRest(v, p, tm.date.month - 1, tm.date.day) == Some(FieldsOf(tm))
  {
    hide Four, Clock, Dec4;
    PrintedClock(v, p + 1, tm);
    DecimalFour(v, p + 10, tm.date.year);
  }

  lemma SpelledDay(v: string, day: string, month: nat, n: nat)
    requires n < 100 && Spells(day, n) && |v| >= |day| + 9 && v[8..8 + |day|] == day && v[7] == v[8 + |day|] == ' '
    requires MonthAt(v, 4) == Some(month)
    ensures Asctime(v, 4) == AscRest(v, |day| + 8, month, n)
  {
    hide AscRest, MonthAt;
    assert v[8] == v[8..8 + |day|][0] && (|day| == 2 ==> v[9] == v[8..8 + |day|][1]);
    if day == Dec2(n) {
      DecimalTwo(v, 8, n);
    }
  }

  lemma AsctimeParts(tm: Tm, day: string, v: string)
    requires Written(tm) && Spells(day, tm.date.day) && v == AsctimeText(tm, day)
    ensures var k := |day|;
            && 1 <= k <= 2 && |v| == k + 22 && v[3] == ' ' && v[4] != ' ' && v[7] == ' ' && v[k + 8] == ' '
            && v[k + 17] == ' ' && (forall i :: 0 <= i < 3 ==> v[i] != ',' && v[i] != ' ')
            && v[4..7] == MONTHS[tm.date.month - 1] && v[8..k + 8] == day && v[k + 9..k + 17] == ClockText(tm)
            && v[k + 18..k + 22] == Dec4(tm.date.year)
  {
    var w, m, c, y := WEEK[tm.date.wday], MONTHS[tm.date.month - 1], ClockText(tm), Dec4(tm.date.year);
    Names(tm.date.wday, tm.date.month - 1);
    hide Dec4, ClockText;
    AsctimePieces(w, m, day, c, y, v);
  }

  lemma AsctimePieces(w: string, m: string, d: string, c: string, y: string, v: string)
    requires |w| == 3 && |m| == 3 && |y| == 4 && |c| == 8
    requires v == w + " " + m + " " + d + " " + c + " " + y
    ensures var k := |d|;
            && |v| == k + 22 && v[..3] == w && v[3] == ' ' && v[4] == m[0] && v[7] == ' ' && v[k + 8] == ' '
            && v[k + 17] == ' ' && v[4..7] == m && v[8..k + 8] == d && v[k + 9..k + 17] == c && v[k + 18..k + 22] == y
  {
    var k, p1 := |d|, w + " ";
    var p2 := p1 + m;
    var p3 := p2 + " ";
    var p4 := p3 + d;
    var p5 := p4 + " ";
    var p6 := p5 + c;
    var p7 := p6 + " ";
    assert v[..k + 22] == v == p7 + y;
    LastPart(v, p7, y);
    LastPart(v, p6, " ");
    LastPart(v, p5, c);
    LastPart(v, p4, " ");
    LastPart(v, p3, d);
    LastPart(v, p2, " ");
    LastPart(v, p1, m);
    LastPart(v, w, " ");
    assert v[3] == v[3..4][0] && v[4] == v[4..7][0] && v[7] == v[7..8][0];
    assert v[k + 8] == v[k + 8..k + 9][0] && v[k + 17] == v[k + 17..k + 18][0];
  }

  /** A date is taken without being one just when it exists but for its day, which is 0. */
  lemma DayZero(tm: Tm)
    requires Written(tm)
    ensures Meaning(Imf(tm)).Some? && !Valid(tm.date) <==> Exists(tm) && tm.date.day == 0
  {
    ImfMeans(tm);
    hide Meaning, Imf, Instant, MonthDays;
  }

  lemma DayZeroTaken()
    ensures Meaning("Sun, 00 Nov 1994 08:49:37 GMT") == Some(783593377)
  {
    var zero := Tm(Date(1994, 11, 0, 0), 8, 49, 37);
    assert Exists(zero) && Instant(zero) == 783593377;
    ZeroText();
    hide Meaning, Imf, Instant, Exists;
    ImfMeans(zero);
  }

  lemma ZeroText()
    ensures Imf(Tm(Date(1994, 11, 0, 0), 8, 49, 37)) == "Sun, 00 Nov 1994 08:49:37 GMT"
  {
    ExampleDigits();
    assert ClockText(Tm(Date(1994, 11, 0, 0), 8, 49, 37)) == ClockText(EXAMPLE) && Dec2(0) == "00";
    hide Dec2, Dec4, ClockText;
  }

  // ----- nothing else is accepted

  predicate ReadsAs(v: string, p: nat, s: string) { p + |s| <= |v| && v[p..p + |s|] == s }

  /** One of the three forms, from the day on, with `m` for the month. */
  predicate Form(v: string, p: nat, day: nat, m: string, year: nat, clock: string)
    requires day < 100 && year < 10000
  {
    || ReadsAs(v, p, Dec2(day) + " " + m + " " + Dec4(year) + " " + clock)
    || (1970 <= year <= 2069 && ReadsAs(v, p, Dec2(day) + "-" + m + "-" + Dec2(year % 100) + " " + clock))
    || ReadsAs(v, p, Dec2(day) + " " + clock + " " + Dec4(year))
    || (day < 10 && ReadsAs(v, p, [Digit(day)] + " " + clock + " " + Dec4(year)))
  }

  /** A text that means something has one of the three forms, with a time of day that exists, and means the instant
      it shows. */
  lemma Accepted(v: string) returns (p: nat, tm: Tm, m: string)
    requires Meaning(v).Some?
    ensures tm.hour < 24 && tm.min < 60 && tm.sec < 60 && tm.date.day < 100 && tm.date.year < 10000
    ensures 1 <= tm.date.month <= 12 && |m| == 3 && (m[0] == MONTHS[tm.date.month - 1][0])
    ensures Form(v, p, tm.date.day, m, tm.date.year, ClockText(tm))
    ensures tm.date.year > 0 ==> Exists(tm) && Meaning(v) == Some(Instant(tm))
  {
    var f := Parsed(v).value;
    tm := Tm(Date(f.year, f.month + 1, f.day, 0), f.hour, f.min, f.sec);
    EvaluatedClock(f);
    hide Parsed, Instant, Evaluated, Form, ClockText, Exists, Meaning;
    p, m := ParsedForm(v, f);
    ClockOnly(tm);
    if f.year > 0 {
      FieldsMean(v, tm);
    }
  }

  lemma ClockOnly(tm: Tm)
    requires tm.hour < 100 && tm.min < 100 && tm.sec < 100
    ensures ClockText(tm) == ClockText(Tm(Date(1, 1, 1, 0), tm.hour, tm.min, tm.sec))
  {
  }

  lemma ParsedForm(v: string, f: Fields) returns (p: nat, m: string)
    requires Parsed(v) == Some(f)
    ensures f.day < 100 && f.year < 10000 && f.month < 12 && f.hour < 100 && f.min < 100 && f.sec < 100
    ensures |m| == 3 && m[0] == MONTHS[f.month][0]
    ensures Form(v, p, f.day, m, f.year, ClockText(Tm(Date(1, 1, 1, 0), f.hour, f.min, f.sec)))
  {
    var q := Separator(v, 0);
    p := NonBlank(v, q + 1);
    hide Separator, NonBlank, Form, Asctime, Rfc822, Rfc850, ClockText;
    if q < |v| && v[q] == ' ' {
      p, m := AsctimeForm(v, p, f);
    } else if v[p + 2] == ' ' {
      m := Rfc822Form(v, p, f);
    } else {
      m := Rfc850Form(v, p, f);
    }
  }

  lemma EvaluatedClock(f: Fields)
    requires Evaluated(f).Some?
    ensures f.hour < 24 && f.min < 60 && f.sec < 60
  {
  }

  /** What a text that was read as a number looks like. */
  lemma TwoText(v: string, p: nat, n: nat)
    requires Two(v, p) == Some(n)
    ensures n < 100 && ReadsAs(v, p, Dec2(n))
  {
    assert n / 10 == Value(v[p]) && n % 10 == Value(v[p + 1]);
    assert Digit(n / 10) == v[p] && Digit(n % 10) == v[p + 1];
  }

  lemma FourText(v: string, p: nat, n: nat)
    requires Four(v, p) == Some(n)
    ensures n < 10000 && ReadsAs(v, p, Dec4(n))
  {
    var a, b := Two(v, p).value, Two(v, p + 2).value;
    TwoText(v, p, a);
    TwoText(v, p + 2, b);
    assert n / 100 == a && n % 100 == b;
    hide Dec2, Two;
    assert v[p..p + 4] == v[p..p + 2] + v[p + 2..p + 4];
  }

  lemma ClockForm(v: string, p: nat, h: nat, min: nat, sec: nat)
    requires Clock(v, p) == Some((h, min, sec))
    ensures h < 100 && min < 100 && sec < 100 && ReadsAs(v, p, ClockText(Tm(Date(1, 1, 1, 0), h, min, sec)))
  {
    TwoText(v, p, h);
    TwoText(v, p + 3, min);
    TwoText(v, p + 6, sec);
    hide Dec2, Two;
    assert v[p..p + 8] == v[p..p + 2] + [v[p + 2]] + v[p + 3..p + 5] + [v[p + 5]] + v[p + 6..p + 8];
  }

  lemma MonthLetter(v: string, p: nat, k: nat)
    requires MonthAt(v, p) == Some(k)
    ensures p + 3 <= |v| && k < 12 && v[p] == MONTHS[k][0]
  {
  }

  lemma Rfc822Form(v: string, p: nat, f: Fields) returns (m: string)
    requires Rfc822(v, p) == Some(f)
    ensures f.day < 100 && f.year < 10000 && f.month < 12 && f.hour < 100 && f.min < 100 && f.sec < 100
    ensures |m| == 3 && m[0] == MONTHS[f.month][0]
    ensures Form(v, p, f.day, m, f.year, ClockText(Tm(Date(1, 1, 1, 0), f.hour, f.min, f.sec)))
  {
    TwoText(v, p, f.day);
    MonthLetter(v, p + 3, f.month);
    FourText(v, p + 7, f.year);
    ClockForm(v, p + 12, f.hour, f.min, f.sec);
    m := v[p + 3..p + 6];
    hide Dec2, Dec4, ClockText, Two, Four, Clock, MonthAt;
    assert v[p..p + 20] == v[p..p + 2] + [v[p + 2]] + m + [v[p + 6]] + v[p + 7..p + 11] + [v[p + 11]]
           + v[p + 12..p + 20];
  }

  lemma Rfc850Form(v: string, p: nat, f: Fields) returns (m: string)
    requires Rfc850(v, p) == Some(f)
    ensures f.day < 100 && f.year < 10000 && f.month < 12 && f.hour < 100 && f.min < 100 && f.sec < 100
    ensures |m| == 3 && m[0] == MONTHS[f.month][0]
    ensures Form(v, p, f.day, m, f.year, ClockText(Tm(Date(1, 1, 1, 0), f.hour, f.min, f.sec)))
  {
    var y := Two(v, p + 7).value;
    TwoText(v, p, f.day);
    MonthLetter(v, p + 3, f.month);
    TwoText(v, p + 7, y);
    ClockForm(v, p + 10, f.hour, f.min, f.sec);
    m := v[p + 3..p + 6];
    assert 1970 <= f.year <= 2069 && f.year % 100 == y;
    hide Dec2, Dec4, ClockText, Two, Four, Clock, MonthAt;
    assert v[p..p + 18] == v[p..p + 2] + [v[p + 2]] + m + [v[p + 6]] + v[p + 7..p + 9] + [v[p + 9]] + v[p + 10..p + 18];
  }

  lemma AsctimeForm(v: string, p: nat, f: Fields) returns (q: nat, m: string)
    requires Asctime(v, p) == Some(f)
    ensures f.day < 100 && f.year < 10000 && f.month < 12 && f.hour < 100 && f.min < 100 && f.sec < 100
    ensures |m| == 3 && m[0] == MONTHS[f.month][0]
    ensures Form(v, q, f.day, m, f.year, ClockText(Tm(Date(1, 1, 1, 0), f.hour, f.min, f.sec)))
  {
    q := if p + 4 < |v| && v[p + 4] == ' ' then p + 5 else p + 4;
    hide AscRest, MonthAt, Dec2, Dec4, ClockText, Clock, Four;
    var r := if v[q + 1] == ' ' then q + 1 else q + 2;
    MonthLetter(v, p, f.month);
    m := v[p..p + 3];
    DayForm(v, q, r, m, f);
  }

  lemma DayForm(v: string, q: nat, r: nat, m: string, f: Fields)
    requires (r == q + 2 && Two(v, q) == Some(f.day))
             || (r == q + 1 && q < |v| && IsDigit(v[q]) && f.day == Value(v[q]))
    requires AscRest(v, r, f.month, f.day) == Some(f)
    ensures f.day < 100 && f.year < 10000 && f.hour < 100 && f.min < 100 && f.sec < 100
    ensures Form(v, q, f.day, m, f.year, ClockText(Tm(Date(1, 1, 1, 0), f.hour, f.min, f.sec)))
  {
    AscRestForm(v, r, f);
    hide AscRest, Dec2, Dec4, ClockText;
    var clock := ClockText(Tm(Date(1, 1, 1, 0), f.hour, f.min, f.sec));
    var rest := " " + clock + " " + Dec4(f.year);
    if r == q + 2 {
      TwoText(v, q, f.day);
      JoinReads(v, q, Dec2(f.day), rest);
      assert Dec2(f.day) + rest == Dec2(f.day) + " " + clock + " " + Dec4(f.year);
    } else {
      assert Digit(f.day) == v[q];
      JoinReads(v, q, [Digit(f.day)], rest);
      assert [Digit(f.day)] + rest == [Digit(f.day)] + " " + clock + " " + Dec4(f.year);
    }
  }

  lemma JoinReads(v: string, p: nat, a: string, b: string)
    requires ReadsAs(v, p, a) && ReadsAs(v, p + |a|, b)
    ensures ReadsAs(v, p, a + b)
  {
    assert v[p..p + |a + b|] == v[p..p + |a|] + v[p + |a|..p + |a| + |b|];
  }

  lemma AscRestForm(v: string, r: nat, f: Fields)
    requires AscRest(v, r, f.month, f.day) == Some(f)
    ensures f.year < 10000 && f.hour < 100 && f.min < 100 && f.sec < 100
    ensures ReadsAs(v, r, " " + ClockText(Tm(Date(1, 1, 1, 0), f.hour, f.min, f.sec)) + " " + Dec4(f.year))
  {
    ClockForm(v, r + 1, f.hour, f.min, f.sec);
    FourText(v, r + 10, f.year);
    hide Dec4, ClockText, Four, Clock;
    assert v[r..r + 14] == [v[r]] + v[r + 1..r + 9] + [v[r + 9]] + v[r + 10..r + 14];
  }

  const EXAMPLE := Tm(Date(1994, 11, 6, 0), 8, 49, 37)

  /** The example of section 7.1.1.1 of RFC 7231, in its three forms. */
  lemma Examples()
    ensures Meaning("Sun, 06 Nov 1994 08:49:37 GMT") == Some(784111777)
    ensures Meaning("Sunday, 06-Nov-94 08:49:37 GMT") == Some(784111777)
    ensures Meaning("Sun Nov  6 08:49:37 1994") == Some(784111777)
  {
    ExampleInstant();
    ExampleImf();
    ExampleRfc850();
    ExampleAsctime();
    hide Meaning, Imf, Rfc850Text, AsctimeText, Exists, Instant;
    ImfMeans(EXAMPLE);
    Rfc850Means(EXAMPLE);
    AsctimeMeans(EXAMPLE, " 6");
  }

  lemma ExampleInstant()
    ensures Written(EXAMPLE) && Exists(EXAMPLE) && Instant(EXAMPLE) == 784111777 && Spells(" 6", 6)
  {
  }

  lemma ExampleDigits()
    ensures Dec2(6) == "06" && Dec2(94) == "94" && Dec4(1994) == "1994" && ClockText(EXAMPLE) == "08:49:37"
  {
    assert Dec2(8) == "08" && Dec2(49) == "49" && Dec2(37) == "37" && Dec2(19) == "19";
  }

  lemma ExampleImf()
    ensures Imf(EXAMPLE) == "Sun, 06 Nov 1994 08:49:37 GMT"
  {
    ExampleDigits();
    hide Dec2, Dec4, ClockText;
  }

  lemma ExampleRfc850()
    ensures Rfc850Text(EXAMPLE) == "Sunday, 06-Nov-94 08:49:37 GMT"
  {
    ExampleDigits();
    hide Dec2, Dec4, ClockText;
  }

  lemma ExampleAsctime()
    ensures AsctimeText(EXAMPLE, " 6") == "Sun Nov  6 08:49:37 1994"
  {
    ExampleDigits();
    hide Dec2, Dec4, ClockText;
  }

  /** Parsing what has been printed gives the time back, for every time from the epoch to the end of
      the year 9999. */
  lemma RoundTrip(t: int)
    requires 0 <= t <= LAST
    ensures Printable(TmAt(t)) && Meaning(Imf(TmAt(t))) == Some(t)
  {
    hide DateAt, Number, Imf, Meaning;
    TmPrintable(t);
    ImfMeans(TmAt(t));
    NumberDateAt(t / DAY);
    assert TmAt(t) == TmOf(DateAt(t / DAY), t % DAY);
    InstantOf(DateAt(t / DAY), t / DAY, t % DAY);
  }

  lemma InstantOf(d: Date, n: nat, s: nat)
    requires Valid(d) && Number(d) == n + EPOCH && s < DAY
    ensures Instant(TmOf(d, s)) == n * DAY + s
  {
    hide Number;
    SameSecond(s);
  }

  lemma SameSecond(s: nat)
    requires s < DAY
    ensures s / 3600 * 3600 + s % 3600 / 60 * 60 + s % 60 == s
  {
    MinuteOfDay(s);
  }

  /** The same, of the two functions of the program. */
  method PrintThenParse(t: int) returns (time: int)
    ensures 0 <= t <= LAST ==> time == t
    ensures t < 0 ==> time == 0
    ensures t > LAST ==> time == LAST
  {
    var buf := Print(t);
    time := Parse(buf);
    RoundTrip(if t < 0 then 0 else if t > LAST then LAST else t);
  }
}
