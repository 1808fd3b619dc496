/** Dates and times in 32-bit numbers. Every step of the arithmetic stays in range. */
module Dates {
  import opened Calendar

  newtype int32 = x: int | -0x8000_0000 <= x < 0x8000_0000

  const DATE_JD_INVALID: int32 := -0x8000_0000
  const TIME_MS_INVALID: int32 := -1
  const TIME_MS_IN_DAY: int32 := 24 * 3600 * 1000

  // ----- Division -----

  /** Division that rounds toward zero. */
  function TruncDiv(a: int, b: int): int
    requires b != 0
  {
    if a >= 0 then a / b else -((-a) / b)
  }

  /** And its remainder. */
  function TruncMod(a: int, b: int): int
    requires b != 0
  {
    if a >= 0 then a % b else -((-a) % b)
  }

  lemma OnlyZero(k: int, b: int)
    requires -b < k * b < b
    ensures k == 0
  {
    assert k >= 1 ==> k * b >= b;
    assert k <= -1 ==> k * b <= -b;
  }

  lemma QuotientIs(x: int, b: int, q: int, r: int)
    requires b > 0 && x == q * b + r && 0 <= r < b
    ensures x / b == q
  {
    assert x == (x / b) * b + x % b;
    assert (q - x / b) * b == x % b - r;
    OnlyZero(q - x / b, b);
  }

  /** Rounding up what is left of a multiple rounds down its negative. */
  lemma RoundUp(a: int, b: int)
    requires b > 0
    ensures -((b - 1 - a) / b) == a / b
  {
    var q, r := a / b, a % b;
    assert a == q * b + r;
    assert b - 1 - a == (-q) * b + (b - 1 - r);
    QuotientIs(b - 1 - a, b, -q, b - 1 - r);
  }

  lemma NegativeDivisor(n: int, b: int)
    requires n >= 0 && b < 0
    ensures n / b == -(n / -b)
  {
    var q, r := n / -b, n % -b;
    assert n == q * -b + r;
    assert n == (-q) * b + r;
    assert n == (n / b) * b + n % b;
    assert (q + n / b) * -b == n % b - r;
    OnlyZero(q + n / b, -b);
  }

  lemma MulBounds(q: int, b: int)
    requires b > 0
    ensures q >= 0 ==> q * b >= q
    ensures q > 0 && b >= 2 ==> q * b > q
    ensures q < 0 ==> q * b <= -b
  {
    if q > 0 {
      assert q * b == q + q * (b - 1);
    } else if q < 0 {
      assert q * b == -b + (q + 1) * b;
    }
  }

  lemma Euclid(n: int, b: int) returns (q: int, r: int)
    requires b != 0
    ensures q == n / b && n == q * b + r && 0 <= r && r < (if b > 0 then b else -b)
  {
    q, r := n / b, n % b;
  }

  /** A quotient is no larger than what is divided. */
  lemma Shrinks(n: int, b: int)
    requires n >= 0 && b > 0
    ensures 0 <= n / b <= n && (b >= 2 && n > 0 ==> n / b < n)
  {
    var q, r := Euclid(n, b);
    MulBounds(q, b);
  }

  /** What the / of C gives. */
  function Quotient(a: int32, b: int32): (q: int32)
    requires b != 0 && !(a == -0x8000_0000 && b == -1)
    ensures q as int == TruncDiv(a as int, b as int)
  {
    QuotientInRange(a, b);
    TruncDiv(a as int, b as int) as int32
  }

  lemma QuotientInRange(a: int32, b: int32)
    requires b != 0 && !(a == -0x8000_0000 && b == -1)
    ensures -0x8000_0000 <= TruncDiv(a as int, b as int) < 0x8000_0000
  {
    var n := if a >= 0 then a as int else -(a as int);
    var d := if b > 0 then b as int else -(b as int);
    Shrinks(n, d);
    if b < 0 {
      NegativeDivisor(n, b as int);
    }
  }

  /** Division that rounds down, where no step of it overflows. */
  method FloorDiv(a: int32, b: int32) returns (q: int32)
    requires b != 0
    requires a < 0 && b > 0 ==> a as int - b as int + 1 >= -0x8000_0000
    requires a < 0 && b < 0 ==> !(a == -0x8000_0000 && b == -1)
    requires a >= 0 && b < 0 ==> b > -0x8000_0000
    requires a > 0 && b < 0 ==> b as int - a as int + 1 >= -0x8000_0000
    ensures q as int == if b > 0 then a as int / b as int else -(a as int) / -(b as int)
  {
    hide TruncDiv;
    var n, d := a, b;
    if d < 0 {
      if n < 0 {
        BothNegative(n as int, d as int);
        return Quotient(n, d);
      }
      d := -d;
      n := -n;
    }
    FloorIs(n as int, d as int);
    return Quotient(n - (if n < 0 then d - 1 else 0), d);
  }

  lemma BothNegative(a: int, b: int)
    requires a < 0 && b < 0
    ensures TruncDiv(a, b) == -a / -b
  {
    NegativeDivisor(-a, b);
  }

  lemma FloorIs(a: int, b: int)
    requires b > 0
    ensures TruncDiv(a - (if a < 0 then b - 1 else 0), b) == a / b
  {
    RoundUp(a, b);
  }

  // ----- Conversions -----

  /** The day numbers for which no step of the conversion to a date overflows. */
  predicate Convertible(jd: int32) {
    -536_866_432 <= jd <= 536_838_867
  }

  function DateIn(year: int32, month: int32, day: int32): Ymd {
    Ymd(year as int, month as int, day as int)
  }

  predicate ValidDate(year: int32, month: int32, day: int32) {
    Valid(DateIn(year, month, day))
  }

  /** The largest step of the conversion to a day number does not overflow: the days up to this
      one if every fourth year were a leap year. */
  predicate Numbered(t: Ymd) {
    -0x8000_0000 <= t.day + MonthStart(MarchMonth(t)) + 365 * MarchYear(t) + MarchYear(t) / 4 < 0x8000_0000
  }

  /** The day number of a date. If the largest step does not overflow, none does. */
  method YmdToJd(year: int32, month: int32, day: int32) returns (jd: int32)
    requires ValidDate(year, month, day) && Numbered(DateIn(year, month, day))
    ensures jd as int == Jd(DateIn(year, month, day))
  {
    hide Leap, DaysIn, MonthDays;
    ghost var t := DateIn(year, month, day);
    StepsFit(t);
    hide Valid, Numbered;
    var tYear, tMonth, tDay := year, month, day;
    if tYear < 0 {
      tYear := tYear + 1;
    }
    var a := FloorDiv(14 - tMonth, 12);
    var y := tYear + 4800 - a;
    var m := tMonth + 12 * a - 3;
    var months := FloorDiv(153 * m + 2, 5);
    assert y as int == MarchYear(t) && months as int == MonthStart(MarchMonth(t));
    hide MarchYear, MarchMonth, MonthStart;
    var fourth := FloorDiv(y, 4);
    var hundredth := FloorDiv(y, 100);
    var fourHundredth := FloorDiv(y, 400);
    jd := tDay + months + 365 * y + fourth - hundredth + fourHundredth - 32045;
  }

  lemma DayBounds(t: Ymd)
    requires Valid(t)
    ensures 1 <= t.month <= 12 && 1 <= t.day <= 31
  {
  }

  lemma StepsFit(t: Ymd)
    requires Valid(t) && Numbered(t)
    ensures 1 <= t.month <= 12 && 1 <= t.day <= 31 && -5_884_292 <= t.year <= 5_874_700
    ensures var y, days := MarchYear(t), t.day + MonthStart(MarchMonth(t));
      && 0 <= days < 400 && -0x8000_0000 <= 365 * y < 0x8000_0000 && -0x8000_0000 <= days + 365 * y < 0x8000_0000
      && -0x8000_0000 <= days + 365 * y + y / 4 < 0x8000_0000
      && -0x8000_0000 <= days + 365 * y + y / 4 - y / 100 < 0x8000_0000
      && -0x8000_0000 <= days + 365 * y + y / 4 - y / 100 + y / 400 < 0x8000_0000
      && -0x8000_0000 <= days + 365 * y + y / 4 - y / 100 + y / 400 - 32045
  {
    DayBounds(t);
    YearBounds(t);
  }

  /** The years whose dates have day numbers. */
  lemma YearBounds(t: Ymd)
    requires Valid(t)
    ensures Numbered(t) ==> -5_884_292 <= t.year <= 5_874_700
    ensures -5_884_200 <= t.year <= 5_874_600 ==> Numbered(t)
  {
    DayBounds(t);
  }

  /** The date of a day number. */
  method JdToYmd(jd: int32) returns (year: int32, month: int32, day: int32)
    requires Convertible(jd)
    ensures DateIn(year, month, day) == DateOf(jd as int)
    ensures ValidDate(year, month, day) && -1_480_000 <= year <= 1_480_000
  {
    JdSteps(jd as int);
    hide Valid, DateOf;
    var a := jd + 32044;
    var b := FloorDiv(4 * a + 3, 146097);
    var century := FloorDiv(146097 * b, 4);
    var c := a - century;
    var d := FloorDiv(4 * c + 3, 1461);
    var years := FloorDiv(1461 * d, 4);
    var e := c - years;
    var m := FloorDiv(5 * e + 2, 153);
    var months := FloorDiv(153 * m + 2, 5);
    day := e - months + 1;
    var tenth := FloorDiv(m, 10);
    month := m + 3 - 12 * tenth;
    year := 100 * b + d - 4800 + tenth;
    if year <= 0 {
      year := year - 1;
    }
  }

  lemma JdSteps(jd: int)
    requires -536_866_432 <= jd <= 536_838_867
    ensures var a := jd + 32044;
      var b := (4 * a + 3) / 146097;
      var c := a - 146097 * b / 4;
      var d := (4 * c + 3) / 1461;
      var e := c - 1461 * d / 4;
      var m := (5 * e + 2) / 153;
      && -14_700 <= b <= 14_700 && 0 <= c < 40_000 && 0 <= d < 100 && 0 <= e < 400 && 0 <= m <= 11
      && DateOf(jd) == Ymd(Civil(100 * b + d - 4800 + m / 10), m + 3 - 12 * (m / 10), e - (153 * m + 2) / 5 + 1)
    ensures Valid(DateOf(jd))
  {
    hide Valid, Jd;
    JdOfDate(jd);
    var b, d, m, e := Parts(jd);
    hide MarchDate;
  }

  /** For any other day number the conversion overflows. */
  lemma OverflowsOutside(jd: int32)
    requires !Convertible(jd)
    ensures var a := jd as int + 32044;
      a >= 0x8000_0000 || 4 * a + 3 >= 0x8000_0000 || (a < 0 && 4 * a + 3 - 146096 < -0x8000_0000)
  {
  }

  /** The first and the last date that the conversion yields. */
  const FIRST: Ymd := Ymd(-1_474_604, 7, 13)
  const LAST: Ymd := Ymd(1_465_102, 10, 18)

  lemma Ends()
    ensures DateOf(-536_866_432) == FIRST && DateOf(536_838_867) == LAST
  {
    hide DateOf;
    DateOfJd(FIRST);
    DateOfJd(LAST);
  }

  predicate Between(t: Ymd) {
    !Before(t, FIRST) && !Before(LAST, t)
  }

  /** A valid date can be converted to its day number and back if and only if it is one of those
      from the first to the last. */
  lemma RoundTripFits(t: Ymd)
    requires Valid(t)
    ensures Between(t) <==> -536_866_432 <= Jd(t) <= 536_838_867
    ensures Between(t) ==> Numbered(t)
  {
    hide DateOf, Jd, Valid, Before;
    Ends();
    JdOfDate(-536_866_432);
    JdOfDate(536_838_867);
    OrderIsLexicographic(t, FIRST);
    OrderIsLexicographic(LAST, t);
    YearBounds(t);
    YearsBetween(t);
  }

  /** The day after the last one is a date that can be set, and not read back. */
  lemma OneDayTooFar()
    ensures var t := Ymd(1_465_102, 10, 19);
      Valid(t) && Numbered(t) && Jd(t) == 536_838_868 && !Between(t) && t == Next(LAST)
  {
  }

  lemma YearsBetween(t: Ymd)
    ensures Between(t) ==> -1_474_604 <= t.year <= 1_465_102
    ensures -1_474_604 < t.year < 1_465_102 ==> Between(t)
  {
  }

  // ----- Dates -----

  class Date {
    var jd: int32

    constructor ()
      ensures jd == DATE_JD_INVALID
    {
      jd := DATE_JD_INVALID;
    }

    static method DaysInMonth(month: int32) returns (days: int32)
      ensures days as int == MonthDays(month as int)
    {
      var table: seq<int32> := [0, 31, 28, 31, 30, 31, 30, 31, 31, 30, 31, 30, 31];
      var m := month;
      if m < 1 || m > 12 {
        m := 0;
      }
      days := table[m];
    }

    static method IsLeapYear(year: int32) returns (leap: bool)
      ensures leap <==> Leap(if year < 1 then year as int + 1 else year as int)
    {
      var y := year;
      if y < 1 {
        y := y + 1;
      }
      leap := (Remainder(y, 4) == 0 && Remainder(y, 100) != 0) || Remainder(y, 400) == 0;
    }

    static method IsValid(year: int32, month: int32, day: int32) returns (valid: bool)
      ensures valid <==> ValidDate(year, month, day)
    {
      hide Leap;
      if year == 0 {
        return false;
      }
      var days := DaysInMonth(month);
      var leap := IsLeapYear(year);
      valid := day >= 1 && (day <= days || (day == 29 && month == 2 && leap));
    }

    method Set(year: int32, month: int32, day: int32)
      requires ValidDate(year, month, day) ==> Numbered(DateIn(year, month, day))
      modifies this
      ensures jd as int ==
        if ValidDate(year, month, day) then Jd(DateIn(year, month, day)) else DATE_JD_INVALID as int
    {
      var valid := IsValid(year, month, day);
      if valid {
        jd := YmdToJd(year, month, day);
      } else {
        jd := DATE_JD_INVALID;
      }
    }

    method Get() returns (year: int32, month: int32, day: int32)
      requires jd == DATE_JD_INVALID || Convertible(jd)
      ensures jd == DATE_JD_INVALID ==> year == month == day == 0
      ensures jd != DATE_JD_INVALID ==> DateIn(year, month, day) == DateOf(jd as int)
      ensures jd != DATE_JD_INVALID ==> ValidDate(year, month, day) && -1_480_000 <= year <= 1_480_000
    {
      if jd == DATE_JD_INVALID {
        return 0, 0, 0;
      }
      year, month, day := JdToYmd(jd);
    }

    /** What has been set comes back, and anything that is no date comes back as zeros. */
    method SetAndGet(year: int32, month: int32, day: int32) returns (year': int32, month': int32, day': int32)
      requires ValidDate(year, month, day) ==> Between(DateIn(year, month, day))
      modifies this
      ensures (year', month', day') == if ValidDate(year, month, day) then (year, month, day) else (0, 0, 0)
    {
      hide Valid, Jd, DateOf, Between, Numbered;
      ghost var t := DateIn(year, month, day);
      if Valid(t) {
        RoundTripFits(t);
        DateOfJd(t);
      }
      Set(year, month, day);
      year', month', day' := Get();
    }

    method DayOfWeek() returns (d: int32)
      ensures d as int == if jd == DATE_JD_INVALID then 0 else Weekday(jd as int)
    {
      if jd == DATE_JD_INVALID {
        return 0;
      }
      if jd >= 0 {
        return Remainder(jd, 7) + 1;
      }
      NegativeWeekday(jd as int);
      return Remainder(jd + 1, 7) + 7;
    }

    method DayOfYear() returns (d: int32)
      requires jd == DATE_JD_INVALID || Convertible(jd)
      ensures jd == DATE_JD_INVALID ==> d == 0
      ensures jd != DATE_JD_INVALID ==>
        var t := DateOf(jd as int);
        d as int == DaysBefore(t.year, t.month) + t.day
    {
      hide DateOf, Jd, DaysBefore, Leap;
      if jd == DATE_JD_INVALID {
        return 0;
      }
      var year, month, day := Get();
      var first := YmdToJd(year, 1, 1);
      JdOfDate(jd as int);
      DayOfYearIs(DateOf(jd as int));
      DaysBeforeBound(year as int, month as int);
      d := jd - first + 1;
    }

    /** Go forward or back that many days in the calendar. The number that stands for no date is
        not told apart. */
    method Add(days: int32)
      requires -0x8000_0000 <= jd as int + days as int < 0x8000_0000
      modifies this
      ensures jd == old(jd) + days
      ensures days >= 0 ==> DateOf(jd as int) == DaysAfter(DateOf(old(jd) as int), days as nat)
      ensures days < 0 ==> DaysAfter(DateOf(jd as int), -(days as int)) == DateOf(old(jd) as int)
    {
      hide DateOf, DaysAfter;
      if days >= 0 {
        DaysOn(jd as int, days as nat);
      } else {
        DaysOn(jd as int + days as int, -(days as int));
      }
      jd := jd + days;
    }

    method Subtract(days: int32)
      requires -0x8000_0000 <= jd as int - days as int < 0x8000_0000
      modifies this
      ensures jd == old(jd) - days
      ensures days >= 0 ==> DaysAfter(DateOf(jd as int), days as nat) == DateOf(old(jd) as int)
      ensures days < 0 ==> DateOf(jd as int) == DaysAfter(DateOf(old(jd) as int), -(days as int))
    {
      hide DateOf, DaysAfter;
      if days >= 0 {
        DaysOn(jd as int - days as int, days as nat);
      } else {
        DaysOn(jd as int, -(days as int));
      }
      jd := jd - days;
    }
  }

  // ----- Times -----

  /** The milliseconds from midnight of a time of day. */
  function Milliseconds(hour: int, minute: int, second: int, msec: int): int {
    hour * 3600000 + minute * 60000 + second * 1000 + msec
  }

  predicate ValidTime(hour: int, minute: int, second: int, msec: int) {
    0 <= hour <= 23 && 0 <= minute <= 59 && 0 <= second <= 59 && 0 <= msec <= 999
  }

  predicate InDay(ms: int) {
    0 <= ms < 24 * 3600 * 1000
  }

  class Time {
    var ms: int32

    constructor ()
      ensures ms == TIME_MS_INVALID
    {
      ms := TIME_MS_INVALID;
    }

    method Set(hour: int32, minute: int32, second: int32, msec: int32)
      modifies this
      ensures var valid := ValidTime(hour as int, minute as int, second as int, msec as int);
        && (InDay(ms as int) <==> valid) && (!valid ==> ms == TIME_MS_INVALID)
        && (valid ==> ms as int == Milliseconds(hour as int, minute as int, second as int, msec as int))
    {
      if 0 <= hour <= 23 && 0 <= minute <= 59 && 0 <= second <= 59 && 0 <= msec <= 999 {
        ms := hour * 60 * 60 * 1000 + minute * 60 * 1000 + second * 1000 + msec;
      } else {
        ms := TIME_MS_INVALID;
      }
    }

    /** The one valid time of day with these milliseconds. */
    method Get() returns (hour: int32, minute: int32, second: int32, msec: int32)
      ensures !InDay(ms as int) ==> hour == minute == second == msec == -1
      ensures InDay(ms as int) ==> ValidTime(hour as int, minute as int, second as int, msec as int)
      ensures InDay(ms as int) ==> Milliseconds(hour as int, minute as int, second as int, msec as int) == ms as int
    {
      if ms < 0 || ms >= TIME_MS_IN_DAY {
        return -1, -1, -1, -1;
      }
      TimeParts(ms as int);
      hour := ms / (60 * 60 * 1000);
      minute := (ms % (60 * 60 * 1000)) / (60 * 1000);
      second := (ms / 1000) % 60;
      msec := ms % 1000;
    }

    /** Go forward, around midnight if need be; an invalid time stays as it is. */
    method Add(secs: int32)
      requires -86400 <= secs <= 86400
      modifies this
      ensures ms as int == if InDay(old(ms) as int) then Around(old(ms) as int + 1000 * secs as int) else old(ms) as int
    {
      var msSecs := secs * 1000;
      if !(ms < 0 || ms >= TIME_MS_IN_DAY) {
        AroundIs(ms as int + msSecs as int);
        ms := ms + msSecs;
        if ms < 0 {
          ms := ms + TIME_MS_IN_DAY;
        }
        if ms >= TIME_MS_IN_DAY {
          ms := ms - TIME_MS_IN_DAY;
        }
      }
    }

    method Subtract(secs: int32)
      requires -86400 <= secs <= 86400
      modifies this
      ensures ms as int == if InDay(old(ms) as int) then Around(old(ms) as int - 1000 * secs as int) else old(ms) as int
    {
      var msSecs := secs * 1000;
      if !(ms < 0 || ms >= TIME_MS_IN_DAY) {
        AroundIs(ms as int - msSecs as int);
        ms := ms - msSecs;
        if ms < 0 {
          ms := ms + TIME_MS_IN_DAY;
        }
        if ms >= TIME_MS_IN_DAY {
          ms := ms - TIME_MS_IN_DAY;
        }
      }
    }
  }

  /** The time of day this many milliseconds after some midnight. */
  function Around(ms: int): (r: int)
    ensures InDay(r)
  {
    ms % 86400000
  }

  lemma AroundIs(x: int)
    requires -86400000 <= x < 2 * 86400000
    ensures Around(x) == if x < 0 then x + 86400000 else if x >= 86400000 then x - 86400000 else x
  {
    RestIs(x, 86400000, if x < 0 then -1 else if x >= 86400000 then 1 else 0, Around(x));
  }

  /** Going back undoes going forward. */
  lemma BackAgain(ms: int, secs: int)
    requires InDay(ms) && -86400 <= secs <= 86400
    ensures Around(Around(ms + 1000 * secs) - 1000 * secs) == ms
  {
    AroundIs(ms + 1000 * secs);
    AroundIs(Around(ms + 1000 * secs) - 1000 * secs);
  }

  lemma TimeParts(ms: int)
    requires InDay(ms)
    ensures var hour, minute, second, msec := ms / 3600000, (ms % 3600000) / 60000, (ms / 1000) % 60, ms % 1000;
      ValidTime(hour, minute, second, msec) && Milliseconds(hour, minute, second, msec) == ms
  {
    var s := ms / 1000;
    var h := ms / 3600000;
    assert ms % 3600000 == ms - 3600000 * h;
    var n := (ms - 3600000 * h) / 60000;
    assert s / 60 == 60 * h + n;
    assert s % 60 == s - 60 * (60 * h + n);
    assert ms % 1000 == ms - 1000 * s;
  }

  /** A time of day has only one number. */
  lemma TimeUnique(h: int, m: int, s: int, x: int, h': int, m': int, s': int, x': int)
    requires ValidTime(h, m, s, x) && ValidTime(h', m', s', x')
    requires Milliseconds(h, m, s, x) == Milliseconds(h', m', s', x')
    ensures h == h' && m == m' && s == s' && x == x'
  {
  }

  /** What the % of C gives. */
  function Remainder(a: int32, b: int32): (r: int32)
    requires b > 0
    ensures r as int == TruncMod(a as int, b as int)
    ensures r == 0 <==> a as int % b as int == 0
  {
    RemainderInRange(a as int, b as int);
    TruncMod(a as int, b as int) as int32
  }

  lemma RemainderInRange(a: int, b: int)
    requires b > 0
    ensures -b < TruncMod(a, b) < b && (TruncMod(a, b) == 0 <==> a % b == 0)
  {
    if a < 0 {
      var q, r := Euclid(-a, b);
      if r == 0 {
        RestIs(a, b, -q, 0);
      } else {
        RestIs(a, b, -q - 1, b - r);
      }
    }
  }

  lemma RestIs(x: int, b: int, q: int, r: int)
    requires b > 0 && x == q * b + r && 0 <= r < b
    ensures x % b == r
  {
    QuotientIs(x, b, q, r);
  }

  lemma NegativeWeekday(jd: int)
    requires jd < 0
    ensures TruncMod(jd + 1, 7) + 7 == Weekday(jd)
  {
    var k := -(jd + 1);
    var q := k / 7;
    Mod7(q, k - 7 * q);
    Mod7(-q - 1, 6 - (k - 7 * q));
    assert jd == 7 * (-q - 1) + (6 - (k - 7 * q));
  }

  lemma {:induction false} DaysBeforeBound(year: int, month: int)
    ensures month <= 12 ==> DaysBefore(year, month) <= 31 * 12
    ensures month >= 1 ==> DaysBefore(year, month) <= 31 * (month - 1)
    decreases month
  {
    hide Leap;
    if month > 1 {
      DaysBeforeBound(year, month - 1);
    }
  }

  predicate Earlier(h: int, m: int, s: int, x: int, h': int, m': int, s': int, x': int) {
    h < h' || (h == h' && (m < m' || (m == m' && (s < s' || (s == s' && x < x')))))
  }

  lemma EarlierIsLess(h: int, m: int, s: int, x: int, h': int, m': int, s': int, x': int)
    requires ValidTime(h, m, s, x) && ValidTime(h', m', s', x') && Earlier(h, m, s, x, h', m', s', x')
    ensures Milliseconds(h, m, s, x) < Milliseconds(h', m', s', x')
  {
    if h < h' {
      assert Milliseconds(h, m, s, x) < 3600000 * (h + 1) <= 3600000 * h';
    } else if m < m' {
      assert Milliseconds(h, m, s, x) < 3600000 * h + 60000 * (m + 1);
    } else if s < s' {
      assert Milliseconds(h, m, s, x) < 3600000 * h + 60000 * m + 1000 * (s + 1);
    }
  }

  /** Earlier times have fewer milliseconds. */
  lemma TimeOrder(h: int, m: int, s: int, x: int, h': int, m': int, s': int, x': int)
    requires ValidTime(h, m, s, x) && ValidTime(h', m', s', x')
    ensures Milliseconds(h, m, s, x) < Milliseconds(h', m', s', x') <==> Earlier(h, m, s, x, h', m', s', x')
  {
    if Earlier(h, m, s, x, h', m', s', x') {
      EarlierIsLess(h, m, s, x, h', m', s', x');
    } else if Earlier(h', m', s', x', h, m, s, x) {
      hide Milliseconds;
      EarlierIsLess(h', m', s', x', h, m, s, x);
    }
  }

  /** The times of a day have the numbers from 0 to 86399999. */
  lemma TimeNumbers(h: int, m: int, s: int, x: int)
    requires ValidTime(h, m, s, x)
    ensures 0 <= Milliseconds(h, m, s, x) <= 86399999
    ensures Milliseconds(h, m, s, x) == 0 <==> h == m == s == x == 0
    ensures Milliseconds(h, m, s, x) == 86399999 <==> h == 23 && m == s == 59 && x == 999
  {
  }
}
