/** The proleptic Gregorian calendar without a year 0, and its day numbers. */
module Calendar {

  datatype Ymd = Ymd(year: int, month: int, day: int)

  // ----- The calendar -----

  /** The year that this one is when years are counted through 0. */
  function Astronomical(year: int): int {
    if year < 0 then year + 1 else year
  }

  function Civil(year: int): int {
    if year <= 0 then year - 1 else year
  }

  predicate Leap(year: int) {
    (year % 4 == 0 && year % 100 != 0) || year % 400 == 0
  }

  function MonthDays(month: int): nat {
    if month == 2 then 28
    else if month == 4 || month == 6 || month == 9 || month == 11 then 30
    else if 1 <= month <= 12 then 31
    else 0
  }

  function DaysIn(year: int, month: int): nat {
    if month == 2 && Leap(Astronomical(year)) then 29 else MonthDays(month)
  }

  predicate Valid(t: Ymd) {
    t.year != 0 && 1 <= t.month <= 12 && 1 <= t.day <= DaysIn(t.year, t.month)
  }

  /** The next day. */
  function Next(t: Ymd): Ymd {
    if t.day < DaysIn(t.year, t.month) then Ymd(t.year, t.month, t.day + 1)
    else if t.month < 12 then Ymd(t.year, t.month + 1, 1)
    else Ymd(Civil(Astronomical(t.year) + 1), 1, 1)
  }

  predicate Before(t: Ymd, u: Ymd) {
    t.year < u.year || (t.year == u.year && (t.month < u.month || (t.month == u.month && t.day < u.day)))
  }

  // ----- Day numbers -----

  /** Years and months are counted from March: its month is 0. */
  function MarchYear(t: Ymd): int {
    Astronomical(t.year) + 4800 - (14 - t.month) / 12
  }

  function MarchMonth(t: Ymd): int {
    t.month + 12 * ((14 - t.month) / 12) - 3
  }

  function MonthStart(m: int): int {
    (153 * m + 2) / 5
  }

  function YearStart(y: int): int {
    365 * y + y / 4 - y / 100 + y / 400
  }

  /** The Julian day number of a date. */
  function Jd(t: Ymd): int {
    t.day + MonthStart(MarchMonth(t)) + YearStart(MarchYear(t)) - 32045
  }

  /** Days, centuries and years within a century from the first of March of year -4800 on. */
  function CenturyStart(b: int): int {
    (146097 * b) / 4
  }

  function YearInCentury(d: int): int {
    (1461 * d) / 4
  }

  /** The date of a Julian day number. */
  function DateOf(jd: int): Ymd {
    var a := jd + 32044;
    var b := (4 * a + 3) / 146097;
    var c := a - CenturyStart(b);
    var d := (4 * c + 3) / 1461;
    var e := c - YearInCentury(d);
    var m := (5 * e + 2) / 153;
    Ymd(Civil(100 * b + d - 4800 + m / 10), m + 3 - 12 * (m / 10), e - MonthStart(m) + 1)
  }

  // ----- The divisions find where a day belongs -----

  lemma CenturyOf(a: int, b: int)
    ensures CenturyStart(b) <= a < CenturyStart(b + 1) <==> (4 * a + 3) / 146097 == b
  {
  }

  lemma YearOf(c: int, d: int)
    ensures YearInCentury(d) <= c < YearInCentury(d + 1) <==> (4 * c + 3) / 1461 == d
  {
  }

  lemma MonthOf(e: int, m: int)
    ensures MonthStart(m) <= e < MonthStart(m + 1) <==> (5 * e + 2) / 153 == m
  {
  }

  /** Years are centuries and years within them. */
  lemma YearSplit(b: int, d: int)
    requires 0 <= d < 100
    ensures YearStart(100 * b + d) == CenturyStart(b) + YearInCentury(d)
  {
    var y := 100 * b + d;
    assert y / 100 == b;
    assert y / 400 == b / 4;
    assert y / 4 == 25 * b + d / 4;
    assert CenturyStart(b) == 36524 * b + b / 4;
    assert YearInCentury(d) == 365 * d + d / 4;
  }

  // ----- Dates and day numbers -----

  /** The days before this one in its year of March. */
  function DayInMarchYear(t: Ymd): int {
    MonthStart(MarchMonth(t)) + t.day - 1
  }

  /** Months have their lengths, and the last day of a leap year is the only one with number 365. */
  lemma MonthFits(t: Ymd)
    requires Valid(t)
    ensures var m, e := MarchMonth(t), DayInMarchYear(t);
      && 0 <= m <= 11 && MonthStart(m) <= e < MonthStart(m + 1) && 0 <= e <= 365
      && (e == 365 ==> Leap(Astronomical(t.year)) && MarchYear(t) == Astronomical(t.year) + 4799)
  {
  }

  lemma LeapShift(y: int)
    ensures Leap(y + 4800) == Leap(y)
  {
    var b := y / 100;
    var r := y - 100 * b;
    hide Leap;
    LeapParts(b, r);
    LeapParts(b + 48, r);
  }

  lemma Mod4(q: int, r: int)
    requires 0 <= r < 4
    ensures (4 * q + r) % 4 == r
  {
  }

  lemma Mod100(q: int, r: int)
    requires 0 <= r < 100
    ensures (100 * q + r) % 100 == r
  {
  }

  lemma Mod400(q: int, r: int)
    requires 0 <= r < 400
    ensures (400 * q + r) % 400 == r
  {
  }

  /** Year r of a century is a leap year if it is a fourth one; the first if the century is. */
  lemma LeapParts(b: int, r: int)
    requires 0 <= r < 100
    ensures Leap(100 * b + r) <==> if r == 0 then b == 4 * (b / 4) else r == 4 * (r / 4)
  {
    var x := 100 * b + r;
    Mod4(25 * b + r / 4, r - 4 * (r / 4));
    Mod100(b, r);
    Mod400(b / 4, 100 * (b - 4 * (b / 4)) + r);
    assert x == 4 * (25 * b + r / 4) + (r - 4 * (r / 4));
    assert x == 400 * (b / 4) + (100 * (b - 4 * (b / 4)) + r);
  }

  /** The lengths of centuries and of the years in them. */
  lemma Lengths(b: int, d: int)
    requires 0 <= d < 100
    ensures YearInCentury(d) == 365 * d + d / 4 && CenturyStart(b) == 36524 * b + b / 4
    ensures YearInCentury(d + 1) == YearInCentury(d) + if d == 4 * (d / 4) + 3 then 366 else 365
    ensures CenturyStart(b + 1) == CenturyStart(b) + if b == 4 * (b / 4) + 3 then 36525 else 36524
  {
  }

  /** The year that ends with the February of year d + 1 of the century has a day with number 365
      just when that is a leap year. */
  lemma LeapDay(b: int, d: int)
    requires 0 <= d < 100
    ensures Leap(100 * b + d + 1) <==> d == 4 * (d / 4) + 3 && (d == 99 ==> b == 4 * (b / 4) + 3)
  {
    hide Leap;
    if d < 99 {
      LeapParts(b, d + 1);
    } else {
      LeapParts(b + 1, 0);
    }
  }

  /** A day below the length of its year of March is below that of the year in its century, and
      of the century. */
  lemma YearFits(b: int, d: int, e: int)
    requires 0 <= d < 100 && 0 <= e <= 365 && (e == 365 ==> Leap(100 * b + d + 1))
    ensures YearInCentury(d) + e < YearInCentury(d + 1)
    ensures CenturyStart(b) + YearInCentury(d) + e < CenturyStart(b + 1)
  {
    hide Leap, YearInCentury, CenturyStart;
    Lengths(b, d);
    LeapDay(b, d);
  }

  /** The date in month m of year d of century b. */
  function MarchDate(b: int, d: int, m: int, e: int): Ymd {
    Ymd(Civil(100 * b + d - 4800 + m / 10), m + 3 - 12 * (m / 10), e - MonthStart(m) + 1)
  }

  /** The parts of a day number are unique. */
  lemma DateIs(jd: int, b: int, d: int, m: int, e: int)
    requires jd + 32044 == CenturyStart(b) + YearInCentury(d) + e
    requires CenturyStart(b) <= jd + 32044 < CenturyStart(b + 1)
    requires YearInCentury(d) <= YearInCentury(d) + e < YearInCentury(d + 1)
    requires MonthStart(m) <= e < MonthStart(m + 1)
    ensures DateOf(jd) == MarchDate(b, d, m, e)
  {
    hide CenturyStart, YearInCentury, MonthStart;
    CenturyOf(jd + 32044, b);
    YearOf(YearInCentury(d) + e, d);
    MonthOf(e, m);
  }

  lemma MarchDateIs(t: Ymd, b: int, d: int)
    requires Valid(t) && MarchYear(t) == 100 * b + d
    ensures MarchDate(b, d, MarchMonth(t), DayInMarchYear(t)) == t
  {
    hide MonthStart;
  }

  /** The date of a date's day number is that date. */
  lemma DateOfJd(t: Ymd)
    requires Valid(t)
    ensures DateOf(Jd(t)) == t
  {
    var y, m, e := MarchYear(t), MarchMonth(t), DayInMarchYear(t);
    var b := y / 100;
    var d := y - 100 * b;
    MonthFits(t);
    LeapShift(Astronomical(t.year));
    hide MarchYear, MarchMonth, Leap, Valid, DateOf;
    YearFits(b, d, e);
    YearSplit(b, d);
    MarchDateIs(t, b, d);
    hide CenturyStart, YearInCentury, MonthStart, MarchDate;
    DateIs(Jd(t), b, d, m, e);
  }

  /** Every day number has such parts. */
  lemma Parts(jd: int) returns (b: int, d: int, m: int, e: int)
    ensures jd + 32044 == CenturyStart(b) + YearInCentury(d) + e && DateOf(jd) == MarchDate(b, d, m, e)
    ensures 0 <= d < 100 && 0 <= e < YearInCentury(d + 1) - YearInCentury(d)
    ensures CenturyStart(b) + YearInCentury(d) + e < CenturyStart(b + 1)
    ensures 0 <= m <= 11 && MonthStart(m) <= e < MonthStart(m + 1)
  {
    var a := jd + 32044;
    b := (4 * a + 3) / 146097;
    CenturyOf(a, b);
    var c := a - CenturyStart(b);
    d := (4 * c + 3) / 1461;
    YearOf(c, d);
    e := c - YearInCentury(d);
    m := (5 * e + 2) / 153;
    MonthOf(e, m);
    CenturyLength(b, d, c);
    YearLength(d, e, m);
  }

  lemma CenturyLength(b: int, d: int, c: int)
    requires 0 <= c < CenturyStart(b + 1) - CenturyStart(b) && YearInCentury(d) <= c < YearInCentury(d + 1)
    ensures 0 <= d < 100
  {
  }

  lemma YearLength(d: int, e: int, m: int)
    requires 0 <= e < YearInCentury(d + 1) - YearInCentury(d) && MonthStart(m) <= e < MonthStart(m + 1)
    ensures 0 <= m <= 11
  {
  }

  /** In a year of March the last day with number 365 is in February of a leap year. */
  lemma LastDay(b: int, d: int, e: int)
    requires 0 <= d < 100 && 0 <= e < YearInCentury(d + 1) - YearInCentury(d)
    requires CenturyStart(b) + YearInCentury(d) + e < CenturyStart(b + 1)
    ensures e <= 365 && (e == 365 ==> Leap(100 * b + d + 1))
  {
    hide Leap, YearInCentury, CenturyStart;
    Lengths(b, d);
    LeapDay(b, d);
  }

  lemma MarchDateValid(b: int, d: int, m: int, e: int)
    requires 0 <= d < 100 && 0 <= m <= 11 && MonthStart(m) <= e < MonthStart(m + 1)
    requires e <= 365 && (e == 365 ==> Leap(100 * b + d + 1))
    ensures var t := MarchDate(b, d, m, e);
      Valid(t) && MarchYear(t) == 100 * b + d && MarchMonth(t) == m && DayInMarchYear(t) == e
  {
    LeapShift(100 * b + d + 1 - 4800);
    hide Leap;
  }

  /** Every day number is that of a valid date, and its date has that number. */
  lemma JdOfDate(jd: int)
    ensures Valid(DateOf(jd)) && Jd(DateOf(jd)) == jd
  {
    hide DateOf;
    var b, d, m, e := Parts(jd);
    LastDay(b, d, e);
    hide Leap, MonthStart, Valid;
    MarchDateValid(b, d, m, e);
    hide MarchDate, MarchYear, MarchMonth;
    YearSplit(b, d);
  }

  // ----- Day numbers follow the calendar -----

  lemma YearStartNext(y: int)
    ensures YearStart(y + 1) == YearStart(y) + if Leap(y + 1) then 366 else 365
  {
    var b := y / 100;
    var d := y - 100 * b;
    hide YearStart, CenturyStart, YearInCentury, Leap;
    Lengths(b, d);
    LeapDay(b, d);
    YearSplit(b, d);
    if d < 99 {
      YearSplit(b, d + 1);
    } else {
      YearSplit(b + 1, 0);
      assert YearInCentury(0) == 0 && YearInCentury(99) == 36159 by {
        Lengths(b, 99);
        ZeroYears();
      }
    }
  }

  lemma ZeroYears()
    ensures YearInCentury(0) == 0
  {
  }

  lemma MonthLengths(m: int)
    requires 0 <= m <= 10
    ensures MonthStart(m + 1) - MonthStart(m) == MonthDays(if m < 10 then m + 3 else m - 9)
  {
  }

  lemma MonthEnd(t: Ymd)
    requires Valid(t) && t.month != 2 && t.day == DaysIn(t.year, t.month)
    ensures Jd(Next(t)) == Jd(t) + 1
  {
    hide YearStart, MonthStart, MonthDays;
    MonthLengths(MarchMonth(t));
  }

  lemma FebruaryEnd(t: Ymd)
    requires Valid(t) && t.month == 2 && t.day == DaysIn(t.year, 2)
    ensures Jd(Next(t)) == Jd(t) + 1
  {
    YearStartNext(MarchYear(t));
    LeapShift(Astronomical(t.year));
    hide YearStart, Leap;
  }

  /** The day after a date is the next date. */
  lemma NextDay(t: Ymd)
    requires Valid(t)
    ensures Valid(Next(t)) && Jd(Next(t)) == Jd(t) + 1
  {
    if t.day < DaysIn(t.year, t.month) {
      hide YearStart, Leap, MonthStart;
    } else if t.month == 2 {
      FebruaryEnd(t);
      hide YearStart, Leap, MonthStart;
    } else {
      MonthEnd(t);
      hide YearStart, Leap, MonthStart;
    }
  }

  lemma {:induction false} YearStartMono(y: int, z: int)
    requires y <= z
    ensures YearStart(z) >= YearStart(y) + 365 * (z - y)
    decreases z - y
  {
    hide YearStart, Leap;
    if y < z {
      YearStartMono(y, z - 1);
      YearStartNext(z - 1);
    }
  }

  lemma LaterYear(t: Ymd, u: Ymd)
    requires Valid(t) && Valid(u) && t.year < u.year
    ensures Jd(t) < Jd(u)
  {
    NewYear(t);
    NewYear(u);
    var a, c := Astronomical(t.year), Astronomical(u.year);
    hide YearStart, Leap, MonthStart;
    YearStartMono(a + 4800, c + 4799);
  }

  /** A date lies between the first of January of its year and that of the next. */
  lemma NewYear(t: Ymd)
    requires Valid(t)
    ensures var a := Astronomical(t.year) + 4799;
      YearStart(a) + 306 <= Jd(t) + 32044 < YearStart(a + 1) + 306
  {
    var a := Astronomical(t.year);
    YearStartNext(a + 4799);
    LeapShift(a);
    hide YearStart, Leap;
  }

  lemma LaterMonth(t: Ymd, u: Ymd)
    requires Valid(t) && Valid(u) && t.year == u.year && t.month < u.month
    ensures Jd(t) < Jd(u)
  {
    YearStartNext(Astronomical(t.year) + 4799);
    LeapShift(Astronomical(t.year));
    hide YearStart, Leap;
  }

  lemma Later(t: Ymd, u: Ymd)
    requires Valid(t) && Valid(u) && Before(t, u)
    ensures Jd(t) < Jd(u)
  {
    if t.year < u.year {
      LaterYear(t, u);
    } else if t.month < u.month {
      LaterMonth(t, u);
    }
  }

  /** Dates are in the order of their numbers. */
  lemma OrderIsLexicographic(t: Ymd, u: Ymd)
    requires Valid(t) && Valid(u)
    ensures Before(t, u) <==> Jd(t) < Jd(u)
  {
    hide Jd, Valid;
    if Before(t, u) {
      Later(t, u);
    } else if t != u {
      Later(u, t);
    }
  }

  /** The days of the months before this one. */
  function DaysBefore(year: int, month: int): nat
    decreases month
  {
    if month <= 1 then 0 else DaysBefore(year, month - 1) + DaysIn(year, month - 1)
  }

  lemma {:induction false} MonthBegins(year: int, month: int)
    requires year != 0 && 1 <= month <= 12
    ensures Jd(Ymd(year, month, 1)) == Jd(Ymd(year, 1, 1)) + DaysBefore(year, month)
    decreases month
  {
    if month > 1 {
      hide Jd, Valid, Next, DaysIn;
      MonthBegins(year, month - 1);
      var last := Ymd(year, month - 1, DaysIn(year, month - 1));
      InMonth(last);
      LastOfMonth(last);
      NextDay(last);
    }
  }

  lemma LastOfMonth(t: Ymd)
    requires t.year != 0 && 1 <= t.month < 12 && t.day == DaysIn(t.year, t.month)
    ensures Valid(t) && Next(t) == Ymd(t.year, t.month + 1, 1)
  {
    hide Leap;
  }

  lemma InMonth(t: Ymd)
    ensures Jd(t) == Jd(Ymd(t.year, t.month, 1)) + t.day - 1
  {
  }

  /** How many days of the year have passed, with this one. */
  lemma DayOfYearIs(t: Ymd)
    requires Valid(t)
    ensures Jd(t) - Jd(Ymd(t.year, 1, 1)) + 1 == DaysBefore(t.year, t.month) + t.day
  {
    hide Jd, DaysBefore;
    MonthBegins(t.year, t.month);
    InMonth(t);
  }

  /** In 400 years the calendar repeats itself. */
  lemma FourCenturies(jd: int)
    ensures var t := DateOf(jd);
      DateOf(jd + 146097) == Ymd(Civil(Astronomical(t.year) + 400), t.month, t.day)
  {
    hide DateOf;
    var b, d, m, e := Parts(jd);
    assert CenturyStart(b + 4) == CenturyStart(b) + 146097;
    assert CenturyStart(b + 5) == CenturyStart(b + 1) + 146097;
    hide CenturyStart, YearInCentury, MonthStart;
    DateIs(jd + 146097, b + 4, d, m, e);
  }

  /** Day numbers and dates go on together. */
  lemma Successor(jd: int)
    ensures DateOf(jd + 1) == Next(DateOf(jd))
  {
    hide DateOf, Next, Jd, Valid;
    JdOfDate(jd);
    NextDay(DateOf(jd));
    DateOfJd(Next(DateOf(jd)));
  }

  /** The date n days after this one. */
  function DaysAfter(t: Ymd, n: nat): Ymd {
    if n == 0 then t else Next(DaysAfter(t, n - 1))
  }

  /** Adding to a day number goes as many days on in the calendar. */
  lemma {:induction false} DaysOn(jd: int, n: nat)
    ensures DateOf(jd + n) == DaysAfter(DateOf(jd), n)
    decreases n
  {
    hide DateOf, Next;
    if n > 0 {
      DaysOn(jd, n - 1);
      Successor(jd + (n - 1));
    }
  }

  /** The days of the week go around from 1 to 7, whatever the sign of the day number. */
  function Weekday(jd: int): (d: int)
    ensures 1 <= d <= 7
  {
    jd % 7 + 1
  }

  lemma WeekdayNext(jd: int)
    ensures Weekday(jd + 1) == if Weekday(jd) == 7 then 1 else Weekday(jd) + 1
    ensures Weekday(jd + 146097) == Weekday(jd)
  {
    var q := jd / 7;
    var r := jd - 7 * q;
    Mod7(q, r);
    if r < 6 {
      Mod7(q, r + 1);
    } else {
      Mod7(q + 1, 0);
    }
    Mod7(q + 20871, r);
  }

  lemma Mod7(q: int, r: int)
    requires 0 <= r < 7
    ensures (7 * q + r) % 7 == r
  {
  }

  /** January 1, 2000, was a Saturday and has Julian day number 2451545 (day 1 is Monday). */
  lemma KnownDay()
    ensures Jd(Ymd(2000, 1, 1)) == 2451545 && Weekday(2451545) == 6
    ensures Leap(2000) && !Leap(1900) && Leap(1996) && !Leap(1999)
    ensures Next(Ymd(-1, 12, 31)) == Ymd(1, 1, 1)
  {
  }
}
