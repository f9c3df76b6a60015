/**
  The calendar arithmetic of time_support.c: Julian day numbers, moving a broken-down time by days and
  seconds, and the difference of two of them.  The formulas are compared with the Gregorian calendar.
 */
module TimeSupport {
  import opened Common

  const SECS_PER_DAY := 24 * 60 * 60

  // ---------- the Gregorian calendar ----------

  datatype Date = Date(year: int, month: int, day: int)

  predicate IsLeap(year: int) {
    year % 4 == 0 && (year % 100 != 0 || year % 400 == 0)
  }

  function DaysIn(year: int, month: int): int {
    if month == 2 then (if IsLeap(year) then 29 else 28)
    else if month == 4 || month == 6 || month == 9 || month == 11 then 30
    else 31
  }

  predicate RealDate(d: Date) {
    1 <= d.month <= 12 && 1 <= d.day <= DaysIn(d.year, d.month)
  }

  function NextDay(d: Date): Date {
    if d.day < DaysIn(d.year, d.month) then d.(day := d.day + 1)
    else if d.month < 12 then Date(d.year, d.month + 1, 1)
    else Date(d.year + 1, 1, 1)
  }

  // ---------- date_to_julian and julian_to_date ----------

  /** The division of C, toward zero. */
  function Quot(a: int, b: int): int
    requires b > 0
  {
    if a >= 0 then a / b else -(-a / b)
  }

  /** date_to_julian */
  function ToJulian(y: int, m: int, d: int): int {
    Quot(1461 * (y + 4800 + Quot(m - 14, 12)), 4) + Quot(367 * (m - 2 - 12 * Quot(m - 14, 12)), 12)
    - Quot(3 * Quot(y + 4900 + Quot(m - 14, 12), 100), 4) + d - 32075
  }

  /** julian_to_date */
  function FromJulian(jd: int): Date {
    var l0 := jd + 68569;
    var n := Quot(4 * l0, 146097);
    var l1 := l0 - Quot(146097 * n + 3, 4);
    var i := Quot(4000 * (l1 + 1), 1461001);
    var l2 := l1 - Quot(1461 * i, 4) + 31;
    var j := Quot(80 * l2, 2447);
    var l3 := Quot(j, 11);
    Date(100 * (n - 49) + i + l3, j + 2 - 12 * l3, l2 - Quot(2447 * j, 80))
  }

  /** The first year whose January and February the formulas still handle without negative quotients. */
  const FIRST_YEAR := -4799

  /** The year counted from March, so that the leap day comes last, and the month in it. */
  function MarchYear(y: int, m: int): int {
    y + 4800 - if m <= 2 then 1 else 0
  }

  function MarchMonth(m: int): int {
    if m <= 2 then m + 10 else m - 2
  }

  /** The days before March year k, with every fourth year a leap year, and the leap days that are too many. */
  function QuarterDays(k: nat): int {
    1461 * k / 4
  }

  function CenturyDays(k: nat): int {
    3 * ((k + 100) / 100) / 4
  }

  /** The days before a month of a March year. */
  function MonthDays(m: nat): int {
    367 * m / 12
  }

  lemma QuotMonth(m: int)
    requires 1 <= m <= 12
    ensures Quot(m - 14, 12) == if m <= 2 then -1 else 0
  {
  }

  lemma QuotPositive(a: int, b: int)
    requires a >= 0 && b > 0
    ensures Quot(a, b) == a / b
  {
  }

  lemma MarchForm(y: int, m: int, d: int)
    requires y >= FIRST_YEAR && 1 <= m <= 12
    ensures var k := MarchYear(y, m);
            ToJulian(y, m, d) == QuarterDays(k) - CenturyDays(k) + MonthDays(MarchMonth(m)) + d - 32075
  {
    hide Quot;
    var k, month := MarchYear(y, m), MarchMonth(m);
    QuotMonth(m);
    QuotPositive(1461 * k, 4);
    QuotPositive(367 * month, 12);
    QuotPositive(k + 100, 100);
    QuotPositive(3 * ((k + 100) / 100), 4);
  }

  lemma MonthTable()
    ensures MonthDays(1) == 30 && MonthDays(2) == 61 && MonthDays(3) == 91 && MonthDays(4) == 122
    ensures MonthDays(5) == 152 && MonthDays(6) == 183 && MonthDays(7) == 214 && MonthDays(8) == 244
    ensures MonthDays(9) == 275 && MonthDays(10) == 305 && MonthDays(11) == 336 && MonthDays(12) == 367
  {
  }

  lemma LeapQuarter(k: nat)
    ensures QuarterDays(k + 1) - QuarterDays(k) == 365 + if (k + 1) % 4 == 0 then 1 else 0
  {
    assert 1461 * k / 4 == 365 * k + k / 4;
    assert 1461 * (k + 1) / 4 == 365 * (k + 1) + (k + 1) / 4;
  }

  lemma FourCenturies(c: nat)
    ensures (100 * c) % 400 == 0 <==> c % 4 == 0
  {
    var q, r := c / 4, c % 4;
    assert 100 * c == 400 * q + 100 * r;
  }

  lemma LeapCentury(k: nat)
    ensures CenturyDays(k + 1) - CenturyDays(k) == if (k + 1) % 100 == 0 && (k + 1) % 400 != 0 then 1 else 0
  {
    var c := (k + 100) / 100;
    if (k + 1) % 100 == 0 {
      assert k + 1 == 100 * c;
      assert (k + 101) / 100 == c + 1;
      FourCenturies(c);
    } else {
      assert (k + 101) / 100 == c;
    }
  }

  lemma Hundreds(k: nat)
    ensures k % 100 == 0 ==> k % 4 == 0
    ensures k % 400 == 0 ==> k % 100 == 0
  {
    if k % 100 == 0 {
      assert k == 4 * (25 * (k / 100));
    }
    if k % 400 == 0 {
      assert k == 100 * (4 * (k / 400));
    }
  }

  /** A March year is as long as the leap day of the calendar year it ends in makes it. */
  lemma MarchYearLength(k: nat)
    ensures QuarterDays(k + 1) - CenturyDays(k + 1) ==
            QuarterDays(k) - CenturyDays(k) + if IsLeap(k + 1) then 366 else 365
  {
    hide QuarterDays, CenturyDays;
    LeapQuarter(k);
    LeapCentury(k);
    Hundreds(k + 1);
  }

  lemma LeapShift(y: int)
    ensures IsLeap(y + 4800) == IsLeap(y)
  {
    assert y + 4800 == 4 * (y / 4 + 1200) + y % 4;
    assert y + 4800 == 100 * (y / 100 + 48) + y % 100;
    assert y + 4800 == 400 * (y / 400 + 12) + y % 400;
  }

  /** The Julian day number counts days: the next date has the next number, and 1970 starts at 2440588. */
  lemma JulianCountsDays(d: Date)
    requires RealDate(d) && d.year >= FIRST_YEAR
    ensures var e := NextDay(d);
            ToJulian(e.year, e.month, e.day) == ToJulian(d.year, d.month, d.day) + 1
    ensures ToJulian(1970, 1, 1) == 2440588
  {
    hide ToJulian, QuarterDays, CenturyDays, MonthDays, IsLeap;
    var e := NextDay(d);
    MarchForm(d.year, d.month, d.day);
    MarchForm(e.year, e.month, e.day);
    MonthTable();
    MarchYearLength(MarchYear(d.year, d.month));
    LeapShift(d.year);
    UnixEpoch();
  }

  lemma UnixEpoch()
    ensures ToJulian(1970, 1, 1) == 2440588
  {
  }

  // ---------- julian_to_date inverts date_to_julian ----------

  /** The centuries, the years of the century and the days of the year that julian_to_date takes apart. */
  lemma CenturyOf(c: nat, e: nat)
    requires e <= 36524 && (e == 36524 ==> c % 4 == 0)
    ensures 4 * ((146097 * c + 3) / 4 + e) / 146097 == c
  {
    assert 146097 * c <= 4 * ((146097 * c + 3) / 4) <= 146097 * c + 3;
    assert c % 4 == 0 ==> 4 * ((146097 * c + 3) / 4) == 146097 * c;
  }

  lemma YearOfCentury(r: nat, t: nat)
    requires r < 100 && t <= 365 && (t == 365 ==> r % 4 == 3)
    ensures 4000 * (1461 * r / 4 + t + 1) / 1461001 == r
  {
    assert 1461 * r - 3 <= 4 * (1461 * r / 4) <= 1461 * r;
    assert r % 4 == 3 ==> 4 * (1461 * r / 4) == 1461 * r - 3;
  }

  /** The month and the day, from the day of the March year counted from 31. */
  lemma MonthOf(m: nat, d: nat)
    requires 1 <= m <= 12 && 1 <= d <= 31
    requires if m < 12 then MonthDays(m) + d <= MonthDays(m + 1) else d <= 29
    ensures 80 * (MonthDays(m) + d) / 2447 == m
    ensures 2447 * m / 80 == MonthDays(m)
  {
    MonthTable();
  }

  /** The day of the March year, counted from 0. */
  function DayOfYear(d: Date): int
    requires 1 <= d.month <= 12
  {
    MonthDays(MarchMonth(d.month)) + d.day - 31
  }

  lemma DayOfYearRange(d: Date)
    requires RealDate(d)
    ensures 0 <= DayOfYear(d) <= 365
    ensures DayOfYear(d) == 365 ==> d.month == 2 && IsLeap(d.year)
    ensures var m := MarchMonth(d.month);
            if m < 12 then MonthDays(m) + d.day <= MonthDays(m + 1) else d.day <= 29
  {
    hide MonthDays, IsLeap;
    MonthTable();
  }

  /** What julian_to_date computes from a century, a year of it and a day of the March year. */
  lemma FromParts(c: nat, r: nat, t: nat, jd: int)
    requires r < 100 && t <= 365 && (t == 365 ==> r % 4 == 3 && (r == 99 ==> c % 4 == 0))
    requires jd + 68569 == (146097 * c + 3) / 4 + 1461 * r / 4 + t
    ensures var j := Quot(80 * (t + 31), 2447);
            var l := Quot(j, 11);
            FromJulian(jd) == Date(100 * (c - 49) + r + l, j + 2 - 12 * l, t + 31 - Quot(2447 * j, 80))
  {
    hide Quot;
    var e := 1461 * r / 4 + t;
    assert e <= 36524 && (e == 36524 ==> c % 4 == 0);
    CenturyOf(c, e);
    YearOfCentury(r, t);
    var l0 := jd + 68569;
    QuotPositive(4 * l0, 146097);
    QuotPositive(146097 * c + 3, 4);
    QuotPositive(4000 * (e + 1), 1461001);
    QuotPositive(1461 * r, 4);
  }

  /** The days before a March year, by century and year of the century. */
  lemma YearDaysByCentury(k: nat)
    ensures var c, r := (k + 100) / 100, k % 100;
            QuarterDays(k) - CenturyDays(k) + 36525 == (146097 * c + 3) / 4 + 1461 * r / 4
  {
    var c, r := (k + 100) / 100, k % 100;
    assert k == 100 * (c - 1) + r;
    assert 1461 * k / 4 == 36525 * (c - 1) + 1461 * r / 4;
    assert (146097 * c + 3) / 4 == 36525 * c - 3 * c / 4;
  }

  /** A leap day ends a fourth year of a century, and the hundredth only in every fourth century. */
  lemma LeapParts(k: nat)
    requires IsLeap(k + 1)
    ensures k % 100 % 4 == 3
    ensures k % 100 == 99 ==> (k + 100) / 100 % 4 == 0
  {
    var q, r := k / 100, k % 100;
    assert k + 1 == 4 * (25 * q) + (r + 1);
    if r == 99 {
      assert k + 1 == 100 * (q + 1);
      var h := (k + 1) / 400;
      assert 100 * (q + 1) == 100 * (4 * h);
    }
  }

  /** julian_to_date gives back every real date from its Julian day number. */
  lemma FromOfTo(d: Date)
    requires RealDate(d) && d.year >= FIRST_YEAR
    ensures FromJulian(ToJulian(d.year, d.month, d.day)) == d
  {
    hide ToJulian, FromJulian, QuarterDays, CenturyDays, MonthDays, IsLeap, Quot;
    var k, t := MarchYear(d.year, d.month), DayOfYear(d);
    var c, r := (k + 100) / 100, k % 100;
    MarchForm(d.year, d.month, d.day);
    YearDaysByCentury(k);
    DayOfYearRange(d);
    if t == 365 {
      LeapShift(d.year);
      LeapParts(k);
    }
    assert k == 100 * (c - 1) + r;
    FromParts(c, r, t, ToJulian(d.year, d.month, d.day));
    MonthAndDay(d);
  }

  /** The last three quotients of julian_to_date. */
  lemma MonthAndDay(d: Date)
    requires RealDate(d)
    ensures var t := DayOfYear(d);
            var m := MarchMonth(d.month);
            && Quot(80 * (t + 31), 2447) == m && Quot(2447 * m, 80) == MonthDays(m)
            && Quot(m, 11) == if d.month <= 2 then 1 else 0
  {
    hide MonthDays, IsLeap, Quot;
    var m := MarchMonth(d.month);
    DayOfYearRange(d);
    MonthOf(m, d.day);
    QuotPositive(80 * (DayOfYear(d) + 31), 2447);
    QuotPositive(2447 * m, 80);
    QuotPositive(m, 11);
  }

  /** Every day number from that of the first year on is the number of a real date. */
  lemma {:induction false} DateOf(jd: int) returns (d: Date)
    requires jd >= ToJulian(FIRST_YEAR, 1, 1)
    ensures RealDate(d) && d.year >= FIRST_YEAR && ToJulian(d.year, d.month, d.day) == jd
    decreases jd - ToJulian(FIRST_YEAR, 1, 1)
  {
    hide ToJulian;
    if jd == ToJulian(FIRST_YEAR, 1, 1) {
      d := Date(FIRST_YEAR, 1, 1);
    } else {
      var before := DateOf(jd - 1);
      JulianCountsDays(before);
      d := NextDay(before);
    }
  }

  /** julian_to_date of a day number that is not negative is a real date with that number. */
  lemma ToOfFrom(jd: int)
    requires jd >= 0
    ensures var d := FromJulian(jd); RealDate(d) && d.year >= FIRST_YEAR && ToJulian(d.year, d.month, d.day) == jd
  {
    hide FromJulian, RealDate;
    assert ToJulian(FIRST_YEAR, 1, 1) == -31738;
    var d := DateOf(jd);
    FromOfTo(d);
  }

  // ---------- broken-down times ----------

  /** The six fields of struct tm that are read and written here. */
  datatype Fields = Fields(year: int, mon: int, mday: int, hour: int, min: int, sec: int)

  /** The ranges of a broken-down time, with 60 for a leap second. */
  predicate InClock(f: Fields) {
    0 <= f.mon <= 11 && 1 <= f.mday <= 31 && 0 <= f.hour <= 23 && 0 <= f.min <= 59 && 0 <= f.sec <= 60
  }

  /** A time of day, up to the leap second at its end. */
  predicate InDay(f: Fields) {
    0 <= SecondOfDay(f) <= SECS_PER_DAY
  }

  /** A time of a real date. */
  predicate InCalendar(f: Fields) {
    && RealDate(Date(f.year + 1900, f.mon + 1, f.mday))
    && 0 <= f.hour <= 23 && 0 <= f.min <= 59 && 0 <= f.sec <= 59
  }

  function SecondOfDay(f: Fields): int {
    f.hour * 3600 + f.min * 60 + f.sec
  }

  function JulianDay(f: Fields): int {
    ToJulian(f.year + 1900, f.mon + 1, f.mday)
  }

  /** Seconds since the start of Julian day 0. */
  function Instant(f: Fields): int {
    SECS_PER_DAY * JulianDay(f) + SecondOfDay(f)
  }

  /** The broken-down time of an instant. */
  function TimeAt(t: int): Fields {
    var d, s := FromJulian(t / SECS_PER_DAY), t % SECS_PER_DAY;
    Fields(d.year - 1900, d.month - 1, d.day, s / 3600, s / 60 % 60, s % 60)
  }

  /** One second later, by the clock and the calendar. */
  function NextSecond(f: Fields): Fields {
    if f.sec < 59 then f.(sec := f.sec + 1)
    else if f.min < 59 then f.(min := f.min + 1, sec := 0)
    else if f.hour < 23 then f.(hour := f.hour + 1, min := 0, sec := 0)
    else
      var d := NextDay(Date(f.year + 1900, f.mon + 1, f.mday));
      Fields(d.year - 1900, d.month - 1, d.day, 0, 0, 0)
  }

  /** Instants count seconds. */
  lemma InstantsCountSeconds(f: Fields)
    requires InCalendar(f) && f.year + 1900 >= FIRST_YEAR
    ensures Instant(NextSecond(f)) == Instant(f) + 1
  {
    hide ToJulian, RealDate, NextDay;
    if f.sec == 59 && f.min == 59 && f.hour == 23 {
      NextMidnight(f);
    } else {
      var g := NextSecond(f);
      assert JulianDay(g) == JulianDay(f);
      assert SecondOfDay(g) == SecondOfDay(f) + 1;
    }
  }

  lemma NextMidnight(f: Fields)
    requires InCalendar(f) && f.year + 1900 >= FIRST_YEAR && f.sec == 59 && f.min == 59 && f.hour == 23
    ensures Instant(NextSecond(f)) == Instant(f) + 1
  {
    hide ToJulian, RealDate, NextDay;
    JulianCountsDays(Date(f.year + 1900, f.mon + 1, f.mday));
    var g := NextSecond(f);
    assert JulianDay(g) == JulianDay(f) + 1;
    assert SecondOfDay(f) == 86399 && SecondOfDay(g) == 0;
  }

  /** The years that OPENSSL_gmtime_adj accepts as a result. */
  predicate YearAccepted(f: Fields) {
    1900 <= f.year + 1900 <= 9999
  }

  /** The time moved by days and seconds, if its year stays in range. */
  function Adjusted(f: Fields, days: int, secs: int): Option<Fields> {
    var t := Instant(f) + SECS_PER_DAY * days + secs;
    if t >= 0 && YearAccepted(TimeAt(t)) then Some(TimeAt(t)) else None
  }

  lemma ClockParts(h: int, m: int, s: int)
    requires 0 <= h <= 23 && 0 <= m <= 59 && 0 <= s <= 59
    ensures var n := h * 3600 + m * 60 + s;
            0 <= n < SECS_PER_DAY && n / 3600 == h && n / 60 % 60 == m && n % 60 == s
  {
    var n := h * 3600 + m * 60 + s;
    assert n / 60 == 60 * h + m;
  }

  lemma ClockWhole(n: int)
    requires 0 <= n < SECS_PER_DAY
    ensures 0 <= n / 3600 <= 23 && n / 3600 * 3600 + n / 60 % 60 * 60 + n % 60 == n
  {
    assert n / 3600 == n / 60 / 60;
  }

  lemma DayAndSecond(day: int, n: int)
    requires 0 <= n < SECS_PER_DAY
    ensures (SECS_PER_DAY * day + n) / SECS_PER_DAY == day && (SECS_PER_DAY * day + n) % SECS_PER_DAY == n
  {
  }

  /** A time of a real date is the time at its instant. */
  lemma TimeAtInstant(f: Fields)
    requires InCalendar(f) && f.year + 1900 >= FIRST_YEAR
    ensures TimeAt(Instant(f)) == f
  {
    hide ToJulian, FromJulian;
    ClockParts(f.hour, f.min, f.sec);
    DayAndSecond(JulianDay(f), SecondOfDay(f));
    FromOfTo(Date(f.year + 1900, f.mon + 1, f.mday));
  }

  lemma InstantOfTimeAt(t: int)
    requires t >= 0
    ensures InCalendar(TimeAt(t)) && Instant(TimeAt(t)) == t && TimeAt(t).year + 1900 >= FIRST_YEAR
  {
    hide ToJulian, FromJulian;
    ClockWhole(t % SECS_PER_DAY);
    ToOfFrom(t / SECS_PER_DAY);
  }

  /** Days before the first of January of a year do not become fewer with the years. */
  lemma {:induction false} JanuaryMonotone(y: int, z: int)
    requires FIRST_YEAR <= y <= z
    ensures ToJulian(y, 1, 1) + 365 * (z - y) <= ToJulian(z, 1, 1)
    decreases z - y
  {
    hide ToJulian, QuarterDays, CenturyDays;
    if y < z {
      MarchForm(y, 1, 1);
      MarchForm(y + 1, 1, 1);
      MarchYearLength(MarchYear(y, 1));
      JanuaryMonotone(y + 1, z);
    }
  }

  /** A real date lies between the first of January of its year and that of the next. */
  lemma DateInYear(d: Date)
    requires RealDate(d) && d.year >= FIRST_YEAR
    ensures ToJulian(d.year, 1, 1) <= ToJulian(d.year, d.month, d.day) < ToJulian(d.year + 1, 1, 1)
  {
    hide ToJulian, QuarterDays, CenturyDays, MonthDays, IsLeap;
    MarchForm(d.year, 1, 1);
    MarchForm(d.year, d.month, d.day);
    MarchForm(d.year + 1, 1, 1);
    MonthTable();
    MarchYearLength(MarchYear(d.year, 1));
    DayOfYearRange(d);
  }

  /** The first instant of 1900 and that of 10000. */
  const ACCEPTED_FROM := SECS_PER_DAY * 2415021
  const ACCEPTED_UNTIL := SECS_PER_DAY * 5373485

  lemma Landmarks()
    ensures ToJulian(1900, 1, 1) == 2415021 && ToJulian(10000, 1, 1) == 5373485
  {
  }

  /** The accepted years are an interval of instants. */
  lemma YearAcceptedIff(f: Fields)
    requires InCalendar(f) && f.year + 1900 >= FIRST_YEAR
    ensures YearAccepted(f) <==> ACCEPTED_FROM <= Instant(f) < ACCEPTED_UNTIL
  {
    hide ToJulian, RealDate;
    var y := f.year + 1900;
    DateInYear(Date(y, f.mon + 1, f.mday));
    Landmarks();
    if y < 1900 {
      JanuaryMonotone(y + 1, 1900);
    } else {
      JanuaryMonotone(1900, y);
    }
    if y < 10000 {
      JanuaryMonotone(y + 1, 10000);
    } else {
      JanuaryMonotone(10000, y);
    }
    ClockParts(f.hour, f.min, f.sec);
  }

  /**
    Moving a time: it succeeds exactly when the instant moved to is in the years 1900 to 9999, and the
    result is then the one time of a real date at that instant.
   */
  lemma AdjustedMeaning(f: Fields, days: int, secs: int, g: Fields)
    ensures var t := Instant(f) + SECS_PER_DAY * days + secs;
            && (Adjusted(f, days, secs).Some? <==> ACCEPTED_FROM <= t < ACCEPTED_UNTIL)
            && (Adjusted(f, days, secs) == Some(g) <==>
                  InCalendar(g) && 1900 <= g.year + 1900 <= 9999 && Instant(g) == t)
  {
    hide Instant, TimeAt, InCalendar;
    var t := Instant(f) + SECS_PER_DAY * days + secs;
    if t >= 0 {
      InstantOfTimeAt(t);
      YearAcceptedIff(TimeAt(t));
    }
    if InCalendar(g) && YearAccepted(g) && Instant(g) == t {
      YearNumber(g);
      TimeAtInstant(g);
      YearAcceptedIff(g);
    }
  }

  lemma YearNumber(g: Fields)
    requires YearAccepted(g)
    ensures g.year + 1900 >= FIRST_YEAR
  {
  }

  /** Moving a time and moving it back gives it back, for every time of a real date in the accepted years. */
  lemma AdjustBack(f: Fields, days: int, secs: int)
    requires InCalendar(f) && YearAccepted(f) && Adjusted(f, days, secs).Some?
    ensures Adjusted(Adjusted(f, days, secs).value, -days, -secs) == Some(f)
  {
    hide Instant, InCalendar, Adjusted;
    var g := Adjusted(f, days, secs).value;
    AdjustedMeaning(f, days, secs, g);
    AdjustedMeaning(g, -days, -secs, f);
  }

  /** The difference of two times, taken as days and seconds, is what moves the one to the other. */
  lemma AdjustByDifference(f: Fields, g: Fields, days: int, secs: int)
    requires InCalendar(g) && YearAccepted(g)
    ensures Adjusted(f, days, secs) == Some(g) <==> SECS_PER_DAY * days + secs == Instant(g) - Instant(f)
  {
    hide Instant, InCalendar, Adjusted;
    AdjustedMeaning(f, days, secs, g);
  }

  // ---------- the functions themselves ----------

  class Tm {
    var year: int
    var mon: int
    var mday: int
    var hour: int
    var min: int
    var sec: int

    constructor (f: Fields)
      ensures Get() == f
    {
      year, mon, mday, hour, min, sec := f.year, f.mon, f.mday, f.hour, f.min, f.sec;
    }

    function Get(): Fields
      reads this
    {
      Fields(year, mon, mday, hour, min, sec)
    }
  }

  /** julian_adj: the day and the second of the day that the offsets lead to, with the carry between them. */
  method JulianAdj(tm: Tm, offDay: int, offsetSec: int) returns (ok: bool, day: int, sec: int)
    requires InDay(tm.Get())
    ensures var t := Instant(tm.Get()) + SECS_PER_DAY * offDay + offsetSec;
            && (ok <==> t >= 0)
            && (ok ==> 0 <= sec < SECS_PER_DAY && SECS_PER_DAY * day + sec == t)
  {
    hide ToJulian;
    var offsetDay := Quot(offsetSec, SECS_PER_DAY);
    var offsetHms := offsetSec - offsetDay * SECS_PER_DAY;
    offsetDay := offsetDay + offDay;
    offsetHms := offsetHms + (tm.hour * 3600 + tm.min * 60 + tm.sec);
    if offsetHms >= SECS_PER_DAY {
      offsetDay := offsetDay + 1;
      offsetHms := offsetHms - SECS_PER_DAY;
    } else if offsetHms < 0 {
      offsetDay := offsetDay - 1;
      offsetHms := offsetHms + SECS_PER_DAY;
    }
    var jd := ToJulian(tm.year + 1900, tm.mon + 1, tm.mday);
    jd := jd + offsetDay;
    if jd < 0 {
      return false, 0, 0;
    }
    return true, jd, offsetHms;
  }

  /** OPENSSL_gmtime_adj; a refused time is left as it was. */
  method GmtimeAdj(tm: Tm, offDay: int, offsetSec: int) returns (ok: bool)
    requires InDay(tm.Get())
    modifies tm
    ensures ok <==> Adjusted(old(tm.Get()), offDay, offsetSec).Some?
    ensures if ok then Some(tm.Get()) == Adjusted(old(tm.Get()), offDay, offsetSec) else unchanged(tm)
  {
    hide ToJulian, FromJulian;
    var day, sec;
    ok, day, sec := JulianAdj(tm, offDay, offsetSec);
    if !ok {
      return false;
    }
    DayAndSecond(day, sec);
    var date := FromJulian(day);
    if date.year < 1900 || date.year > 9999 {
      return false;
    }
    tm.year := date.year - 1900;
    tm.mon := date.month - 1;
    tm.mday := date.day;
    tm.hour := sec / 3600;
    tm.min := sec / 60 % 60;
    tm.sec := sec % 60;
  }

  /** OPENSSL_gmtime_diff: the days and the seconds from one time to another, with the same sign. */
  method GmtimeDiff(from: Tm, to: Tm) returns (ok: bool, days: int, secs: int)
    requires InDay(from.Get()) && InDay(to.Get())
    ensures ok <==> Instant(from.Get()) >= 0 && Instant(to.Get()) >= 0
    ensures ok ==> SECS_PER_DAY * days + secs == Instant(to.Get()) - Instant(from.Get())
    ensures ok ==> -SECS_PER_DAY < secs < SECS_PER_DAY && (days > 0 ==> secs >= 0) && (days < 0 ==> secs <= 0)
  {
    hide Instant;
    var fromDay, fromSec, toDay, toSec;
    ok, fromDay, fromSec := JulianAdj(from, 0, 0);
    if !ok {
      return false, 0, 0;
    }
    ok, toDay, toSec := JulianAdj(to, 0, 0);
    if !ok {
      return false, 0, 0;
    }
    days, secs := toDay - fromDay, toSec - fromSec;
    if days > 0 && secs < 0 {
      days, secs := days - 1, secs + SECS_PER_DAY;
    }
    if days < 0 && secs > 0 {
      days, secs := days + 1, secs - SECS_PER_DAY;
    }
  }
}
