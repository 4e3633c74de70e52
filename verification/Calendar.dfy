/**
 Gregorian dates and Julian days (misc/sqlite/date.c:216-253, 343-364), in exact arithmetic. A
 conversion of a real number to int drops its fraction.
 */
module Calendar {
  import opened Arithmetic

  datatype Date = Date(y: int, m: int, d: int)

  function Trunc(x: real): int {
    if x >= 0.0 then x.Floor else -(-x).Floor
  }

  function TruncDiv(a: int, b: int): int
    requires b > 0
  {
    if a >= 0 then a / b else -(-a / b)
  }

  // ---------- The calendar ----------

  predicate Leap(y: int) {
    y % 4 == 0 && (y % 100 != 0 || y % 400 == 0)
  }

  function MonthLength(y: int, m: int): int {
    if m == 2 then if Leap(y) then 29 else 28
    else if m == 4 || m == 6 || m == 9 || m == 11 then 30
    else 31
  }

  /** A date of the Gregorian calendar, from year 0 on. */
  predicate Valid(t: Date) {
    t.y >= 0 && 1 <= t.m <= 12 && 1 <= t.d <= MonthLength(t.y, t.m)
  }

  function NextDay(t: Date): Date {
    if t.d < MonthLength(t.y, t.m) then Date(t.y, t.m, t.d + 1)
    else if t.m < 12 then Date(t.y, t.m + 1, 1)
    else Date(t.y + 1, 1, 1)
  }

  // ---------- The code ----------

  /** computeJD for a date without time of day. */
  function JulianDay(t: Date): real {
    var y, m := if t.m <= 2 then t.y - 1 else t.y, if t.m <= 2 then t.m + 12 else t.m;
    var a := TruncDiv(y, 100);
    var b := 2 - a + TruncDiv(a, 4);
    var x1 := Trunc(365.25 * (y + 4716) as real);
    var x2 := Trunc(30.6001 * (m + 1) as real);
    (x1 + x2 + t.d + b) as real - 1524.5
  }

  /** computeYMD */
  function DateOf(jd: real): Date {
    var z := Trunc(jd + 0.5);
    var alpha := Trunc((z as real - 1867216.25) / 36524.25);
    var a := z + 1 + alpha - TruncDiv(alpha, 4);
    var b := a + 1524;
    var c := Trunc((b as real - 122.1) / 365.25);
    var d := Trunc(365.25 * c as real);
    var e := Trunc((b - d) as real / 30.6001);
    var x1 := Trunc(30.6001 * e as real);
    var month := if e < 14 then e - 1 else e - 13;
    Date(if month > 2 then c - 4716 else c - 4715, month, b - d - x1)
  }

  // ---------- In whole numbers ----------

  lemma TruncIs(x: real, n: int)
    requires x >= 0.0 && n as real <= x < n as real + 1.0
    ensures Trunc(x) == n
  {
  }

  /** Days in full years of 365.25 days. */
  function Years(t: int): int {
    1461 * t / 4
  }

  lemma YearsIs(t: int)
    requires t >= 0
    ensures Trunc(365.25 * t as real) == Years(t)
  {
    var n := Years(t);
    assert 4 * n <= 1461 * t < 4 * n + 4;
    assert 365.25 * t as real == (1461 * t) as real / 4.0;
    TruncIs(365.25 * t as real, n);
  }

  /** Days before month m, counted from March as month 3 with 122 days before it. */
  function Months(e: int): int {
    306001 * e / 10000
  }

  lemma MonthsIs(e: int)
    requires e >= 0
    ensures Trunc(30.6001 * e as real) == Months(e)
  {
    var n := Months(e);
    assert 10000 * n <= 306001 * e < 10000 * n + 10000;
    assert 30.6001 * e as real == (306001 * e) as real / 10000.0;
    TruncIs(30.6001 * e as real, n);
  }

  /** The year and month counted from March. */
  function YearOf(t: Date): int {
    if t.m <= 2 then t.y - 1 else t.y
  }

  function MonthOf(t: Date): int {
    if t.m <= 2 then t.m + 12 else t.m
  }

  /** The century correction. */
  function Century(y: int): int {
    2 - TruncDiv(y, 100) + TruncDiv(TruncDiv(y, 100), 4)
  }

  /** The whole number of days of a date: its Julian day begins half a day earlier. */
  function DayNumber(t: Date): int {
    Years(YearOf(t) + 4716) + Months(MonthOf(t) + 1) + t.d + Century(YearOf(t)) - 1524
  }

  lemma JulianDayIs(t: Date)
    requires Valid(t)
    ensures JulianDay(t) == DayNumber(t) as real - 0.5
  {
    YearsIs(YearOf(t) + 4716);
    MonthsIs(MonthOf(t) + 1);
  }

  /** computeYMD on whole numbers: from the count of a Julian calendar, in which every fourth year is
      a leap year. */
  function FromJulian(b: int): Date {
    var c := (20 * b - 2442) / 7305;
    var d := Years(c);
    var e := 10000 * (b - d) / 306001;
    var month := if e < 14 then e - 1 else e - 13;
    Date(if month > 2 then c - 4716 else c - 4715, month, b - d - Months(e))
  }

  /** The days to add to get that count from a day number. */
  function Correction(z: int): int {
    var alpha := TruncDiv(4 * z - 7468865, 146097);
    1 + alpha - TruncDiv(alpha, 4) + 1524
  }

  lemma Quotient(x: real, p: int, q: int)
    requires q > 0 && p >= 0 && x == p as real / q as real
    ensures Trunc(x) == p / q
  {
    var n := p / q;
    assert n * q <= p < n * q + q;
    assert (n * q) as real == n as real * q as real;
    InBetween(n as real, p as real, q as real);
    TruncIs(x, n);
  }

  lemma InBetween(n: real, p: real, q: real)
    requires q > 0.0 && n * q <= p < n * q + q
    ensures n <= p / q < n + 1.0
  {
    assert p / q * q == p;
    assert (n + 1.0) * q == n * q + q;
    if p / q < n {
      Scale(p / q, n, q);
    }
    if p / q >= n + 1.0 {
      ScaleUp(n + 1.0, p / q, q);
    }
  }

  lemma Scale(a: real, b: real, q: real)
    requires a < b && q > 0.0
    ensures a * q < b * q
  {
    assert (b - a) * q > 0.0;
  }

  lemma ScaleUp(a: real, b: real, q: real)
    requires a <= b && q > 0.0
    ensures a * q <= b * q
  {
    assert (b - a) * q >= 0.0;
  }

  lemma AlphaIs(z: int)
    ensures Trunc((z as real - 1867216.25) / 36524.25) == TruncDiv(4 * z - 7468865, 146097)
  {
    var x, p := (z as real - 1867216.25) / 36524.25, 4 * z - 7468865;
    assert x == p as real / 146097.0;
    if p >= 0 {
      Quotient(x, p, 146097);
    } else {
      var y := (-p) as real / 146097.0;
      assert -x == y;
      Quotient(y, -p, 146097);
      assert y >= 0.0 && x < 0.0;
    }
  }

  /** At any time of the day, computeYMD works on the day number alone. */
  lemma DateOfIs(z: int, f: real)
    requires z >= 0 && 0.0 <= f < 1.0 && 122 < z + Correction(z)
    requires var b := z + Correction(z); b >= Years((20 * b - 2442) / 7305)
    ensures DateOf(z as real - 0.5 + f) == FromJulian(z + Correction(z))
  {
    hide TruncDiv, Years, Months;
    TruncIs(z as real - 0.5 + f + 0.5, z);
    AlphaIs(z);
    var b := z + Correction(z);
    var c := (20 * b - 2442) / 7305;
    CIs(b);
    YearsIs(c);
    var d := Years(c);
    var e := 10000 * (b - d) / 306001;
    EIs(b - d);
    MonthsIs(e);
  }

  lemma CIs(b: int)
    requires b > 122
    ensures Trunc((b as real - 122.1) / 365.25) == (20 * b - 2442) / 7305 >= 0
  {
    var x, p := (b as real - 122.1) / 365.25, 20 * b - 2442;
    assert x == p as real / 7305.0;
    Quotient(x, p, 7305);
  }

  lemma EIs(r: int)
    requires r >= 0
    ensures Trunc(r as real / 30.6001) == 10000 * r / 306001 >= 0
  {
    var x, p := r as real / 30.6001, 10000 * r;
    assert x == p as real / 306001.0;
    Quotient(x, p, 306001);
  }

  // ---------- Round trip ----------

  /** The year and the month of a Julian count. */
  lemma FromJulianIs(t: Date, b: int)
    requires Valid(t) && b == Years(YearOf(t) + 4716) + Months(MonthOf(t) + 1) + t.d
    ensures FromJulian(b) == t && b > 122 && b >= Years((20 * b - 2442) / 7305)
  {
    var y, m := YearOf(t) + 4716, MonthOf(t);
    MonthTable(m);
    var r := Months(m + 1) + t.d;
    assert 123 <= r <= 488;
    assert (20 * b - 2442) / 7305 == y by {
      if m == 14 && t.d == 29 {
        LeapDayYear(t);
      }
      YearFits(y, r, m == 14 && t.d == 29);
    }
    hide Months, Years;
    MonthFits(m, t.d);
  }

  lemma LeapDayYear(t: Date)
    requires Valid(t) && t.m == 2 && t.d == 29
    ensures (YearOf(t) + 4716) % 4 == 3
  {
    FebruaryIs(t.y);
    assert t.y % 4 == 0;
    DivMod(YearOf(t) + 4716, 4, t.y / 4 + 1178, 3);
  }

  /** The month comes back from the days since the last day of February. */
  lemma MonthFits(m: int, d: int)
    requires 3 <= m <= 14 &&
             1 <= d <= (if m == 14 then 29 else if m == 4 || m == 6 || m == 9 || m == 11 then 30 else 31)
    ensures 10000 * (Months(m + 1) + d) / 306001 == m + 1
  {
    MonthTable(m);
    var p := 10000 * (Months(m + 1) + d);
    DivMod(p, 306001, m + 1, p - (m + 1) * 306001);
  }

  /** Months from March on, and what is left of the year. */
  lemma MonthTable(m: int)
    requires 3 <= m <= 14
    ensures Months(m + 1) ==
            match m
            case 3 => 122 case 4 => 153 case 5 => 183 case 6 => 214 case 7 => 244 case 8 => 275
            case 9 => 306 case 10 => 336 case 11 => 367 case 12 => 397 case 13 => 428 case _ => 459
  {
  }

  lemma YearFits(t: int, r: int, leapDay: bool)
    requires t >= 0 && 123 <= r <= (if leapDay then 488 else 487) && (leapDay ==> t % 4 == 3)
    ensures (20 * (Years(t) + r) - 2442) / 7305 == t
  {
    var n := Years(t);
    assert 4 * n <= 1461 * t < 4 * n + 4;
    assert leapDay ==> 4 * n <= 1461 * t - 3;
    assert 7305 * t <= 20 * (n + r) - 2442 < 7305 * t + 7305;
  }

  /** Days since the first of March of a century's first year. */
  function DayOfCentury(k: int, m: int, d: int): int {
    Years(k + 4716) + Months(m + 1) + d - 1722642
  }

  /** A century of c hundred years has 36524 days, and a leap day if it is the first of four. */
  lemma CenturyDays(c: int, k: int, m: int, d: int)
    requires c >= 0 && 0 <= k < 100 && 3 <= m <= 14 && 1 <= d <= 31
    ensures Years(100 * c + k + 4716) == 36525 * c + Years(k + 4716)
    ensures Century(100 * c + k) == 2 - c + c / 4
  {
    assert 1461 * (100 * c + k + 4716) == 4 * (36525 * c) + 1461 * (k + 4716);
    assert (100 * c + k) / 100 == c;
  }

  /** Within its century a date is at most day 36523, or 36524 if the century ends with a leap day. */
  lemma CenturyLength(c: int, k: int, t: Date)
    requires Valid(t) && c >= 0 && 0 <= k < 100 && YearOf(t) == 100 * c + k
    ensures var n := DayOfCentury(k, MonthOf(t), t.d);
            && 0 <= n <= 36524 && (n == 36524 ==> c % 4 == 3)
            && (n == 0 <==> k == 0 && MonthOf(t) == 3 && t.d == 1)
  {
    var m := MonthOf(t);
    MonthTable(m);
    assert k == 99 && m == 14 ==> t.y == 100 * (c + 1);
    assert Years(k + 4716) <= 1758678 && (k < 99 ==> Years(k + 4716) <= 1758313);
    assert Years(k + 4716) >= 1722519 && (k > 0 ==> Years(k + 4716) >= 1722884);
    if k == 99 && m == 14 && t.d == 29 {
      assert t.y % 400 == 0;
      assert c % 4 == 3;
    }
  }

  /** computeYMD's century correction undoes computeJD's, but for the first of March 300, where a
      quotient of exactly -1 is not rounded towards zero. */
  lemma CorrectionIs(t: Date)
    requires Valid(t)
    ensures Correction(DayNumber(t)) == 1524 - Century(YearOf(t)) <==> t != Date(300, 3, 1)
    ensures t == Date(300, 3, 1) ==> Correction(DayNumber(t)) == 1523 - Century(YearOf(t))
  {
    var y := YearOf(t);
    if y < 0 {
      YearZero(t);
    } else {
      var c, k := y / 100, y % 100;
      assert y == 100 * c + k;
      CenturyDays(c, k, MonthOf(t), t.d);
      CenturyLength(c, k, t);
      var n := DayOfCentury(k, MonthOf(t), t.d);
      CorrectionAt(c, n, DayNumber(t));
    }
  }

  /** January and February of year 0. */
  lemma YearZero(t: Date)
    requires Valid(t) && YearOf(t) < 0
    ensures Correction(DayNumber(t)) == 1524 - Century(YearOf(t))
  {
    MonthTable(MonthOf(t));
    assert YearOf(t) == -1 && Years(4715) == 1722153 && Century(-1) == 2;
    var z := DayNumber(t);
    assert 1721060 <= z <= 1721119;
    assert TruncDiv(4 * z - 7468865, 146097) == -4;
  }

  lemma CorrectionAt(c: int, n: int, z: int)
    requires c >= 0 && 0 <= n <= 36524 && (n == 36524 ==> c % 4 == 3)
    requires z == 36524 * c + c / 4 + n + 1721120
    ensures Correction(z) == 1522 + c - c / 4 <==> !(c == 3 && n == 0)
    ensures c == 3 && n == 0 ==> Correction(z) == 1522 + c - c / 4 - 1
  {
    var p := 4 * z - 7468865;
    assert p == 146097 * (c - 4) + 3 - c % 4 + 4 * n;
    assert 146097 * (c - 4) <= p < 146097 * (c - 3);
    if c >= 4 {
      assert p / 146097 == c - 4;
      assert (c - 4) / 4 == c / 4 - 1;
    } else {
      assert TruncDiv(p, 146097) == if p == 146097 * (c - 4) then c - 4 else c - 3;
    }
  }

  /** Every date from year 0 on comes back from its Julian day, at every time of the day, except the
      first of March 300. */
  lemma RoundTrip(t: Date, f: real)
    requires Valid(t) && 0.0 <= f < 1.0
    ensures DateOf(JulianDay(t) + f) == t <==> t != Date(300, 3, 1)
  {
    hide DateOf, FromJulian, Correction, Years, Months, Century;
    var z := DayNumber(t);
    JulianDayIs(t);
    CorrectionIs(t);
    if t != Date(300, 3, 1) {
      FromJulianIs(t, z + Correction(z));
      DayPositive(t);
      DateOfIs(z, f);
    } else {
      TheDayBefore(t, z, f);
    }
  }

  lemma DayPositive(t: Date)
    requires Valid(t)
    ensures DayNumber(t) >= 0
  {
    MonthTable(MonthOf(t));
    var y := YearOf(t);
    if y >= 0 {
      CenturyDays(y / 100, y % 100, MonthOf(t), t.d);
      CenturyLength(y / 100, y % 100, t);
    }
  }

  /** It is given back as the 29th of February of a year that has none. */
  lemma TheDayBefore(t: Date, z: int, f: real)
    requires t == Date(300, 3, 1) && z == DayNumber(t) && 0.0 <= f < 1.0
    ensures DateOf(z as real - 0.5 + f) == Date(300, 2, 29) && !Valid(Date(300, 2, 29))
  {
    CorrectionIs(t);
    MonthTable(3);
    MonthTable(14);
    assert Years(5016) == 1832094 && Years(5015) == 1831728 && Century(300) == -1;
    var b := z + Correction(z);
    assert b == 1832216;
    assert (20 * b - 2442) / 7305 == 5015;
    assert 10000 * (b - Years(5015)) / 306001 == 15;
    DateOfIs(z, f);
  }

  // ---------- Counting days ----------

  /** The epoch: noon of the first of January 2000 is Julian day 2451545, and with the next lemma that
      fixes the Julian day of every date. */
  lemma Epoch()
    ensures JulianDay(Date(2000, 1, 1)) == 2451544.5 && JulianDay(Date(1970, 1, 1)) == 2440587.5
    ensures DateOf(2451545.0) == Date(2000, 1, 1)
  {
    JulianDayIs(Date(2000, 1, 1));
    JulianDayIs(Date(1970, 1, 1));
    MonthTable(13);
    RoundTrip(Date(2000, 1, 1), 0.5);
  }

  /** The day after is a date, and its Julian day is one more. */
  lemma NextDayIsOneMore(t: Date)
    requires Valid(t)
    ensures Valid(NextDay(t)) && JulianDay(NextDay(t)) == JulianDay(t) + 1.0
  {
    hide JulianDay, Years, Months, Century, Leap;
    JulianDayIs(t);
    JulianDayIs(NextDay(t));
    var m := MonthOf(t);
    MonthTable(m);
    if t.d == MonthLength(t.y, t.m) {
      if t.m == 2 {
        MarchFollows(t);
      } else {
        MonthTable(m + 1);
      }
    }
  }

  /** From the end of February to the first of March the count of years goes on by one. */
  lemma MarchFollows(t: Date)
    requires Valid(t) && t.m == 2 && t.d == MonthLength(t.y, 2)
    ensures DayNumber(Date(t.y, 3, 1)) == DayNumber(t) + 1
  {
    hide Years, Months, Century, MonthLength;
    MonthTable(3);
    MonthTable(14);
    YearStep(t.y);
    CenturyStep(t.y);
    FebruaryIs(t.y);
  }

  lemma FebruaryIs(y: int)
    requires y >= 0
    ensures MonthLength(y, 2) == 28 + (if y % 4 == 0 then 1 else 0) - (if y % 100 == 0 && y % 400 != 0 then 1 else 0)
  {
    if y % 100 == 0 {
      DivMod(y, 4, 25 * (y / 100), 0);
    }
  }

  lemma YearStep(y: int)
    requires y >= 0
    ensures Years(y + 4716) == Years(y - 1 + 4716) + if y % 4 == 0 then 366 else 365
  {
  }

  lemma CenturyStep(y: int)
    requires y >= 0
    ensures Century(y) == Century(y - 1) - if y % 100 == 0 && y % 400 != 0 then 1 else 0
  {
    if y > 0 {
      var c, k := y / 100, y % 100;
      if k == 0 {
        DivMod(y - 1, 100, c - 1, 99);
        assert y % 400 == 0 <==> c % 4 == 0;
      } else {
        assert (y - 1) / 100 == c;
      }
    }
  }

  // ---------- The time of day ----------

  datatype Time = Time(h: int, m: int, s: real)

  function Seconds(t: Time): real {
    t.h as real * 3600.0 + t.m as real * 60.0 + t.s
  }

  /** Minutes and seconds below 60. The hour may be 24. */
  predicate OnClock(t: Time) {
    t.h >= 0 && 0 <= t.m < 60 && 0.0 <= t.s < 60.0
  }

  lemma ClockUnique(a: Time, b: Time)
    requires OnClock(a) && OnClock(b) && Seconds(a) == Seconds(b)
    ensures a == b
  {
    var p, q := a.h * 60 + a.m, b.h * 60 + b.m;
    assert Seconds(a) == 60.0 * p as real + a.s && Seconds(b) == 60.0 * q as real + b.s;
    assert p == q;
  }

  /** The time of day in milliseconds, rounded to the nearest. */
  function Milliseconds(jd: real): int {
    Trunc((jd + 0.5 - Trunc(jd + 0.5) as real) * 86400000.0 + 0.5)
  }

  /** At `sec` seconds of a day the rounding is off by half a millisecond at most, and not at all for
      whole milliseconds; the last half millisecond of a day is rounded up to 24 hours. */
  lemma MillisecondsAre(t: Date, sec: real)
    requires Valid(t) && 0.0 <= sec < 86400.0
    ensures var ms := Milliseconds(JulianDay(t) + sec / 86400.0);
            && sec * 1000.0 - 0.5 < ms as real <= sec * 1000.0 + 0.5
            && 0 <= ms <= 86400000 && (ms == 86400000 <==> sec >= 86399.9995)
            && ((sec * 1000.0).Floor as real == sec * 1000.0 ==> ms as real == sec * 1000.0)
  {
    hide JulianDay, DayNumber, Valid, Trunc;
    var z, f := DayNumber(t), sec / 86400.0;
    JulianDayIs(t);
    DayPositive(t);
    var jd := JulianDay(t) + f;
    assert jd + 0.5 == z as real + f && 0.0 <= f < 1.0;
    TruncIs(jd + 0.5, z);
    assert (jd + 0.5 - z as real) * 86400000.0 == sec * 1000.0;
    Rounding(sec * 1000.0);
  }

  lemma Rounding(x: real)
    requires x >= 0.0
    ensures var n := Trunc(x + 0.5);
            n >= 0 && x - 0.5 < n as real <= x + 0.5 &&
            (x.Floor as real == x ==> n as real == x)
  {
    var y, k := x + 0.5, x.Floor;
    assert Trunc(y) == y.Floor && y - 1.0 < y.Floor as real <= y;
    if k as real == x {
      TruncIs(y, k);
    }
  }

  /** A date and time of day in a zone that is tz minutes ahead, in days. */
  function MomentOf(date: Date, time: Time, tz: int): real {
    JulianDay(date) + Seconds(time) / 86400.0 - tz as real / 1440.0
  }

  /** One hour ahead, 13:30 is 12:30, half an hour after Julian day 2451545 begins. */
  lemma ZoneExample()
    ensures MomentOf(Date(2000, 1, 1), Time(13, 30, 0.0), 60) == 2451545.0 + 1.0 / 48.0
  {
    Epoch();
  }

  // ---------- The object ----------

  class DateTime {
    var rJD: real
    var date: Date
    var time: Time
    /** The time zone, in minutes. */
    var tz: int
    var validJD: bool
    var validYMD: bool
    var validHMS: bool
    var validTZ: bool

    constructor (date: Date)
      ensures this.date == date && validYMD && !validJD && !validHMS && !validTZ
    {
      this.date, rJD, validJD, validYMD := date, 0.0, false, true;
      time, tz, validHMS, validTZ := Time(0, 0, 0.0), 0, false, false;
    }

    /** The moment meant: a time zone counts only with a time of day. */
    ghost function Moment(): real
      reads this
    {
      MomentOf(if validYMD then date else Date(2000, 1, 1), if validHMS then time else Time(0, 0, 0.0),
               if validHMS && validTZ then tz else 0)
    }

    method ComputeJD()
      modifies this`rJD, this`validJD, this`validYMD, this`validHMS, this`validTZ
      ensures validJD && rJD == if old(validJD) then old(rJD) else old(Moment())
      ensures if !old(validJD) && old(validHMS) && old(validTZ) then !validYMD && !validHMS && !validTZ
              else validYMD == old(validYMD) && validHMS == old(validHMS) && validTZ == old(validTZ)
    {
      hide Trunc, TruncDiv;
      if validJD {
        return;
      }
      var y, m, d := date.y, date.m, date.d;
      if !validYMD {
        y, m, d := 2000, 1, 1;
      }
      if m <= 2 {
        y, m := y - 1, m + 12;
      }
      var a := TruncDiv(y, 100);
      var b := 2 - a + TruncDiv(a, 4);
      var x1 := Trunc(365.25 * (y + 4716) as real);
      var x2 := Trunc(30.6001 * (m + 1) as real);
      rJD := (x1 + x2 + d + b) as real - 1524.5;
      validJD := true;
      if validHMS {
        rJD := rJD + (time.h as real * 3600.0 + time.m as real * 60.0 + time.s) / 86400.0;
        if validTZ {
          rJD := rJD - (tz * 60) as real / 86400.0;
          validYMD, validHMS, validTZ := false, false, false;
        }
      }
    }

    /** The date is the one the moment falls on, except on the first of March 300. */
    method ComputeYMD()
      modifies this`date, this`validYMD
      ensures validYMD && (old(validYMD) ==> date == old(date))
      ensures !old(validYMD) && !validJD ==> date == Date(2000, 1, 1)
      ensures !old(validYMD) && validJD ==>
                forall t :: Valid(t) && 0.0 <= rJD - JulianDay(t) < 1.0 ==> (date == t <==> t != Date(300, 3, 1))
    {
      hide Trunc, TruncDiv, JulianDay, Valid;
      if validYMD {
        return;
      }
      if !validJD {
        date := Date(2000, 1, 1);
      } else {
        var z := Trunc(rJD + 0.5);
        var a := Trunc((z as real - 1867216.25) / 36524.25);
        a := z + 1 + a - TruncDiv(a, 4);
        var b := a + 1524;
        var c := Trunc((b as real - 122.1) / 365.25);
        var d := Trunc(365.25 * c as real);
        var e := Trunc((b - d) as real / 30.6001);
        var x1 := Trunc(30.6001 * e as real);
        var m := if e < 14 then e - 1 else e - 13;
        date := Date(if m > 2 then c - 4716 else c - 4715, m, b - d - x1);
        assert date == DateOf(rJD);
        hide DateOf;
        forall t | Valid(t) && 0.0 <= rJD - JulianDay(t) < 1.0
          ensures date == t <==> t != Date(300, 3, 1)
        {
          RoundTrip(t, rJD - JulianDay(t));
        }
      }
      validYMD := true;
    }

    /** The time of day of the moment, to the millisecond. */
    method ComputeHMS()
      modifies this`rJD, this`validJD, this`validYMD, this`validHMS, this`validTZ, this`time
      ensures validHMS && (old(validHMS) ==> time == old(time) && rJD == old(rJD) && validJD == old(validJD))
      ensures !old(validHMS) ==> validJD && rJD == if old(validJD) then old(rJD) else old(Moment())
      ensures !old(validHMS) && rJD >= 0.0 ==> OnClock(time) && Seconds(time) == Milliseconds(rJD) as real / 1000.0
      ensures validYMD == old(validYMD) && validTZ == old(validTZ)
    {
      if validHMS {
        return;
      }
      ComputeJD();
      var z := Trunc(rJD + 0.5);
      var s := Trunc((rJD + 0.5 - z as real) * 86400000.0 + 0.5);
      ghost var ms := s;
      var sec := 0.001 * s as real;
      s := Trunc(sec);
      sec := sec - s as real;
      var h := TruncDiv(s, 3600);
      s := s - h * 3600;
      var m := TruncDiv(s, 60);
      time := Time(h, m, sec + (s - m * 60) as real);
      validHMS := true;
      if rJD >= 0.0 {
        assert ms >= 0;
        Split(ms, time);
      }
    }

    /** From date and time of day to the Julian day and back. The date returns unless it is the first
        of March 300; the time returns to the nearest millisecond. */
    method ThereAndBack()
      requires Valid(date) && validYMD && !validJD && !validTZ
      requires validHMS ==> OnClock(time) && Seconds(time) < 86400.0
      modifies this
      ensures date == old(date) <==> old(date) != Date(300, 3, 1)
      ensures var sec := if old(validHMS) then old(Seconds(time)) else 0.0;
              && OnClock(time) && sec - 0.0005 < Seconds(time) <= sec + 0.0005
              && ((sec * 1000.0).Floor as real == sec * 1000.0 ==> Seconds(time) == sec)
              && (time.h == 24 <==> sec >= 86399.9995)
      ensures old(validHMS) && (old(Seconds(time)) * 1000.0).Floor as real == old(Seconds(time)) * 1000.0 ==>
              time == old(time)
    {
      hide JulianDay, Milliseconds;
      ghost var sec := if validHMS then Seconds(time) else 0.0;
      ghost var date0, time0, timed := date, time, validHMS;
      MillisecondsAre(date, sec);
      JulianDayIs(date);
      DayPositive(date);
      ComputeJD();
      assert rJD == JulianDay(date0) + sec / 86400.0;
      validYMD, validHMS := false, false;
      ComputeYMD();
      ComputeHMS();
      if timed && Seconds(time) == sec {
        ClockUnique(time, time0);
      }
    }
  }

  /** Hours, minutes and seconds of a number of milliseconds. */
  lemma Split(ms: int, t: Time)
    requires ms >= 0
    requires var sec := 0.001 * ms as real;
             var s := Trunc(sec);
             var h := TruncDiv(s, 3600);
             var m := TruncDiv(s - h * 3600, 60);
             t == Time(h, m, sec - s as real + (s - h * 3600 - m * 60) as real)
    ensures OnClock(t) && Seconds(t) == ms as real / 1000.0
  {
  }
}
