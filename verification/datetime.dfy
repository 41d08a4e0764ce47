/**
 * `SIMCOMDateTime` (SIMCOM_Datetime.cpp/.h): a calendar date and time of the
 * years 2000 on, as the modem's "AT+CCLK" clock field "yy/MM/dd,hh:mm:ss±zz"
 * shows it. It is built from that text, from a count of seconds since
 * 2000-01-01 (the Y2K epoch) or from the fields themselves, and turns back
 * into seconds since the Y2K or the Unix epoch and into the clock text.
 */
module Datetime {
  import opened Machine
  import opened CText

  /**
   * The stored fields: year minus 2000, month (0..11), day (0..30), hour,
   * minute, second and the time zone in quarters of an hour. Only the
   * timestamp constructor keeps to those ranges; the other two constructors
   * store what they are given. The field-wise constructor is this datatype's
   * own constructor, its time zone defaulting to 0 in the source.
   */
  datatype DateTime = DateTime(yOff: u8, m: u8, d: u8, hh: u8, mm: u8, ss: u8, tz: i8)

  const SecondsPerDay := 86400

  /** Seconds from 1970-01-01 to 2000-01-01. */
  const Y2KOffset := 946684800

  /** The `daysInMonth` table, February of a common year. */
  const DaysInMonth: seq<nat> := [31, 28, 31, 30, 31, 30, 31, 31, 30, 31, 30, 31]

  /** Gregorian leap years, for the year 2000 + `y`. */
  predicate IsLeap(y: nat)
  {
    var year := 2000 + y;
    year % 4 == 0 && (year % 100 != 0 || year % 400 == 0)
  }

  /** The length of the 0-based month `m`. */
  function MonthLength(m: nat, leap: bool): nat
    requires m < 12
  {
    DaysInMonth[m] + (if leap && m == 1 then 1 else 0)
  }

  /** Days in the months before the 0-based month `m` of a common year: what the loop over the table adds up. */
  function CumDays(m: nat): nat
    requires m <= 12
  {
    if m == 0 then 0 else CumDays(m - 1) + DaysInMonth[m - 1]
  }

  lemma CumDaysValues()
    ensures CumDays(0) == 0 && CumDays(1) == 31 && CumDays(2) == 59 && CumDays(3) == 90
    ensures CumDays(4) == 120 && CumDays(5) == 151 && CumDays(6) == 181 && CumDays(7) == 212
    ensures CumDays(8) == 243 && CumDays(9) == 273 && CumDays(10) == 304 && CumDays(11) == 334
    ensures CumDays(12) == 365
  {
    assert CumDays(1) == 31;
    assert CumDays(2) == 59;
    assert CumDays(3) == 90;
    assert CumDays(4) == 120;
    assert CumDays(5) == 151;
    assert CumDays(6) == 181;
    assert CumDays(7) == 212;
    assert CumDays(8) == 243;
    assert CumDays(9) == 273;
    assert CumDays(10) == 304;
    assert CumDays(11) == 334;
  }

  // ---------------------------------------------------------------------
  // Accessors
  // ---------------------------------------------------------------------

  function Year(t: DateTime): (r: u16)
    ensures 2000 <= r < 2256
  {
    t.yOff + 2000
  }

  /** `_m + 1` returned as a `uint8_t`. */
  function Month(t: DateTime): (r: u8)
    ensures t.m < 255 ==> r == t.m + 1
    ensures t.m == 255 ==> r == 0
  {
    ToU8(t.m + 1)
  }

  /** `_d + 1` returned as a `uint8_t`. */
  function Day(t: DateTime): (r: u8)
    ensures t.d < 255 ==> r == t.d + 1
    ensures t.d == 255 ==> r == 0
  {
    ToU8(t.d + 1)
  }

  // ---------------------------------------------------------------------
  // From a timestamp
  // ---------------------------------------------------------------------

  /** Where a day count lands: the year offset, the day of that year, and whether the code treats it as a leap year. */
  datatype YearSplit = YearSplit(years: nat, days: nat, leap: bool)

  /**
   * The year step of the timestamp constructor: 100-year cycles of 36525
   * days, 4-year cycles of 1461 days (one day added after 2104, since 2100
   * has no leap day), then the years within the cycle.
   */
  function SplitYears(days: nat): (r: YearSplit)
    requires days < U16Modulus
    ensures r.years <= 180
    ensures r.days < (if r.leap then 366 else 365)
    ensures r.leap ==> r.years % 4 == 0 && r.years != 100
    ensures r.years < 100 <==> days < 36525
  {
    var years := 100 * (days / 36525);
    var rem := days % 36525;
    var years := years + 4 * (rem / 1461);
    var cycle := rem % 1461 + (if years > 100 then 1 else 0);
    var leap := years != 100;
    if cycle > 364 + (if leap then 1 else 0) then
      var later := cycle - (if leap then 1 else 0);
      YearSplit(years + later / 365, later % 365, false)
    else
      YearSplit(years, cycle, leap)
  }

  /** Where a day of the year lands: the 0-based month and day. */
  datatype MonthDay = MonthDay(m: nat, d: nat)

  /**
   * The month step: January and February directly, then March to December
   * as two five-month runs of 153 days, each run as pairs of 61 days, each
   * pair as 31 days and the rest.
   */
  function SplitMonth(doy: nat, leap: bool): (r: MonthDay)
    requires doy < (if leap then 366 else 365)
    ensures r.m <= 11
    ensures r.d < MonthLength(r.m, leap)
  {
    var n := 59 + (if leap then 1 else 0);
    if doy < n then
      JanuaryFebruary(doy, leap);
      MonthDay(doy / 31, doy % 31)
    else
      var x := doy - n;
      var run := x % 153;
      var pair := run % 61;
      MarchToDecember(x);
      MonthDay(2 + (x / 153) * 5 + (run / 61) * 2 + pair / 31, pair % 31)
  }

  /** Before March 1, dividing by 31 finds January or February and a day within it. */
  lemma JanuaryFebruary(doy: nat, leap: bool)
    requires doy < 59 + (if leap then 1 else 0)
    ensures doy / 31 <= 1 && doy % 31 < MonthLength(doy / 31, leap)
    ensures CumDays(doy / 31) + doy % 31 == doy
  {
    assert CumDays(1) == 31;
    if doy < 31 {
      assert doy / 31 == 0 && doy % 31 == doy;
    } else {
      assert doy / 31 == 1 && doy % 31 == doy - 31;
    }
  }

  /**
   * From March 1 on, the 153/61/31 steps find the month, and the days
   * before it add back up to the position `x`.
   */
  lemma MarchToDecember(x: nat)
    requires x < 306
    ensures var run := x % 153;
      var pair := run % 61;
      var m := 2 + (x / 153) * 5 + (run / 61) * 2 + pair / 31;
      && 2 <= m <= 11
      && pair % 31 < DaysInMonth[m]
      && CumDays(m) + pair % 31 == 59 + x
  {
    CumDaysValues();
    var q := x / 153;
    var run := x % 153;
    assert x == 153 * q + run;
    var a := run / 61;
    var pair := run % 61;
    assert run == 61 * a + pair;
    var b := pair / 31;
    assert pair == 31 * b + pair % 31;
    assert q <= 1 && a <= 2 && b <= 1;
    assert q == 1 ==> run < 153;
    assert a == 2 ==> b == 0;
  }

  /**
   * `SIMCOMDateTime(uint32_t ts)`: seconds since 2000-01-01 00:00:00 broken
   * into a date and time in time zone 0. Every field is in its documented
   * range, and the day lies within its month.
   */
  function FromY2K(ts: u32): (r: DateTime)
    ensures r.ss < 60 && r.mm < 60 && r.hh < 24 && r.tz == 0 && r.yOff <= 180
    ensures r.m <= 11 && r.d < MonthLength(r.m as nat, IsLeap(r.yOff as nat))
  {
    var days := ts / SecondsPerDay;
    var fract := ts % SecondsPerDay;
    var y := SplitYears(days);
    var md := SplitMonth(y.days, y.leap);
    var c := SplitTime(fract);
    LeapFlagIsGregorian(y.years);
    DateTime(y.years, md.m, md.d, c.hh, c.mm, c.ss, 0)
  }

  /** A time of day. */
  datatype Clock = Clock(hh: nat, mm: nat, ss: nat)

  /** The seconds into the day as hours, minutes and seconds, by two divisions by 60. */
  function SplitTime(fract: nat): (r: Clock)
    requires fract < SecondsPerDay
    ensures r.hh < 24 && r.mm < 60 && r.ss < 60
    ensures r.hh * 3600 + r.mm * 60 + r.ss == fract
  {
    var minutes := fract / 60;
    Clock(minutes / 60, minutes % 60, fract % 60)
  }

  /** The code's leap flag is only set on Gregorian leap years. */
  lemma LeapFlagIsGregorian(y: nat)
    requires y <= 180
    ensures y % 4 == 0 && y != 100 ==> IsLeap(y)
    ensures y < 100 ==> (IsLeap(y) <==> y % 4 == 0)
  {
    if y % 4 == 0 && y != 100 {
      assert (2000 + y) % 4 == 0;
      assert y == 0 || (2000 + y) % 100 != 0;
    }
  }

  /** The default object, `SIMCOMDateTime(0)`, is 2000-01-01 00:00:00 in time zone 0. */
  lemma DefaultIsY2K()
    ensures FromY2K(0) == DateTime(0, 0, 0, 0, 0, 0, 0)
    ensures Year(FromY2K(0)) == 2000 && Month(FromY2K(0)) == 1 && Day(FromY2K(0)) == 1
  {
    assert SplitYears(0) == YearSplit(0, 0, true);
    assert SplitMonth(0, true) == MonthDay(0, 0);
    assert SplitTime(0) == Clock(0, 0, 0);
    var t := FromY2K(0);
    assert t == DateTime(0, 0, 0, 0, 0, 0, 0);
    AccessorsOfFirstDay(t);
  }

  /** Month 0 and day 0 read back through the accessors as January 1. */
  lemma AccessorsOfFirstDay(t: DateTime)
    requires t.yOff == 0 && t.m == 0 && t.d == 0
    ensures Year(t) == 2000 && Month(t) == 1 && Day(t) == 1
  {
    ToU8OfU8(1);
  }

  /** Seen through the accessors, a timestamp gives a calendar date: months 1 to 12, days 1 to the month's length. */
  lemma TimestampCalendar(ts: u32)
    ensures var t := FromY2K(ts);
      && 2000 <= Year(t) <= 2180
      && 1 <= Month(t) <= 12
      && 1 <= Day(t) <= MonthLength(Month(t) as nat - 1, IsLeap(Year(t) as nat - 2000))
  {
    var t := FromY2K(ts);
    CalendarOfFields(t);
  }

  lemma CalendarOfFields(t: DateTime)
    requires t.m <= 11 && t.d < MonthLength(t.m as nat, IsLeap(t.yOff as nat))
    ensures 1 <= Month(t) <= 12 && Month(t) as nat - 1 == t.m as nat
    ensures 1 <= Day(t) <= MonthLength(Month(t) as nat - 1, IsLeap(Year(t) as nat - 2000))
  {
    ToU8OfU8(t.m + 1);
    ToU8OfU8(t.d + 1);
    assert Year(t) as nat - 2000 == t.yOff as nat;
  }

  // ---------------------------------------------------------------------
  // Back to seconds
  // ---------------------------------------------------------------------

  /** The Gregorian leap years among 2000 .. 2000 + y - 1, counted one by one. */
  function LeapYearsBefore(y: nat): nat
  {
    if y == 0 then 0 else LeapYearsBefore(y - 1) + (if IsLeap(y - 1) then 1 else 0)
  }

  /**
   * The same count in closed form, as C code computes it: the years
   * divisible by 4, less those divisible by 100, plus those divisible by
   * 400, counted from 2000 on.
   */
  function LeapDays(y: nat): int
  {
    (y + 3) / 4 - (y + 99) / 100 + (y + 399) / 400
  }

  lemma {:induction false} LeapCount(y: nat)
    ensures LeapDays(y) == LeapYearsBefore(y)
  {
    if y > 0 {
      LeapCount(y - 1);
      LeapDaysStep(y - 1);
    }
  }

  lemma LeapDaysAtLeastZero(y: nat)
    ensures LeapDays(y) >= 0
  {
    var q := (y + 3) / 4;
    assert y < 4 * q + 1;
    assert (y + 99) / 100 <= q + (y + 399) / 400;
  }

  /** The closed form grows by one exactly past a leap year. */
  lemma LeapDaysStep(x: nat)
    ensures LeapDays(x + 1) == LeapDays(x) + (if IsLeap(x) then 1 else 0)
  {
    NextMultiple(x, 4);
    NextMultiple(x, 100);
    NextMultiple(x, 400);
    LeapByOffset(x);
    DivisorsNest(x);
  }

  lemma DivisorsNest(x: nat)
    ensures x % 100 == 0 ==> x % 4 == 0
    ensures x % 400 == 0 ==> x % 100 == 0
  {
    if x % 100 == 0 {
      assert x == 100 * (x / 100);
      FourDividesHundred(x / 100);
    }
    if x % 400 == 0 {
      assert x == 400 * (x / 400);
      HundredDividesFourHundred(x / 400);
    }
  }

  lemma FourDividesHundred(k: int)
    ensures (100 * k) % 4 == 0
  {
    assert 100 * k == 4 * (25 * k);
  }

  lemma HundredDividesFourHundred(k: int)
    ensures (400 * k) % 100 == 0
  {
    assert 400 * k == 100 * (4 * k);
  }

  /** Counting multiples of `n` below `y + 1` rather than below `y` adds one exactly when `n` divides `y`. */
  lemma NextMultiple(y: nat, n: nat)
    requires n == 4 || n == 100 || n == 400
    ensures (y + n) / n == (y + n - 1) / n + (if y % n == 0 then 1 else 0)
  {
    if n == 4 {
      assert (y + 4) / 4 == y / 4 + 1;
    } else if n == 100 {
      assert (y + 100) / 100 == y / 100 + 1;
    } else {
      assert (y + 400) / 400 == y / 400 + 1;
    }
  }

  /** As 2000 is divisible by 400, the leap rule reads the same on the year offset. */
  lemma LeapByOffset(y: nat)
    ensures IsLeap(y) <==> y % 4 == 0 && (y % 100 != 0 || y % 400 == 0)
  {
    assert (2000 + y) % 4 == y % 4;
    assert (2000 + y) % 100 == y % 100;
    assert (2000 + y) % 400 == y % 400;
  }

  /** In the first century the closed form is one leap year per started 4-year cycle. */
  lemma LeapDaysFirstCentury(y: nat)
    requires y <= 100
    ensures LeapDays(y) == (y + 3) / 4
    ensures y < 100 ==> (IsLeap(y) <==> y % 4 == 0)
  {
    if y > 0 {
      QuotientIsOne(y + 99, 100);
      QuotientIsOne(y + 399, 400);
    }
    if y < 100 {
      LeapInFirstCentury(y);
    }
  }

  lemma QuotientIsOne(a: nat, n: nat)
    requires 0 < n <= a < 2 * n
    ensures a / n == 1
  {
  }

  /** Before 2100 the only multiple of 100 is 2000 itself, which is divisible by 400. */
  lemma LeapInFirstCentury(y: nat)
    requires y < 100
    ensures IsLeap(y) <==> y % 4 == 0
  {
    LeapByOffset(y);
    assert y % 100 == y && y % 400 == y;
  }

  /** From 2101 on, 2100 is the one year divisible by 4 that is not a leap year. */
  lemma LeapDaysSecondCentury(y: nat)
    requires 100 < y <= 200
    ensures LeapDays(y) == (y + 3) / 4 - 1
    ensures y < 200 ==> (IsLeap(y) <==> y % 4 == 0)
  {
    assert LeapDays(y) == (y + 3) / 4 - (y + 99) / 100 + (y + 399) / 400;
    assert (y + 99) / 100 == 2 && (y + 399) / 400 == 1;
  }

  /**
   * `getY2KEpoch` as written: the day count is the day, 365 a year, one
   * per started 4-year cycle, the months before this one, and the leap day
   * when the 0-based month is above 2 in a year divisible by 4; it is kept
   * in a `uint16_t`. Hours, minutes, seconds and the time zone follow in
   * `uint32_t` arithmetic, modulo 2^32.
   */
  function Y2KEpochAsWritten(t: DateTime): (r: u32)
    requires t.m <= 12
    ensures t.tz == 0 && DayCount(t, t.m > 2) < U16Modulus
      && DayCount(t, t.m > 2) * SecondsPerDay + TimeOfDay(t) < U32Modulus
      ==> r == DayCount(t, t.m > 2) * SecondsPerDay + TimeOfDay(t)
  {
    EpochPlainly(t, DayCount(t, t.m > 2));
    EpochOf(t, DayCount(t, t.m > 2))
  }

  /**
   * `getY2KEpoch` as evidently intended, the inverse of the timestamp
   * constructor: the leap day belongs to every month from March
   * (0-based month 2) on, and only Gregorian leap years have one, so 2100
   * has none, as the constructor knows.
   */
  function Y2KEpoch(t: DateTime): (r: u32)
    requires t.m <= 12
    ensures t.tz == 0 && CalendarDays(t) < U16Modulus
      && CalendarDays(t) * SecondsPerDay + TimeOfDay(t) < U32Modulus
      ==> r == CalendarDays(t) * SecondsPerDay + TimeOfDay(t)
  {
    EpochPlainly(t, CalendarDays(t));
    EpochOf(t, CalendarDays(t))
  }

  /** The shared computation from a day count: truncated to `uint16_t`, then seconds modulo 2^32. */
  function EpochOf(t: DateTime, days: nat): u32
  {
    ToU32(ToU16(days) * SecondsPerDay + TimeOfDay(t) - t.tz * 900)
  }

  /** The day count as written, told whether this month comes after the leap day. */
  function DayCount(t: DateTime, afterFebruary: bool): nat
    requires t.m <= 12
  {
    var y := t.yOff as nat;
    t.d + 365 * y + (y + 3) / 4 + CumDays(t.m as nat) + (if afterFebruary && y % 4 == 0 then 1 else 0)
  }

  /** Days since 2000-01-01 on the Gregorian calendar. */
  function CalendarDays(t: DateTime): nat
    requires t.m <= 12
  {
    var y := t.yOff as nat;
    LeapDaysAtLeastZero(y);
    t.d + 365 * y + LeapDays(y) + CumDays(t.m as nat) + (if t.m >= 2 && IsLeap(y) then 1 else 0)
  }

  function TimeOfDay(t: DateTime): nat
  {
    t.hh * 3600 + t.mm * 60 + t.ss
  }

  /** Without wrap-around and in time zone 0, the epoch is the plain count of seconds. */
  lemma EpochIs(t: DateTime, days: nat, fract: nat)
    requires t.tz == 0 && TimeOfDay(t) == fract
    requires days < U16Modulus && days * SecondsPerDay + fract < U32Modulus
    ensures EpochOf(t, days) == days * SecondsPerDay + fract
  {
    ToU16OfU16(days);
    ToU32OfU32(days * SecondsPerDay + fract);
  }

  lemma EpochPlainly(t: DateTime, days: nat)
    ensures t.tz == 0 && days < U16Modulus && days * SecondsPerDay + TimeOfDay(t) < U32Modulus
      ==> EpochOf(t, days) == days * SecondsPerDay + TimeOfDay(t)
  {
    if t.tz == 0 && days < U16Modulus && days * SecondsPerDay + TimeOfDay(t) < U32Modulus {
      EpochIs(t, days, TimeOfDay(t));
    }
  }

  /**
   * How many days the count as written is ahead of the calendar in the
   * 0-based month `m` of the year 2000 + `y`. Before 2100 it is a day
   * behind in March of a leap year, the leap day being added from April
   * on. In 2100 it is a day ahead from April on, 2100 counting as a leap
   * year. After 2100 it is a day ahead, except in March of a leap year,
   * where the two slips cancel.
   */
  function AsWrittenDrift(y: nat, m: nat): int
    requires y < 200
  {
    if y < 100 then (if m == 2 && y % 4 == 0 then -1 else 0)
    else if y == 100 then (if m > 2 then 1 else 0)
    else if m == 2 && y % 4 == 0 then 0
    else 1
  }

  /** A day count as written that fits its `uint16_t` belongs to a year before 2180. */
  lemma YearOfDayCount(t: DateTime)
    requires t.m <= 12 && DayCount(t, t.m > 2) < U16Modulus
    ensures t.yOff < 180
  {
  }

  /** The day count as written is the calendar's plus the drift. */
  lemma DriftIs(t: DateTime)
    requires t.m <= 12 && t.yOff < 200
    ensures DayCount(t, t.m > 2) == CalendarDays(t) + AsWrittenDrift(t.yOff as nat, t.m as nat)
    ensures -1 <= AsWrittenDrift(t.yOff as nat, t.m as nat) <= 1
  {
    var y := t.yOff as nat;
    if y <= 100 {
      LeapDaysFirstCentury(y);
    } else {
      LeapDaysSecondCentury(y);
    }
  }

  /**
   * `getUnixEpoch` as written: the Y2K seconds of `getY2KEpoch` as written
   * plus 946684800, modulo 2^32. Where nothing wraps, that is the plain count
   * of seconds since 1970 by the day count as written.
   */
  function UnixEpochAsWritten(t: DateTime): (r: u32)
    requires t.m <= 12
    ensures t.tz == 0 && DayCount(t, t.m > 2) < U16Modulus
      && DayCount(t, t.m > 2) * SecondsPerDay + TimeOfDay(t) + Y2KOffset < U32Modulus
      ==> r == DayCount(t, t.m > 2) * SecondsPerDay + TimeOfDay(t) + Y2KOffset
  {
    EpochPlusOffset(t, DayCount(t, t.m > 2));
    ToU32(Y2KEpochAsWritten(t) + Y2KOffset)
  }

  /** `getUnixEpoch` on the corrected `getY2KEpoch`: the Gregorian day count. */
  function UnixEpoch(t: DateTime): (r: u32)
    requires t.m <= 12
    ensures t.tz == 0 && CalendarDays(t) < U16Modulus
      && CalendarDays(t) * SecondsPerDay + TimeOfDay(t) + Y2KOffset < U32Modulus
      ==> r == CalendarDays(t) * SecondsPerDay + TimeOfDay(t) + Y2KOffset
  {
    EpochPlusOffset(t, CalendarDays(t));
    ToU32(Y2KEpoch(t) + Y2KOffset)
  }

  /** Without wrap-around and in time zone 0, the Unix epoch is the plain count of seconds since 1970. */
  lemma EpochPlusOffset(t: DateTime, days: nat)
    ensures t.tz == 0 && days < U16Modulus
      && days * SecondsPerDay + TimeOfDay(t) + Y2KOffset < U32Modulus
      ==> ToU32(EpochOf(t, days) + Y2KOffset) == days * SecondsPerDay + TimeOfDay(t) + Y2KOffset
  {
    var fract := TimeOfDay(t);
    if t.tz == 0 && days < U16Modulus && days * SecondsPerDay + fract + Y2KOffset < U32Modulus {
      EpochIs(t, days, fract);
      ToU32OfU32(days * SecondsPerDay + fract + Y2KOffset);
    }
  }

  /**
   * For every date whose day counts fit their `uint16_t`, the two versions
   * of `getUnixEpoch` are the drift apart, modulo 2^32.
   */
  lemma UnixAsWrittenDrifts(t: DateTime)
    requires t.m <= 12 && DayCount(t, t.m > 2) < U16Modulus && CalendarDays(t) < U16Modulus
    ensures UnixEpochAsWritten(t)
      == ToU32(UnixEpoch(t) + AsWrittenDrift(t.yOff as nat, t.m as nat) * SecondsPerDay)
  {
    YearOfDayCount(t);
    DriftIs(t);
    UnixEpochsApart(t, AsWrittenDrift(t.yOff as nat, t.m as nat));
  }

  /** Day counts `k` apart give Unix epochs `k` days apart, modulo 2^32. */
  lemma UnixEpochsApart(t: DateTime, k: int)
    requires t.m <= 12 && DayCount(t, t.m > 2) < U16Modulus && CalendarDays(t) < U16Modulus
    requires DayCount(t, t.m > 2) == CalendarDays(t) + k
    ensures UnixEpochAsWritten(t) == ToU32(UnixEpoch(t) + k * SecondsPerDay)
  {
    var a := EpochsApart(t, k);
    assert UnixEpochAsWritten(t) == ToU32(ToU32(a + k * SecondsPerDay) + Y2KOffset);
    assert UnixEpoch(t) == ToU32(ToU32(a) + Y2KOffset);
    ShiftModU32(a, Y2KOffset, -k * SecondsPerDay);
  }

  /** Day counts `k` apart give Y2K epochs `k` days apart, before either is reduced modulo 2^32. */
  lemma EpochsApart(t: DateTime, k: int) returns (a: int)
    requires t.m <= 12 && DayCount(t, t.m > 2) < U16Modulus && CalendarDays(t) < U16Modulus
    requires DayCount(t, t.m > 2) == CalendarDays(t) + k
    ensures Y2KEpoch(t) == ToU32(a)
    ensures Y2KEpochAsWritten(t) == ToU32(a + k * SecondsPerDay)
  {
    var days := CalendarDays(t);
    a := days * SecondsPerDay + (TimeOfDay(t) - t.tz * 900);
    CorrectedEpochIs(t, a);
    AsWrittenEpochIs(t, days, k, a);
  }

  lemma CorrectedEpochIs(t: DateTime, a: int)
    requires t.m <= 12 && CalendarDays(t) < U16Modulus
    requires a == CalendarDays(t) * SecondsPerDay + (TimeOfDay(t) - t.tz * 900)
    ensures Y2KEpoch(t) == ToU32(a)
  {
    assert Y2KEpoch(t) == EpochOf(t, CalendarDays(t));
    EpochOfDaysIs(t, CalendarDays(t));
  }

  lemma AsWrittenEpochIs(t: DateTime, days: nat, drift: int, a: int)
    requires t.m <= 12 && DayCount(t, t.m > 2) < U16Modulus && DayCount(t, t.m > 2) == days + drift
    requires a == days * SecondsPerDay + (TimeOfDay(t) - t.tz * 900)
    ensures Y2KEpochAsWritten(t) == ToU32(a + drift * SecondsPerDay)
  {
    var w := DayCount(t, t.m > 2);
    assert Y2KEpochAsWritten(t) == EpochOf(t, w);
    EpochOfDaysIs(t, w);
    assert w * SecondsPerDay + (TimeOfDay(t) - t.tz * 900) == a + drift * SecondsPerDay;
  }

  /** A day count that fits its `uint16_t` is not cut. */
  lemma EpochOfDaysIs(t: DateTime, days: nat)
    requires days < U16Modulus
    ensures EpochOf(t, days) == ToU32(days * SecondsPerDay + (TimeOfDay(t) - t.tz * 900))
  {
    ToU16OfU16(days);
  }

  /** Reducing modulo 2^32 before or after adding and subtracting gives the same `uint32_t`. */
  lemma ShiftModU32(a: int, b: int, c: int)
    ensures ToU32(ToU32(a - c) + b) == ToU32(ToU32(ToU32(a) + b) - c)
  {
    var k1 := (a - c) / U32Modulus;
    var k2 := a / U32Modulus;
    var k3 := (a % U32Modulus + b) / U32Modulus;
    assert ToU32(a - c) + b == a - c + b + (-k1) * U32Modulus;
    assert ToU32(ToU32(a) + b) - c == a - c + b + (-k2 - k3) * U32Modulus;
    ModOfShift(a - c + b, -k1);
    ModOfShift(a - c + b, -k2 - k3);
  }

  lemma ModOfShift(x: int, k: int)
    ensures (x + k * U32Modulus) % U32Modulus == x % U32Modulus
  {
  }

  /**
   * A day count splits into years and a day of the year that add back up
   * to it on the Gregorian calendar. The constructor's leap flag is the
   * Gregorian one, except on January 1 of a leap year that the last
   * division lands on, where it makes no difference.
   */
  lemma YearsAddUp(days: nat)
    requires days < U16Modulus
    ensures var r := SplitYears(days);
      && 365 * r.years + LeapDays(r.years) + r.days == days
      && (r.leap == IsLeap(r.years) || r.days == 0)
  {
    if days < 36525 {
      YearsAddUpFirstCentury(days);
    } else {
      YearsAddUpSecondCentury(days);
    }
  }

  lemma YearsAddUpFirstCentury(days: nat)
    requires days < 36525
    ensures var r := SplitYears(days);
      && 365 * r.years + LeapDays(r.years) + r.days == days
      && r.leap == IsLeap(r.years)
  {
    var k := days / 1461;
    var c := days % 1461;
    assert days == 1461 * k + c;
    assert k <= 24;
    assert days / 36525 == 0 && days % 36525 == days;
    if c > 365 {
      var q := (c - 1) / 365;
      assert 1 <= q <= 3;
      assert SplitYears(days) == YearSplit(4 * k + q, (c - 1) % 365, false);
      assert (4 * k + q) % 4 == q;
      assert (4 * k + q + 3) / 4 == k + 1;
      LeapDaysFirstCentury(4 * k + q);
    } else {
      assert SplitYears(days) == YearSplit(4 * k, c, true);
      assert (4 * k) % 4 == 0;
      assert (4 * k + 3) / 4 == k;
      LeapDaysFirstCentury(4 * k);
    }
  }

  /** From 2100 on: the first 4-year cycle has no leap day, and each later one starts a day further on. */
  lemma YearsAddUpSecondCentury(days: nat)
    requires 36525 <= days < U16Modulus
    ensures var r := SplitYears(days);
      && 365 * r.years + LeapDays(r.years) + r.days == days
      && (r.leap == IsLeap(r.years) || r.days == 0)
  {
    var rem := days - 36525;
    assert days / 36525 == 1 && days % 36525 == rem;
    var k := rem / 1461;
    var c := rem % 1461;
    assert rem == 1461 * k + c;
    assert k <= 19;
    if k == 0 {
      CycleOf2100(days, c);
    } else {
      LaterCycle(days, k, c);
    }
  }

  /** 2100 to 2103: four common years, the last division landing on 2104-01-01 for the cycle's final day. */
  lemma CycleOf2100(days: nat, c: nat)
    requires days == 36525 + c && c < 1461
    ensures var r := SplitYears(days);
      && 365 * r.years + LeapDays(r.years) + r.days == days
      && (r.leap == IsLeap(r.years) || r.days == 0)
  {
    assert days / 36525 == 1 && days % 36525 == c;
    assert c / 1461 == 0 && c % 1461 == c;
    if c > 364 {
      var j := c / 365;
      assert 1 <= j <= 4 && c == 365 * j + c % 365;
      assert SplitYears(days) == YearSplit(100 + j, c % 365, false);
      LeapDaysSecondCentury(100 + j);
      assert (103 + j) / 4 == 26;
      assert j == 4 ==> c % 365 == 0;
    } else {
      assert SplitYears(days) == YearSplit(100, c, false);
      LeapDaysFirstCentury(100);
    }
  }

  /** A later 4-year cycle of the century, read one day on to make up for 2100. */
  lemma LaterCycle(days: nat, k: nat, c: nat)
    requires days == 36525 + 1461 * k + c && days < U16Modulus && 1 <= k <= 19 && c < 1461
    ensures var r := SplitYears(days);
      && 365 * r.years + LeapDays(r.years) + r.days == days
      && (r.leap == IsLeap(r.years) || r.days == 0)
  {
    assert days / 36525 == 1 && days % 36525 == 1461 * k + c;
    assert (1461 * k + c) / 1461 == k && (1461 * k + c) % 1461 == c;
    if c > 364 {
      LaterYearOfCycle(days, k, c);
    } else {
      assert SplitYears(days) == YearSplit(100 + 4 * k, c + 1, true);
      LeapDaysSecondCentury(100 + 4 * k);
      assert (103 + 4 * k) / 4 == 25 + k;
      assert (100 + 4 * k) % 4 == 0;
    }
  }

  lemma LaterYearOfCycle(days: nat, k: nat, c: nat)
    requires days == 36525 + 1461 * k + c && days < U16Modulus && 1 <= k <= 19 && 364 < c < 1461
    requires days / 36525 == 1 && days % 36525 == 1461 * k + c
    requires (1461 * k + c) / 1461 == k && (1461 * k + c) % 1461 == c
    ensures var r := SplitYears(days);
      && 365 * r.years + LeapDays(r.years) + r.days == days
      && (r.leap == IsLeap(r.years) || r.days == 0)
  {
    var j := c / 365;
    assert 1 <= j <= 4 && c == 365 * j + c % 365;
    assert SplitYears(days) == YearSplit(100 + 4 * k + j, c % 365, false);
    LeapDaysSecondCentury(100 + 4 * k + j);
    assert (103 + 4 * k + j) / 4 == 26 + k;
    assert (100 + 4 * k + j) % 4 == j % 4;
    assert j == 4 ==> c % 365 == 0;
  }

  /** A day of the year splits into a month and a day that add back up to it, the leap day counted from March on. */
  lemma MonthsAddUp(doy: nat, leap: bool)
    requires doy < (if leap then 366 else 365)
    ensures var r := SplitMonth(doy, leap);
      CumDays(r.m) + r.d + (if leap && r.m >= 2 then 1 else 0) == doy
  {
    var n := 59 + (if leap then 1 else 0);
    if doy < n {
      JanuaryFebruary(doy, leap);
    } else {
      MarchToDecember(doy - n);
    }
  }

  /** The Gregorian day count and the time of day of a constructed date are the timestamp's days and seconds. */
  lemma TimestampAddsUp(ts: u32)
    ensures var t := FromY2K(ts);
      && CalendarDays(t) == ts / SecondsPerDay
      && TimeOfDay(t) == ts % SecondsPerDay
  {
    var days := ts / SecondsPerDay;
    var y := SplitYears(days);
    YearsAddUp(days);
    MonthsAddUp(y.days, y.leap);
    var md := SplitMonth(y.days, y.leap);
    assert y.leap != IsLeap(y.years) ==> md.m < 2;
  }

  /** Round trip: the corrected `getY2KEpoch` of the date made from any timestamp is that timestamp. */
  lemma Y2KRoundTrip(ts: u32)
    ensures Y2KEpoch(FromY2K(ts)) == ts
  {
    TimestampAddsUp(ts);
    var days := ts / SecondsPerDay;
    assert ts == days * SecondsPerDay + ts % SecondsPerDay;
    EpochIs(FromY2K(ts), days, ts % SecondsPerDay);
  }

  /** Round trip to the Unix epoch: the date of any timestamp is 946684800 seconds later in Unix time, modulo 2^32. */
  lemma UnixRoundTrip(ts: u32)
    ensures UnixEpoch(FromY2K(ts)) == ToU32(ts + Y2KOffset)
  {
    Y2KRoundTrip(ts);
  }

  /**
   * As written, the round trip is off by the drift: a day short in March
   * of a leap year before 2100, a day long from April 2100 on (except in
   * March of a leap year), and right otherwise, modulo 2^32.
   */
  lemma AsWrittenDrifts(ts: u32)
    ensures var t := FromY2K(ts);
      Y2KEpochAsWritten(t) == ToU32(ts + AsWrittenDrift(t.yOff as nat, t.m as nat) * SecondsPerDay)
  {
    TimestampAddsUp(ts);
    DriftAt(ts, FromY2K(ts));
  }

  /** A date whose day count and time of day are those of `ts` has an as-written epoch off by its drift. */
  lemma DriftAt(ts: u32, t: DateTime)
    requires t.m <= 12 && t.tz == 0 && t.yOff < 200
    requires CalendarDays(t) == ts / SecondsPerDay && TimeOfDay(t) == ts % SecondsPerDay
    ensures Y2KEpochAsWritten(t) == ToU32(ts + AsWrittenDrift(t.yOff as nat, t.m as nat) * SecondsPerDay)
  {
    var k := DriftOf(t);
    assert Y2KEpochAsWritten(t) == ToU32(ts + k * SecondsPerDay) by {
      ShiftedRoundTrip(ts, t, k);
    }
  }

  /** The drift of a date, with the day counts it separates. */
  lemma DriftOf(t: DateTime) returns (k: int)
    requires t.m <= 12 && t.yOff < 200
    ensures k == AsWrittenDrift(t.yOff as nat, t.m as nat)
    ensures DayCount(t, t.m > 2) == CalendarDays(t) + k && -1 <= k <= 1
  {
    DriftIs(t);
    k := AsWrittenDrift(t.yOff as nat, t.m as nat);
  }

  lemma DaysOfTimestamp(ts: u32)
    ensures ts / SecondsPerDay <= 49710
  {
  }

  /** A day count `k` off the timestamp's days gives an epoch `k` days off the timestamp. */
  lemma ShiftedRoundTrip(ts: u32, t: DateTime, k: int)
    requires t.m <= 12 && t.tz == 0 && -1 <= k <= 1
    requires CalendarDays(t) == ts / SecondsPerDay && TimeOfDay(t) == ts % SecondsPerDay
    requires DayCount(t, t.m > 2) == CalendarDays(t) + k
    ensures Y2KEpochAsWritten(t) == ToU32(ts + k * SecondsPerDay)
  {
    DaysOfTimestamp(ts);
    var days := ts / SecondsPerDay;
    var fract := ts % SecondsPerDay;
    assert ts == days * SecondsPerDay + fract;
    EpochOfDaysIs(t, days + k);
    assert (days + k) * SecondsPerDay + fract == ts + k * SecondsPerDay;
  }

  /** As written, the Unix time of a timestamp's date is off by the same drift. */
  lemma UnixAsWrittenRoundTrip(ts: u32)
    ensures var t := FromY2K(ts);
      UnixEpochAsWritten(t) == ToU32(ts + Y2KOffset + AsWrittenDrift(t.yOff as nat, t.m as nat) * SecondsPerDay)
  {
    AsWrittenDrifts(ts);
    var t := FromY2K(ts);
    UnixOfY2K(t, ts + AsWrittenDrift(t.yOff as nat, t.m as nat) * SecondsPerDay);
  }

  /** The as-written Unix time is the as-written Y2K time plus 946684800, whatever it was reduced from. */
  lemma UnixOfY2K(t: DateTime, x: int)
    requires t.m <= 12 && Y2KEpochAsWritten(t) == ToU32(x)
    ensures UnixEpochAsWritten(t) == ToU32(x + Y2KOffset)
  {
    AddAfterMod(x, Y2KOffset);
  }

  /** Adding to a reduced value and reducing again is reducing the sum. */
  lemma AddAfterMod(x: int, b: int)
    ensures ToU32(ToU32(x) + b) == ToU32(x + b)
  {
    var k := x / U32Modulus;
    assert ToU32(x) + b == x + b + (-k) * U32Modulus;
    ToU32Shift(x + b, -k);
  }

  /** 2000-03-01 00:00:00 is 5184000 seconds after the Y2K epoch; as written it comes back as 2000-02-29. */
  lemma MarchFirst2000()
    ensures FromY2K(5184000) == DateTime(0, 2, 0, 0, 0, 0, 0)
    ensures Y2KEpochAsWritten(DateTime(0, 2, 0, 0, 0, 0, 0)) == 5097600
    ensures Y2KEpoch(DateTime(0, 2, 0, 0, 0, 0, 0)) == 5184000
  {
    MarchFirst2000Date();
    AsWrittenDrifts(5184000);
    assert AsWrittenDrift(0, 2) == -1;
    ToU32OfU32(5097600);
    Y2KRoundTrip(5184000);
  }

  lemma MarchFirst2000Date()
    ensures FromY2K(5184000) == DateTime(0, 2, 0, 0, 0, 0, 0)
  {
    assert SplitYears(60) == YearSplit(0, 60, true);
    MarchToDecember(0);
    assert SplitMonth(60, true) == MonthDay(2, 0);
  }

  /** 2100-04-01 00:00:00 is 3163536000 seconds after the Y2K epoch; as written it comes back as 2100-04-02. */
  lemma AprilFirst2100()
    ensures FromY2K(3163536000) == DateTime(100, 3, 0, 0, 0, 0, 0)
    ensures Y2KEpochAsWritten(DateTime(100, 3, 0, 0, 0, 0, 0)) == 3163622400
    ensures FromY2K(3163622400) == DateTime(100, 3, 1, 0, 0, 0, 0)
  {
    assert SplitYears(36615) == YearSplit(100, 90, false);
    MarchToDecember(31);
    assert SplitMonth(90, false) == MonthDay(3, 0);
    assert FromY2K(3163536000) == DateTime(100, 3, 0, 0, 0, 0, 0);
    assert SplitYears(36616) == YearSplit(100, 91, false);
    MarchToDecember(32);
    assert SplitMonth(91, false) == MonthDay(3, 1);
    AsWrittenDrifts(3163536000);
  }

  /**
   * 2101-01-01 00:00:00 is 3187296000 seconds after the Y2K epoch; as
   * written it comes back as 2101-01-02, `(_yOff + 3) / 4` counting 2100
   * among the leap years.
   */
  lemma NewYear2101()
    ensures FromY2K(3187296000) == DateTime(101, 0, 0, 0, 0, 0, 0)
    ensures Y2KEpochAsWritten(DateTime(101, 0, 0, 0, 0, 0, 0)) == 3187382400
    ensures FromY2K(3187382400) == DateTime(101, 0, 1, 0, 0, 0, 0)
  {
    NewYear2101Dates();
    AsWrittenDrifts(3187296000);
    assert AsWrittenDrift(101, 0) == 1;
    ToU32OfU32(3187382400);
  }

  /** Timestamp 3187296000 is 2101-01-01, and 3187382400 is 2101-01-02. */
  lemma NewYear2101Dates()
    ensures FromY2K(3187296000) == DateTime(101, 0, 0, 0, 0, 0, 0)
    ensures FromY2K(3187382400) == DateTime(101, 0, 1, 0, 0, 0, 0)
  {
    assert SplitYears(36890) == YearSplit(101, 0, false);
    assert SplitMonth(0, false) == MonthDay(0, 0);
    assert FromY2K(3187296000) == DateTime(101, 0, 0, 0, 0, 0, 0);
    assert SplitYears(36891) == YearSplit(101, 1, false);
    assert SplitMonth(1, false) == MonthDay(0, 1);
  }

  // ---------------------------------------------------------------------
  // The CCLK text
  // ---------------------------------------------------------------------

  /** `conv1d`: a decimal digit's value, 0 for anything else. */
  function Conv1d(c: char): (r: u8)
    ensures r <= 9
    ensures IsDecimalDigit(c) ==> r == DigitValue(c)
    ensures !IsDecimalDigit(c) ==> r == 0
  {
    if '0' <= c <= '9' then (c as int - '0' as int) else 0
  }

  /** `conv2d`: two characters from offset `k` as a two-digit number; never above 99. */
  function Conv2d(s: string, k: nat): (r: u8)
    ensures r <= 99
    ensures IsDecimalDigit(CharAt(s, k)) && IsDecimalDigit(CharAt(s, k + 1)) ==>
      r == 10 * DigitValue(CharAt(s, k)) + DigitValue(CharAt(s, k + 1))
  {
    Conv1d(CharAt(s, k)) * 10 + Conv1d(CharAt(s, k + 1))
  }

  /**
   * `SIMCOMDateTime(const char *cclk)`: two-digit fields at offsets 0, 3,
   * 6, 9, 12 and 15, month and day made 0-based (in a `uint8_t`, so a zero
   * month or day becomes 255), and the time zone at 18, negated when the
   * character at 17 is '-'. Nothing is validated.
   */
  function Parse(s: string): (r: DateTime)
    ensures r.yOff <= 99 && r.hh <= 99 && r.mm <= 99 && r.ss <= 99
    ensures -99 <= r.tz <= 99
    ensures r.tz < 0 ==> CharAt(s, 17) == '-'
    ensures CharAt(s, 17) != '-' ==> r.tz >= 0
  {
    var zone: int := Conv2d(s, 18);
    DateTime(Conv2d(s, 0), ToU8(Conv2d(s, 3) - 1), ToU8(Conv2d(s, 6) - 1),
             Conv2d(s, 9), Conv2d(s, 12), Conv2d(s, 15),
             if CharAt(s, 17) == '-' then -zone else zone)
  }

  /** The separators are never looked at: any characters at offsets 2, 5, 8, 11 and 14 give the same date. */
  lemma SeparatorsIgnored(s: string, a: char, b: char, c: char, d: char, e: char)
    requires NulFree(s) && |s| >= 20
    requires a != NUL && b != NUL && c != NUL && d != NUL && e != NUL
    ensures Parse(s[2 := a][5 := b][8 := c][11 := d][14 := e]) == Parse(s)
  {
    var s' := s[2 := a][5 := b][8 := c][11 := d][14 := e];
    assert NulFree(s');
    CStrOfNulFree(s);
    CStrOfNulFree(s');
  }

  /** A zero month reads as month 255, far outside the documented 0..11. */
  lemma ZeroMonthWraps(s: string)
    requires CharAt(s, 3) == '0' && CharAt(s, 4) == '0'
    ensures Parse(s).m == 255
  {
  }

  /**
   * `add0Nd(str, val, width)`: `val` in decimal after as many '0' as it
   * lacks digits for `width`, counting up to five digits; a wider value is
   * never cut.
   */
  function Add0Nd(val: u16, width: nat): (r: string)
    ensures |r| >= |NatDigits(val)| && r[|r| - |NatDigits(val)|..] == NatDigits(val)
    ensures forall i :: 0 <= i < |r| - |NatDigits(val)| ==> r[i] == '0'
  {
    (if width >= 5 && val < 10000 then "0" else "")
      + (if width >= 4 && val < 1000 then "0" else "")
      + (if width >= 3 && val < 100 then "0" else "")
      + (if width >= 2 && val < 10 then "0" else "")
      + NatDigits(val)
  }

  /** How many digits a `uint16_t` has. */
  lemma {:induction false} DigitCount(n: nat)
    requires n < U16Modulus
    ensures |NatDigits(n)| == if n < 10 then 1 else if n < 100 then 2 else if n < 1000 then 3 else if n < 10000 then 4 else 5
    decreases n
  {
    if n >= 10 {
      DigitCount(n / 10);
    }
  }

  /** Up to width 5 the padded text is exactly `width` long unless the number needs more digits. */
  lemma Add0NdWidth(val: u16, width: nat)
    requires width <= 5
    ensures |Add0Nd(val, width)| == if |NatDigits(val)| < width then width else |NatDigits(val)|
  {
    DigitCount(val);
  }

  /** Two digits, tens first. */
  function TwoDigits(v: nat): string
    requires v < 100
  {
    [DigitChar(v / 10), DigitChar(v % 10)]
  }

  lemma PadToTwo(v: u16)
    requires v < 100
    ensures Add0Nd(v, 2) == TwoDigits(v)
  {
    if v >= 10 {
      assert NatDigits(v) == NatDigits(v / 10) + [DigitChar(v % 10)];
    }
  }

  /**
   * `addToString`: "yy/MM/dd,hh:mm:ss" with 1-based month and day, each
   * field padded to two digits, then "+00": the time zone is never written.
   */
  function AddToString(t: DateTime): string
  {
    Add0Nd(t.yOff, 2) + "/" + Add0Nd(t.m + 1, 2) + "/" + Add0Nd(t.d + 1, 2) + ","
      + Add0Nd(t.hh, 2) + ":" + Add0Nd(t.mm, 2) + ":" + Add0Nd(t.ss, 2) + "+00"
  }

  /** Every field that prints in two digits. */
  predicate PrintsInTwoDigits(t: DateTime)
  {
    t.yOff < 100 && t.m < 99 && t.d < 99 && t.hh < 100 && t.mm < 100 && t.ss < 100
  }

  /** Six two-character fields laid out as "yy/MM/dd,hh:mm:ss" and followed by "+00". */
  function ClockFields(y: string, mo: string, d: string, h: string, mi: string, s: string): string
  {
    y + "/" + mo + "/" + d + "," + h + ":" + mi + ":" + s + "+00"
  }

  /** The clock text of a date whose fields print in two digits. */
  function ClockText(t: DateTime): string
    requires PrintsInTwoDigits(t)
  {
    ClockFields(TwoDigits(t.yOff as nat), TwoDigits(t.m as nat + 1), TwoDigits(t.d as nat + 1),
                TwoDigits(t.hh as nat), TwoDigits(t.mm as nat), TwoDigits(t.ss as nat))
  }

  lemma AddToStringIsClockText(t: DateTime)
    requires PrintsInTwoDigits(t)
    ensures AddToString(t) == ClockText(t)
  {
    PadToTwo(t.yOff);
    PadToTwo(t.m + 1);
    PadToTwo(t.d + 1);
    PadToTwo(t.hh);
    PadToTwo(t.mm);
    PadToTwo(t.ss);
  }

  lemma TwoDigitsShape(v: nat)
    requires v < 100
    ensures |TwoDigits(v)| == 2 && NulFree(TwoDigits(v))
  {
  }

  /** Where each character of the laid-out fields sits; no NUL comes in that was not in a field. */
  lemma FieldLayout(y: string, mo: string, d: string, h: string, mi: string, s: string)
    requires |y| == 2 && |mo| == 2 && |d| == 2 && |h| == 2 && |mi| == 2 && |s| == 2
    requires NulFree(y) && NulFree(mo) && NulFree(d) && NulFree(h) && NulFree(mi) && NulFree(s)
    ensures var r := ClockFields(y, mo, d, h, mi, s);
      && |r| == 20 && NulFree(r)
      && r[0] == y[0] && r[1] == y[1] && r[3] == mo[0] && r[4] == mo[1]
      && r[6] == d[0] && r[7] == d[1] && r[9] == h[0] && r[10] == h[1]
      && r[12] == mi[0] && r[13] == mi[1] && r[15] == s[0] && r[16] == s[1]
      && r[17] == '+' && r[18] == '0' && r[19] == '0'
  {
    var r := ClockFields(y, mo, d, h, mi, s);
    assert r == y + ['/'] + mo + ['/'] + d + [','] + h + [':'] + mi + [':'] + s + ['+', '0', '0'];
  }

  /** The two digits at offset `k` read back as their number. */
  lemma ReadTwo(s: string, k: nat, v: nat)
    requires v < 100 && k + 1 < |s| && NulFree(s)
    requires s[k] == TwoDigits(v)[0] && s[k + 1] == TwoDigits(v)[1]
    ensures Conv2d(s, k) == v
  {
    CStrOfNulFree(s);
  }

  /** The parse of text whose two-digit fields read as given. */
  lemma ParseOfFields(s: string, t: DateTime)
    requires t.m < 99 && t.d < 99
    requires Conv2d(s, 0) == t.yOff && Conv2d(s, 3) == t.m as nat + 1 && Conv2d(s, 6) == t.d as nat + 1
    requires Conv2d(s, 9) == t.hh && Conv2d(s, 12) == t.mm && Conv2d(s, 15) == t.ss
    requires Conv2d(s, 18) == 0
    ensures Parse(s) == t.(tz := 0)
  {
    ToU8OfU8(t.m as nat);
    ToU8OfU8(t.d as nat);
  }

  /** Text laid out with a date's two-digit fields and "+00" parses back to that date in time zone 0. */
  lemma ParseOfLayout(s: string, t: DateTime)
    requires PrintsInTwoDigits(t) && |s| == 20 && NulFree(s)
    requires s[0] == TwoDigits(t.yOff as nat)[0] && s[1] == TwoDigits(t.yOff as nat)[1]
    requires s[3] == TwoDigits(t.m as nat + 1)[0] && s[4] == TwoDigits(t.m as nat + 1)[1]
    requires s[6] == TwoDigits(t.d as nat + 1)[0] && s[7] == TwoDigits(t.d as nat + 1)[1]
    requires s[9] == TwoDigits(t.hh as nat)[0] && s[10] == TwoDigits(t.hh as nat)[1]
    requires s[12] == TwoDigits(t.mm as nat)[0] && s[13] == TwoDigits(t.mm as nat)[1]
    requires s[15] == TwoDigits(t.ss as nat)[0] && s[16] == TwoDigits(t.ss as nat)[1]
    requires s[18] == '0' && s[19] == '0'
    ensures Parse(s) == t.(tz := 0)
  {
    ReadTwo(s, 0, t.yOff as nat);
    ReadTwo(s, 3, t.m as nat + 1);
    ReadTwo(s, 6, t.d as nat + 1);
    ReadTwo(s, 9, t.hh as nat);
    ReadTwo(s, 12, t.mm as nat);
    ReadTwo(s, 15, t.ss as nat);
    ReadTwo(s, 18, 0);
    ParseOfFields(s, t);
  }

  /**
   * Round trip: the text `addToString` writes parses back to the same date
   * and time, in time zone 0 whatever the zone was.
   */
  lemma ClockTextRoundTrip(t: DateTime)
    requires PrintsInTwoDigits(t)
    ensures |AddToString(t)| == 20
    ensures Parse(AddToString(t)) == t.(tz := 0)
  {
    AddToStringIsClockText(t);
    var y, mo, d := TwoDigits(t.yOff as nat), TwoDigits(t.m as nat + 1), TwoDigits(t.d as nat + 1);
    var h, mi, s := TwoDigits(t.hh as nat), TwoDigits(t.mm as nat), TwoDigits(t.ss as nat);
    TwoDigitsShape(t.yOff as nat);
    TwoDigitsShape(t.m as nat + 1);
    TwoDigitsShape(t.d as nat + 1);
    TwoDigitsShape(t.hh as nat);
    TwoDigitsShape(t.mm as nat);
    TwoDigitsShape(t.ss as nat);
    FieldLayout(y, mo, d, h, mi, s);
    ParseOfLayout(ClockFields(y, mo, d, h, mi, s), t);
  }

  /** So a date with a nonzero time zone does not survive the round trip. */
  lemma ZoneIsDropped(t: DateTime)
    requires PrintsInTwoDigits(t) && t.tz != 0
    ensures Parse(AddToString(t)) != t
  {
    ClockTextRoundTrip(t);
  }
}
