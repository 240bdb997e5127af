/**
 GPS week and second-of-week to calendar time, as the HAL computes it by hand.

 The reference is independent of that arithmetic: a date is reached from the GPS epoch,
 1980-01-06, by taking the calendar's successor day the right number of times.
 */
module Calendar {
  import opened Bytes

  datatype Date = Date(year: int, month: int, day: int)
  datatype DateTime = DateTime(date: Date, hour: int, minute: int, second: int)

  const GPS_EPOCH := Date(1980, 1, 6)
  const MONTH_STARTS: seq<int> := [0, 31, 59, 90, 120, 151, 181, 212, 243, 273, 304, 334]
  const SECONDS_PER_DAY := 86400
  const SECONDS_PER_WEEK := 604800

  predicate IsLeap(year: int) {
    year % 4 == 0 && (year % 100 == 0 ==> year % 400 == 0)
  }

  function YearLength(year: int): int {
    if IsLeap(year) then 366 else 365
  }

  function MonthLength(year: int, month: int): int {
    if month == 2 then (if IsLeap(year) then 29 else 28)
    else if month in {4, 6, 9, 11} then 30
    else 31
  }

  predicate ValidDate(d: Date) {
    1 <= d.month <= 12 && 1 <= d.day <= MonthLength(d.year, d.month)
  }

  predicate ValidDateTime(t: DateTime) {
    ValidDate(t.date) && 0 <= t.hour < 24 && 0 <= t.minute < 60 && 0 <= t.second < 60
  }

  /** The calendar's successor day. */
  function NextDay(d: Date): (n: Date)
    requires ValidDate(d)
    ensures ValidDate(n) && n.year >= d.year
  {
    if d.day < MonthLength(d.year, d.month) then Date(d.year, d.month, d.day + 1)
    else if d.month < 12 then Date(d.year, d.month + 1, 1)
    else Date(d.year + 1, 1, 1)
  }

  /** The date `n` days after the GPS epoch. */
  function DayAfterEpoch(n: nat): (d: Date)
    ensures ValidDate(d) && d.year >= 1980
  {
    if n == 0 then GPS_EPOCH else NextDay(DayAfterEpoch(n - 1))
  }

  // ----- counting days from 1980-01-01 -----

  function DaysToYear(year: int): (n: nat)
    requires year >= 1980
    ensures n >= 365 * (year - 1980)
    decreases year
  {
    if year == 1980 then 0 else DaysToYear(year - 1) + YearLength(year - 1)
  }

  function DaysToMonth(year: int, month: int): (n: nat)
    requires 1 <= month <= 12
    ensures month < 12 ==> n + MonthLength(year, month) < YearLength(year)
    ensures month == 12 ==> n + MonthLength(year, month) == YearLength(year)
  {
    MONTH_STARTS[month - 1] + (if month > 2 && IsLeap(year) then 1 else 0)
  }

  /** Days from 1980-01-01 to `d`. */
  function DayNumber(d: Date): (n: nat)
    requires ValidDate(d) && d.year >= 1980
  {
    DaysToYear(d.year) + DaysToMonth(d.year, d.month) + d.day - 1
  }

  lemma DayNumberInYear(d: Date)
    requires ValidDate(d) && d.year >= 1980
    ensures DaysToYear(d.year) <= DayNumber(d) < DaysToYear(d.year + 1)
  {
  }

  lemma NextDayCounts(d: Date)
    requires ValidDate(d) && d.year >= 1980
    ensures DayNumber(NextDay(d)) == DayNumber(d) + 1
  {
  }

  lemma {:induction false} DayAfterEpochCounts(n: nat)
    ensures DayNumber(DayAfterEpoch(n)) == n + 5
  {
    if n == 0 {
      assert DayNumber(GPS_EPOCH) == 5;
    } else {
      DayAfterEpochCounts(n - 1);
      NextDayCounts(DayAfterEpoch(n - 1));
    }
  }

  lemma {:induction false} DaysToYearMonotone(a: int, b: int)
    requires 1980 <= a <= b
    ensures DaysToYear(a) <= DaysToYear(b)
    decreases b
  {
    if a < b { DaysToYearMonotone(a, b - 1); }
  }

  lemma {:induction false} DaysToMonthMonotone(year: int, m: int, n: int)
    requires 1 <= m < n <= 12
    ensures DaysToMonth(year, m) + MonthLength(year, m) <= DaysToMonth(year, n)
    decreases n
  {
  }

  /** A date is determined by its day number. */
  lemma DayNumberInjective(a: Date, b: Date)
    requires ValidDate(a) && ValidDate(b) && a.year >= 1980 && b.year >= 1980
    requires DayNumber(a) == DayNumber(b)
    ensures a == b
  {
    DayNumberInYear(a);
    DayNumberInYear(b);
    if a.year < b.year { DaysToYearMonotone(a.year + 1, b.year); }
    if b.year < a.year { DaysToYearMonotone(b.year + 1, a.year); }
    if a.month < b.month { DaysToMonthMonotone(a.year, a.month, b.month); }
    if b.month < a.month { DaysToMonthMonotone(a.year, b.month, a.month); }
  }

  // ----- mktime -----

  /**
   Seconds since 1970-01-01 00:00 UTC of a broken-down local time, in a zone `zone` seconds
   east of UTC all year round. 1980-01-01 is day 3652 of that era.
   */
  function EpochSeconds(t: DateTime, zone: int): int
    requires ValidDateTime(t) && t.date.year >= 1980
  {
    (3652 + DayNumber(t.date)) * SECONDS_PER_DAY + t.hour * 3600 + t.minute * 60 + t.second - zone
  }

  /** What mktime returns for so many seconds: time_t has 32 bits on the device, and -1 means failure. */
  function TimeT(seconds: int): (t: int)
    ensures -TWO_31 <= t < TWO_31
    ensures seconds >= 0 ==> (t == seconds <==> seconds < TWO_31)
  {
    if -TWO_31 <= seconds < TWO_31 then seconds else -1
  }

  function Mktime(t: DateTime, zone: int): int
    requires ValidDateTime(t) && t.date.year >= 1980
  {
    TimeT(EpochSeconds(t, zone))
  }

  /** Clock zones are within a day of UTC. */
  predicate IsZone(zone: int) {
    -SECONDS_PER_DAY <= zone <= SECONDS_PER_DAY
  }

  /** The broken-down time `secs` seconds after the GPS epoch. */
  function GpsTime(secs: nat): (t: DateTime)
    ensures ValidDateTime(t) && t.date.year >= 1980
  {
    var tod := secs % SECONDS_PER_DAY;
    DateTime(DayAfterEpoch(secs / SECONDS_PER_DAY), tod / 3600, tod % 3600 / 60, tod % 60)
  }

  /** On the calendar the epoch is 315964800 s after 1970 and every GPS second counts once. */
  lemma GpsTimeMktime(secs: nat, zone: int)
    ensures EpochSeconds(GpsTime(secs), zone) == 315964800 + secs - zone
    ensures Mktime(GpsTime(secs), zone) == TimeT(315964800 + secs - zone)
  {
    DayAfterEpochCounts(secs / SECONDS_PER_DAY);
    var tod := secs % SECONDS_PER_DAY;
    assert tod == tod / 3600 * 3600 + tod % 3600;
    assert tod % 3600 == tod % 3600 / 60 * 60 + tod % 3600 % 60;
    assert tod % 3600 % 60 == tod % 60;
  }

  /** Leap years up to and including a year: every fourth, but of the centuries only every fourth. */
  function LeapsThrough(year: int): int {
    year / 4 - year / 100 + year / 400
  }

  lemma FourthStep(y: int)
    ensures y / 4 == (y - 1) / 4 + if y % 4 == 0 then 1 else 0
  {
  }

  lemma HundredthStep(y: int)
    ensures y / 100 == (y - 1) / 100 + if y % 100 == 0 then 1 else 0
    ensures y % 100 == 0 ==> y % 4 == 0
  {
    if y % 100 == 0 { assert y == 4 * (25 * (y / 100)); }
  }

  lemma FourHundredthStep(y: int)
    ensures y / 400 == (y - 1) / 400 + if y % 400 == 0 then 1 else 0
    ensures y % 400 == 0 ==> y % 100 == 0
  {
    if y % 400 == 0 { assert y == 100 * (4 * (y / 400)); }
  }

  lemma {:induction false} DaysToYearClosed(year: int)
    requires year >= 1980
    ensures DaysToYear(year) == 365 * (year - 1980) + LeapsThrough(year - 1) - LeapsThrough(1979)
    decreases year
  {
    if year > 1980 {
      DaysToYearClosed(year - 1);
      FourthStep(year - 1);
      HundredthStep(year - 1);
      FourHundredthStep(year - 1);
    }
  }

  /** The reckoning at known instants: leap days in 2000 and 2020 but not in 2100, and the last 32-bit second. */
  lemma KnownInstants()
    ensures EpochSeconds(DateTime(Date(1980, 1, 6), 0, 0, 0), 0) == 315964800
    ensures EpochSeconds(DateTime(Date(2000, 3, 1), 0, 0, 0), 0) == 951868800
    ensures EpochSeconds(DateTime(Date(2020, 2, 29), 12, 0, 0), 0) == 1582977600
    ensures EpochSeconds(DateTime(Date(2038, 1, 19), 3, 14, 7), 0) == 0x7fff_ffff
    ensures EpochSeconds(DateTime(Date(2100, 3, 1), 0, 0, 0), 0) == 4107542400
  {
    hide DaysToYear;
    KnownYears();
  }

  lemma KnownYears()
    ensures DaysToYear(1980) == 0 && DaysToYear(2000) == 7305 && DaysToYear(2020) == 14610
    ensures DaysToYear(2038) == 21185 && DaysToYear(2100) == 43830
  {
    hide DaysToYear;
    DaysToYearClosed(1980);
    DaysToYearClosed(2000);
    DaysToYearClosed(2020);
    DaysToYearClosed(2038);
    DaysToYearClosed(2100);
  }

  lemma {:induction false} YearModulo400(years: nat)
    ensures (1980 + years) % 400 == 0 <==> years % 400 == 20
  {
  }

  lemma {:induction false} YearModulo100(years: nat)
    ensures (1980 + years) % 100 == 0 <==> years % 100 == 20
  {
  }

  lemma {:induction false} YearModulo4(years: nat)
    ensures (1980 + years) % 4 == 0 <==> years % 4 == 0
  {
  }

  lemma CenturyIsFourth(years: nat)
    requires years % 100 == 20
    ensures years % 4 == 0
  {
  }

  /** The code's leap test counts years from 1980, which is 380 modulo 400. */
  lemma LeapTest(years: nat)
    ensures IsLeap(1980 + years) <==> if years % 100 == 20 then years % 400 == 20 else years % 4 == 0
  {
    YearModulo400(years);
    YearModulo100(years);
    YearModulo4(years);
    if years % 100 == 20 { CenturyIsFourth(years); }
  }

  /** The year loop of GpsToUtcTime: splits a day count from 1980-01-01 into years and day of year. */
  method DecideYear(total: nat) returns (years: nat, days: nat)
    ensures days + DaysToYear(1980 + years) == total
    ensures days < YearLength(1980 + years)
  {
    days := total;
    years := 0;
    while days >= 365
      invariant days + DaysToYear(1980 + years) == total
    {
      LeapTest(years);
      assert DaysToYear(1981 + years) == DaysToYear(1980 + years) + YearLength(1980 + years);
      if years % 100 == 20 {
        if years % 400 == 20 {
          if days >= 366 {
            days := days - 366;
          } else {
            break;
          }
        } else {
          days := days - 365;
        }
      } else if years % 4 == 0 {
        if days >= 366 {
          days := days - 366;
        } else {
          break;
        }
      } else {
        days := days - 365;
      }
      years := years + 1;
    }
  }

  /** The month table of GpsToUtcTime, shifted in leap years, and the scan for the month. */
  method DecideMonth(years: nat, days: nat) returns (month: int, day: int)
    requires days < YearLength(1980 + years)
    ensures 1 <= month <= 12 && 1 <= day <= MonthLength(1980 + years, month)
    ensures DaysToMonth(1980 + years, month) + day - 1 == days
  {
    LeapTest(years);
    var doy := new int[] [0, 31, 59, 90, 120, 151, 181, 212, 243, 273, 304, 334];
    ghost var february := if IsLeap(1980 + years) then 1 else 0;
    var leap := false;
    if years % 100 == 20 {
      if years % 400 == 20 {
        leap := true;
      }
    } else if years % 4 == 0 {
      leap := true;
    }
    var i := 2;
    if leap {
      while i < 12
        invariant 2 <= i <= 12
        invariant forall k :: 0 <= k < 12 ==> doy[k] == MONTH_STARTS[k] + (if 2 <= k < i then 1 else 0)
      {
        doy[i] := doy[i] + 1;
        i := i + 1;
      }
    }
    assert forall k :: 0 <= k < 12 ==> doy[k] == MONTH_STARTS[k] + (if 2 <= k then february else 0);
    i := 0;
    while i < 12
      invariant 0 <= i <= 12
      invariant i > 0 ==> doy[i - 1] <= days
    {
      if days < doy[i] {
        break;
      }
      i := i + 1;
    }
    month := i;
    day := 0;
    if i > 0 {
      day := days - doy[i - 1] + 1;
    }
  }

  /** GpsToUtcTime. The day counter starts at January 1st, 1980, hence the offset of 5 days. */
  method GpsToUtcTime(week: nat, tow: nat) returns (t: DateTime)
    ensures ValidDateTime(t)
    ensures t == GpsTime(week * SECONDS_PER_WEEK + tow)
  {
    hide DaysToYear, DaysToMonth, DayAfterEpoch, MonthLength;
    var elapsed := week * 7 + tow / 86400 + 5;
    var secs := tow - tow / 86400 * 86400;
    var years, days := DecideYear(elapsed);
    var month, day := DecideMonth(years, days);
    var date := Date(1980 + years, month, day);
    t := DateTime(date, secs / 3600, secs % 3600 / 60, secs - secs / 60 * 60);

    DayAfterEpochCounts(elapsed - 5);
    DayNumberInjective(date, DayAfterEpoch(elapsed - 5));
    SplitSeconds(week, tow);
  }

  lemma SplitSeconds(week: nat, tow: nat)
    ensures (week * SECONDS_PER_WEEK + tow) / SECONDS_PER_DAY == week * 7 + tow / SECONDS_PER_DAY
    ensures (week * SECONDS_PER_WEEK + tow) % SECONDS_PER_DAY == tow % SECONDS_PER_DAY
  {
  }
}
