/**
 The time span of an EPO file, read from the hour stamps of its first and last satellite
 record, and the decision whether the file is still fresh.
 */
module EpoTime {
  import opened Bytes
  import opened Calendar

  const RECORD_SIZE := 72
  const SIX_HOURS := 21600
  const UNIX_TO_GPS := 315964800

  // ----- hour stamps -----

  /** The low 24 bits of the record's first little-endian word. */
  function HourStamp(record: seq<byte>): (h: nat)
    requires |record| == RECORD_SIZE
  {
    FromLe32(record[..4]) % 0x100_0000
  }

  /** GPS seconds of a stamp, in C's 32-bit unsigned product. */
  function StampSeconds(stamp: nat): nat {
    U32(stamp * 3600)
  }

  /** GPS seconds at which the record with this stamp stops being valid, six hours later. */
  function StampEndSeconds(stamp: nat): nat {
    U32(StampSeconds(stamp) + SIX_HOURS)
  }

  /** The 32-bit arithmetic is exact exactly up to hour 1193046, and to 1193040 for the end. */
  lemma StampSecondsExact(stamp: nat)
    requires stamp < 0x100_0000
    ensures StampSeconds(stamp) == 3600 * stamp <==> stamp <= 1193046
    ensures StampEndSeconds(stamp) == 3600 * stamp + SIX_HOURS <==> stamp <= 1193040
  {
  }

  // ----- the span of a file -----

  function FirstStamp(file: seq<byte>): nat
    requires |file| >= RECORD_SIZE
  {
    HourStamp(file[..RECORD_SIZE])
  }

  function LastStamp(file: seq<byte>): nat
    requires |file| >= RECORD_SIZE
  {
    HourStamp(file[|file| - RECORD_SIZE..])
  }

  /** UTC second at which the file's data begins, as mktime gives it in `zone`; -1 from 2038 on. */
  function StartTime(file: seq<byte>, zone: int): int
    requires |file| >= RECORD_SIZE
  {
    TimeT(UNIX_TO_GPS + StampSeconds(FirstStamp(file)) - zone)
  }

  /** UTC second at which the file's data ends. */
  function EndTime(file: seq<byte>, zone: int): int
    requires |file| >= RECORD_SIZE
  {
    TimeT(UNIX_TO_GPS + StampEndSeconds(LastStamp(file)) - zone)
  }

  /** The hour stamp written at a position of a file: three bytes, least significant first. */
  function StampAt(file: seq<byte>, k: nat): (h: nat)
    requires k + 4 <= |file|
  {
    (file[k] as int) + 256 * (file[k + 1] as int) + 65536 * (file[k + 2] as int)
  }

  lemma StampIsWritten(record: seq<byte>)
    requires |record| == RECORD_SIZE
    ensures HourStamp(record) == StampAt(record, 0) < 0x100_0000
  {
    var low := StampAt(record, 0);
    assert FromLe32(record[..4]) == low + 0x100_0000 * (record[3] as int);
  }

  /**
   A file begins at the hour written at its first byte and ends six hours past the hour written 72
   bytes before its end, on the calendar of 1980. mktime gives these times exactly when they fit a
   time_t, that is, until January 2038.
   */
  lemma SpanExactIff(file: seq<byte>, zone: int)
    requires |file| >= 72 && IsZone(zone)
    ensures var start := 315964800 + 3600 * StampAt(file, 0) - zone;
            StartTime(file, zone) == start <==> start < TWO_31
    ensures var end := 315964800 + 3600 * StampAt(file, |file| - 72) + 21600 - zone;
            EndTime(file, zone) == end <==> end < TWO_31
  {
    StampIsWritten(file[..RECORD_SIZE]);
    StampIsWritten(file[|file| - RECORD_SIZE..]);
    StampSecondsExact(FirstStamp(file));
    StampSecondsExact(LastStamp(file));
  }

  /** Reads the first record; fails when the file holds less than one. */
  method PeriodStart(file: seq<byte>, zone: int) returns (t: Option<int>)
    ensures t == if |file| < RECORD_SIZE then None else Some(StartTime(file, zone))
  {
    if |file| < RECORD_SIZE {
      return None;
    }
    var secs := U32(FromLe32(file[..RECORD_SIZE][..4]) % 0x100_0000 * 3600);
    var date := GpsToUtcTime(secs / SECONDS_PER_WEEK, secs % SECONDS_PER_WEEK);
    GpsTimeMktime(secs, zone);
    t := Some(Mktime(date, zone));
  }

  /** Seeks to the last record; fails when the file holds less than one. */
  method PeriodEnd(file: seq<byte>, zone: int) returns (t: Option<int>)
    ensures t == if |file| < RECORD_SIZE then None else Some(EndTime(file, zone))
  {
    var size := |file|;
    if size < RECORD_SIZE {
      return None;
    }
    var record := file[size - RECORD_SIZE..];
    var secs := U32(FromLe32(record[..4]) % 0x100_0000 * 3600);
    secs := U32(secs + 21600);
    assert secs == StampEndSeconds(LastStamp(file));
    var date := GpsToUtcTime(secs / SECONDS_PER_WEEK, secs % SECONDS_PER_WEEK);
    GpsTimeMktime(secs, zone);
    t := Some(Mktime(date, zone));
  }

  /** Calendar order, field by field. */
  predicate DateEarlier(a: Date, b: Date) {
    if a.year != b.year then a.year < b.year
    else if a.month != b.month then a.month < b.month
    else a.day < b.day
  }

  predicate Earlier(a: DateTime, b: DateTime) {
    if a.date != b.date then DateEarlier(a.date, b.date)
    else if a.hour != b.hour then a.hour < b.hour
    else if a.minute != b.minute then a.minute < b.minute
    else a.second < b.second
  }

  lemma EarlierDate(a: Date, b: Date)
    requires ValidDate(a) && ValidDate(b) && a.year >= 1980 && b.year >= 1980
    requires DateEarlier(a, b)
    ensures DayNumber(a) < DayNumber(b)
  {
    if a.year < b.year {
      DayNumberInYear(a);
      DayNumberInYear(b);
      DaysToYearMonotone(a.year + 1, b.year);
    } else if a.month < b.month {
      DaysToMonthMonotone(a.year, a.month, b.month);
    }
  }

  lemma EarlierIsSecondsOrder(a: DateTime, b: DateTime)
    requires ValidDateTime(a) && ValidDateTime(b) && a.date.year >= 1980 && b.date.year >= 1980
    requires !Earlier(a, b)
    ensures EpochSeconds(a, 0) >= EpochSeconds(b, 0)
  {
    if a.date != b.date {
      EarlierDate(b.date, a.date);
    }
  }

  /**
   Within the exact range a later hour stamp decodes to a strictly later calendar time, and the
   decoded time is the GPS epoch plus that many hours (plus six for the end of a record).
   */
  lemma StampsDecodeInOrder(h: nat, k: nat)
    requires h < k <= 1193046
    ensures Earlier(GpsTime(StampSeconds(h)), GpsTime(StampSeconds(k)))
    ensures EpochSeconds(GpsTime(StampSeconds(h)), 0) == UNIX_TO_GPS + 3600 * h
    ensures k <= 1193040 ==> Earlier(GpsTime(StampEndSeconds(h)), GpsTime(StampEndSeconds(k)))
    ensures k <= 1193040 ==> EpochSeconds(GpsTime(StampEndSeconds(h)), 0) == UNIX_TO_GPS + 3600 * h + SIX_HOURS
  {
    StampSecondsExact(h);
    StampSecondsExact(k);
    GpsTimeIncreasing(StampSeconds(h), StampSeconds(k));
    GpsTimeMktime(StampSeconds(h), 0);
    if k <= 1193040 {
      GpsTimeIncreasing(StampEndSeconds(h), StampEndSeconds(k));
      GpsTimeMktime(StampEndSeconds(h), 0);
    }
  }

  lemma GpsTimeIncreasing(s: nat, t: nat)
    requires s < t
    ensures Earlier(GpsTime(s), GpsTime(t))
  {
    GpsTimeMktime(s, 0);
    GpsTimeMktime(t, 0);
    if !Earlier(GpsTime(s), GpsTime(t)) {
      EarlierIsSecondsOrder(GpsTime(s), GpsTime(t));
    }
  }

  // ----- freshness -----

  /** Start and end of the file as uTime[0] and uTime[2] hold them; both 0 when it cannot be read. */
  function FileSpan(file: Option<seq<byte>>, zone: int): (span: (int, int)) {
    if file.Some? && |file.value| >= RECORD_SIZE
    then (StartTime(file.value, zone), EndTime(file.value, zone))
    else (0, 0)
  }

  /** How many seconds after its start a file is kept. */
  function KeepFor(wifi: bool, period: int, wifiPeriod: int, start: int, end: int): int {
    if wifi then wifiPeriod * SECONDS_PER_DAY
    else if end - start < period * SECONDS_PER_DAY then
      if end - start < 3 * SECONDS_PER_DAY then 0
      else if end - start < 6 * SECONDS_PER_DAY then 2 * SECONDS_PER_DAY
      else if end - start < 9 * SECONDS_PER_DAY then 5 * SECONDS_PER_DAY
      else 7 * SECONDS_PER_DAY
    else period * SECONDS_PER_DAY
  }

  predicate Expired(wifi: bool, period: int, wifiPeriod: int, start: int, end: int, localNow: int) {
    localNow >= start + KeepFor(wifi, period, wifiPeriod, start, end)
  }

  /** C's integer division, which truncates toward zero. */
  function TruncDiv(a: int, b: int): int
    requires b > 0
  {
    if a >= 0 then a / b else -(-a / b)
  }

  /** The branch ladder of mtk_epo_is_expired; `localNow` is time_utc, see LocalNow. */
  method EpoIsExpired(wifi: bool, period: int, wifiPeriod: int, start: int, end: int, localNow: int)
    returns (expired: bool)
    ensures expired == Expired(wifi, period, wifiPeriod, start, end, localNow)
    ensures !wifi && start <= end && !expired ==> localNow < end
  {
    var etime := period * 24 * 60 * 60;
    var expiredSet := 0;
    if wifi {
      expiredSet := wifiPeriod * 24 * 60 * 60;
    } else if end - start < etime {
      var downloadDay := TruncDiv(end - start, 24 * 60 * 60);
      if downloadDay < 3 {
        expiredSet := 0;
      } else if downloadDay < 6 {
        expiredSet := 2 * 24 * 60 * 60;
      } else if 6 <= downloadDay < 9 {
        expiredSet := 5 * 24 * 60 * 60;
      } else if 9 <= downloadDay < 12 {
        expiredSet := 7 * 24 * 60 * 60;
      } else if 12 <= downloadDay < 15 {
        expiredSet := 7 * 24 * 60 * 60;
      } else if 15 <= downloadDay < 18 {
        expiredSet := 7 * 24 * 60 * 60;
      } else if downloadDay >= 18 {
        expiredSet := 7 * 24 * 60 * 60;
      }
    } else {
      expiredSet := etime;
    }
    expired := localNow >= expiredSet + start;
  }

  /**
   Whatever the clock says: data the ordinary check accepts has not run out, an expired file
   stays expired, and the verdict does not depend on the zone in which mktime was asked.
   */
  lemma FreshnessSafe(period: int, wifiPeriod: int, start: int, end: int, now: int, later: int, zone: int)
    requires start <= end && now <= later
    ensures !Expired(false, period, wifiPeriod, start, end, now) ==> now < end
    ensures forall wifi ::
              Expired(wifi, period, wifiPeriod, start, end, now) ==>
                Expired(wifi, period, wifiPeriod, start, end, later)
    ensures forall wifi ::
              Expired(wifi, period, wifiPeriod, start - zone, end - zone, now - zone)
                == Expired(wifi, period, wifiPeriod, start, end, now)
  {
  }

  /** time_utc: mktime of the clock's broken-down UTC time, in an unsigned long. */
  function LocalNow(now: int, zone: int): int {
    U32(TimeT(now - zone))
  }

  /**
   For a whole file whose stamps lie in the range of the exact product and do not run backwards:
   when the check calls it fresh, the clock, counted in seconds from the GPS epoch, precedes six
   hours past the last hour stamp; also where mktime fails on the file's times or on the clock.
   */
  lemma FreshFileHasData(file: seq<byte>, period: int, wifiPeriod: int, now: int, zone: int)
    requires |file| >= 72 && now < TWO_31 && IsZone(zone)
    requires StampAt(file, 0) <= StampAt(file, |file| - 72) <= 1193040
    requires var span := FileSpan(Some(file), zone);
             !Expired(false, period, wifiPeriod, span.0, span.1, LocalNow(now, zone))
    ensures now - 315964800 < 3600 * StampAt(file, |file| - 72) + 21600
  {
    StampIsWritten(file[..RECORD_SIZE]);
    StampIsWritten(file[|file| - RECORD_SIZE..]);
  }

  /**
   How long data is kept. Data of d whole days whose span is below the period is kept for one day
   less than the whole pieces of three days in it, at most seven days, and not at all below three
   days; any other for the period. The wifi check keeps every file for its own period.
   */
  lemma KeptHowLong(period: int, wifiPeriod: int, start: int, end: int, now: int, d: int)
    requires 86400 * d <= end - start < 86400 * (d + 1)
    ensures end - start < 86400 * period && d < 3 ==>
              (Expired(false, period, wifiPeriod, start, end, now) <==> now >= start)
    ensures end - start < 86400 * period && 3 <= d < 9 ==>
              (Expired(false, period, wifiPeriod, start, end, now) <==> now >= start + 86400 * (3 * (d / 3) - 1))
    ensures end - start < 86400 * period && d >= 9 ==>
              (Expired(false, period, wifiPeriod, start, end, now) <==> now >= start + 86400 * 7)
    ensures end - start >= 86400 * period ==>
              (Expired(false, period, wifiPeriod, start, end, now) <==> now >= start + 86400 * period)
    ensures Expired(true, period, wifiPeriod, start, end, now) <==> now >= start + 86400 * wifiPeriod
  {
  }

  /**
   The wifi check promises the same only when its period is no longer than the file's span:
   otherwise data that ran out is still called fresh at the moment it ends.
   */
  lemma WifiFreshnessSafeIff(period: int, wifiPeriod: int, start: int, end: int)
    ensures (forall now: int :: !Expired(true, period, wifiPeriod, start, end, now) ==> now < end)
       <==> wifiPeriod * SECONDS_PER_DAY <= end - start
  {
    if wifiPeriod * SECONDS_PER_DAY > end - start {
      assert !Expired(true, period, wifiPeriod, start, end, end);
    }
  }
}
