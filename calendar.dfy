/**
 * Civil time in Asia/Riyadh, the zone every date of the core is read in. The zone is
 * UTC+3 all year (no daylight saving), so a civil instant is a day number, counted from
 * 1970-01-01, plus the second within that day. Calendar dates are recovered from day
 * numbers with the proleptic Gregorian calendar, which is what PHP's DateTime uses.
 */
module Calendar {
  import opened Text

  const SecondsPerDay: int := 86400
  const SecondsPerHour: int := 3600

  datatype Moment = Moment(day: int, second: int)

  /** A civil instant: the day number and the second of that day. */
  type Instant = m: Moment | 0 <= m.second < SecondsPerDay witness Moment(0, 0)

  /** Midnight at the start of civil day `day`, as `setTime(0, 0, 0)` gives it. */
  function Midnight(day: int): Instant
  {
    Moment(day, 0)
  }

  /** The civil hour, `format('H')` read as an integer. */
  function Hour(t: Instant): (h: int)
    ensures 0 <= h < 24
  {
    t.second / SecondsPerHour
  }

  /** Seconds since 1970-01-01 00:00 civil time. */
  function Seconds(t: Instant): int
  {
    t.day * SecondsPerDay + t.second
  }

  /** Number of whole days between two civil dates, ignoring which comes first. */
  function DayDistance(a: int, b: int): nat
  {
    if a <= b then b - a else a - b
  }

  /**
   * `$marker->diff($now)->format('%a')` for a marker at midnight of civil day `marker`:
   * the length of the interval between the two instants, in whole days, rounded down,
   * whichever of the two comes first.
   */
  function ElapsedDays(marker: int, now: Instant): nat
  {
    var a := Seconds(Midnight(marker));
    var b := Seconds(now);
    (if a <= b then b - a else a - b) / SecondsPerDay
  }

  /** Read per civil day: a marker in the past is `now.day - marker` days away whatever the
      time of day; a marker in the future is one day nearer once the current day has begun. */
  lemma ElapsedDaysByDay(marker: int, now: Instant)
    ensures now.day >= marker ==> ElapsedDays(marker, now) == now.day - marker
    ensures now.day < marker && now.second == 0 ==> ElapsedDays(marker, now) == marker - now.day
    ensures now.day < marker && now.second > 0 ==> ElapsedDays(marker, now) == marker - now.day - 1
  {
    var k := now.day - marker;
    if k >= 0 {
      assert Seconds(now) - Seconds(Midnight(marker)) == k * SecondsPerDay + now.second;
    } else {
      assert Seconds(Midnight(marker)) - Seconds(now) == (-k) * SecondsPerDay - now.second;
      if now.second > 0 {
        assert (-k) * SecondsPerDay - now.second == (-k - 1) * SecondsPerDay + (SecondsPerDay - now.second);
      }
    }
  }

  /** Between two midnights the elapsed days are the distance between the day numbers. */
  lemma ElapsedBetweenMidnights(marker: int, day: int)
    ensures ElapsedDays(marker, Midnight(day)) == DayDistance(marker, day)
  {
    ElapsedDaysByDay(marker, Midnight(day));
  }

  datatype Date = Date(year: int, month: int, day: int)

  /**
   * The civil date of day number `z` (days since 1970-01-01), by the era/year-of-era
   * decomposition of the proleptic Gregorian calendar into 400-year eras that begin on
   * 1 March.
   */
  function CivilFromDays(z: int): (d: Date)
    ensures 1 <= d.month <= 12 && 1 <= d.day <= 31
  {
    var shifted := z + 719468;
    var era := shifted / 146097;
    var doe := shifted - era * 146097;
    EraSplit(doe);
    var yoe := NoLeapDays(doe) / 365;
    CivilOfYear(era, yoe, doe - YearStart(yoe))
  }

  /** The date on day `doy` (counted from 1 March) of year `yoe` of era `era`. */
  function CivilOfYear(era: int, yoe: int, doy: int): (d: Date)
    requires 0 <= doy <= 365
    ensures 1 <= d.month <= 12 && 1 <= d.day <= 31
  {
    var mp := (5 * doy + 2) / 153;
    var dd := doy - (153 * mp + 2) / 5 + 1;
    var m := if mp < 10 then mp + 3 else mp - 9;
    var y := yoe + era * 400;
    Date(if m <= 2 then y + 1 else y, m, dd)
  }

  /** The day number of a civil date (inverse direction of `CivilFromDays`). */
  function DaysFromCivil(d: Date): int
  {
    var y := if d.month <= 2 then d.year - 1 else d.year;
    var era := y / 400;
    var yoe := y - era * 400;
    var mp := if d.month > 2 then d.month - 3 else d.month + 9;
    var doy := (153 * mp + 2) / 5 + d.day - 1;
    var doe := yoe * 365 + yoe / 4 - yoe / 100 + doy;
    era * 146097 + doe - 719468
  }

  /** Day of the era on which year `y` of the era begins (years begin on 1 March). */
  function YearStart(y: int): int
  {
    365 * y + y / 4 - y / 100
  }

  /** Days of the era up to `doe` with the leap days taken out: every year then has 365. */
  function NoLeapDays(doe: int): int
  {
    doe - doe / 1460 + doe / 36524 - doe / 146096
  }

  lemma NoLeapDaysMonotone(d1: int, d2: int)
    requires 0 <= d1 <= d2
    ensures NoLeapDays(d1) <= NoLeapDays(d2)
  {
    assert d1 / 146096 == (d1 / 36524) / 4;
    assert d2 / 146096 == (d2 / 36524) / 4;
    assert d2 / 1460 - d1 / 1460 <= d2 - d1;
  }

  lemma NoLeapDaysAtYearStart(y: int)
    requires 0 <= y < 400
    ensures NoLeapDays(YearStart(y)) == 365 * y
  {
    var q, r := y / 4, y % 4;
    var p, t := y / 100, y % 100;
    assert YearStart(y) == 1460 * q + (365 * r + q - p);
    assert YearStart(y) / 1460 == q;
    assert YearStart(y) == 36524 * p + (365 * t + t / 4);
    assert YearStart(y) / 36524 == p;
    assert YearStart(y) / 146096 == 0;
  }

  /** The last day of year `y` still counts fewer than 365 * (y + 1) non-leap days. */
  lemma NoLeapDaysAtYearEnd(y: int)
    requires 0 <= y < 400
    ensures var last := if y == 399 then 146096 else YearStart(y + 1) - 1;
      NoLeapDays(last) < 365 * (y + 1)
  {
    if y < 399 {
      var y1 := y + 1;
      var q, r := y1 / 4, y1 % 4;
      var p, t := y1 / 100, y1 % 100;
      var last := YearStart(y1) - 1;
      assert last == 1460 * q + (365 * r + q - p - 1);
      assert last / 1460 == q;
      if t == 0 {
        assert last == 36524 * (p - 1) + 36523;
        assert last / 36524 == p - 1;
      } else {
        assert last == 36524 * p + (365 * t + t / 4 - 1);
        assert last / 36524 == p;
      }
      assert last / 146096 == 0;
    }
  }

  /** Within one 400-year era the year of the era stays below 400, and the day of the
      (March-based) year stays within 0..365. */
  lemma EraSplit(doe: int)
    requires 0 <= doe < 146097
    ensures var yoe := NoLeapDays(doe) / 365;
      0 <= yoe < 400 && YearStart(yoe) <= doe && doe - YearStart(yoe) <= 365
  {
    var yoe := NoLeapDays(doe) / 365;
    NoLeapDaysMonotone(0, doe);
    NoLeapDaysMonotone(doe, 146096);
    assert 0 <= yoe < 400;
    if doe < YearStart(yoe) {
      assert yoe > 0;
      NoLeapDaysAtYearEnd(yoe - 1);
      NoLeapDaysMonotone(doe, YearStart(yoe) - 1);
    }
    if yoe < 399 && doe >= YearStart(yoe + 1) {
      NoLeapDaysAtYearStart(yoe + 1);
      NoLeapDaysMonotone(YearStart(yoe + 1), doe);
    }
  }

  lemma MonthSplit(doy: int)
    requires 0 <= doy <= 365
    ensures var mp := (5 * doy + 2) / 153;
      0 <= mp < 12 && (153 * mp + 2) / 5 + (doy - (153 * mp + 2) / 5 + 1) - 1 == doy
  {
  }

  lemma EraOfYear(yoe: int, era: int)
    requires 0 <= yoe < 400
    ensures (yoe + era * 400) / 400 == era
    ensures (yoe + era * 400) - ((yoe + era * 400) / 400) * 400 == yoe
  {
  }

  /** `DaysFromCivil` read back through the same era, year-of-era and month split. */
  lemma DaysFromCivilParts(era: int, yoe: int, mp: int, dd: int)
    requires 0 <= yoe < 400 && 0 <= mp < 12
    ensures var m := if mp < 10 then mp + 3 else mp - 9;
      var y := yoe + era * 400;
      DaysFromCivil(Date(if m <= 2 then y + 1 else y, m, dd))
        == era * 146097 + YearStart(yoe) + (153 * mp + 2) / 5 + dd - 1 - 719468
  {
    EraOfYear(yoe, era);
  }

  /** A day of a year of an era maps back to its day number. */
  lemma CivilOfYearBack(era: int, yoe: int, doy: int)
    requires 0 <= yoe < 400 && 0 <= doy <= 365
    ensures DaysFromCivil(CivilOfYear(era, yoe, doy)) == era * 146097 + YearStart(yoe) + doy - 719468
  {
    MonthSplit(doy);
    var mp := (5 * doy + 2) / 153;
    var dd := doy - (153 * mp + 2) / 5 + 1;
    DaysFromCivilParts(era, yoe, mp, dd);
  }

  /** Every day number names a date that maps back to it. */
  lemma CivilRoundTrip(z: int)
    ensures DaysFromCivil(CivilFromDays(z)) == z
  {
    var shifted := z + 719468;
    var era := shifted / 146097;
    var doe := shifted - era * 146097;
    EraSplit(doe);
    var yoe := NoLeapDays(doe) / 365;
    CivilOfYearBack(era, yoe, doe - YearStart(yoe));
  }

  const MonthNames: seq<string> := [
    "January", "February", "March", "April", "May", "June",
    "July", "August", "September", "October", "November", "December"]

  /** `format('F')`: the full English month name. */
  function MonthName(month: int): string
    requires 1 <= month <= 12
  {
    MonthNames[month - 1]
  }

  /** `format('Y')`: the year with at least four digits, a minus sign before years BCE. */
  function YearText(year: int): (s: string)
    ensures year >= 0 ==> |s| >= 4 && AllDigits(s) && DigitsValue(s) == year
  {
    if year < 0 then "-" + ZeroPad(-year, 4) else ZeroPad(year, 4)
  }

  /** `format('m')` and `format('d')`: two digits with a leading zero. */
  function TwoDigits(n: nat): (s: string)
    requires n < 100
    ensures |s| == 2 && AllDigits(s) && DigitsValue(s) == n
  {
    assert |Decimal(n)| <= 2 by {
      if n >= 10 {
        assert Decimal(n) == Decimal(n / 10) + [DigitChar(n % 10)];
      }
    }
    ZeroPad(n, 2)
  }
}
