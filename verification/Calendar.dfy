/**
 * `format_block_time` and `parse_date_or_timestamp`: Unix seconds as ISO-8601 UTC and back. The closed-form
 * calendar conversion is proved against stepping day by day from 1970-01-01.
 */
module Calendar {
  import opened Wrappers
  import opened Decimal

  const U32_RANGE: nat := 0x1_0000_0000
  const U32_MAX: nat := 0xFFFF_FFFF
  const I32_MAX: nat := 0x7FFF_FFFF
  const SECONDS_PER_DAY: nat := 86_400

  // ----- the Gregorian calendar -----

  datatype Date = Date(year: nat, month: nat, day: nat)

  predicate IsLeap(y: nat) {
    y % 4 == 0 && (y % 100 != 0 || y % 400 == 0)
  }

  function MonthLength(y: nat, m: nat): nat {
    if m == 2 then (if IsLeap(y) then 29 else 28)
    else if m == 4 || m == 6 || m == 9 || m == 11 then 30
    else 31
  }

  predicate ValidDate(d: Date) {
    1 <= d.month <= 12 && 1 <= d.day <= MonthLength(d.year, d.month)
  }

  function NextDay(d: Date): Date {
    if d.day < MonthLength(d.year, d.month) then Date(d.year, d.month, d.day + 1)
    else if d.month < 12 then Date(d.year, d.month + 1, 1)
    else Date(d.year + 1, 1, 1)
  }

  const EPOCH := Date(1970, 1, 1)

  /** The date reached by stepping `days` times from the epoch. */
  function DateAfter(days: nat): Date {
    if days == 0 then EPOCH else NextDay(DateAfter(days - 1))
  }

  // ----- the closed form -----

  /** Year of the 400-year era that day `doe` of the era falls in, years starting on 1 March. */
  function YearOfEra(doe: nat): nat {
    (doe - doe / 1460 + doe / 36524 - doe / 146_096) / 365
  }

  /** Days of the era before its year `y`. */
  function YearStart(y: nat): nat {
    365 * y + y / 4 - y / 100
  }

  lemma YearOfEraByCentury(c: nat, r: nat)
    requires r < 36524 && c < 4
    ensures var doe := 36524 * c + r;
            YearOfEra(doe) == 100 * c + (r - (24 * c + r) / 1460) / 365
  {
    var doe := 36524 * c + r;
    assert doe / 36524 == c;
    assert doe / 146_096 == 0;
    assert doe / 1460 == 25 * c + (24 * c + r) / 1460;
    assert doe - doe / 1460 + doe / 36524 - doe / 146_096 == 36500 * c + (r - (24 * c + r) / 1460);
  }

  /** Within a century of the era. */
  lemma YearOfCentury(c: nat, r: nat)
    requires r < 36524 && c < 4
    ensures var u := (r - (24 * c + r) / 1460) / 365;
            && u < 100
            && 365 * u + u / 4 <= r
            && (u < 99 ==> r < 365 * (u + 1) + (u + 1) / 4)
  {
    var q := (24 * c + r) / 1460;
    var u := (r - q) / 365;
    assert 1460 * q <= 24 * c + r < 1460 * q + 1460;
    assert 365 * u <= r - q < 365 * u + 365;
    var w := u / 4;
    assert 4 * w <= u < 4 * w + 4;
  }

  lemma YearStartByCentury(c: nat, u: nat)
    requires u < 100
    ensures YearStart(100 * c + u) == 36524 * c + 365 * u + u / 4
    ensures YearStart(100 * c + 100) == 36524 * c + 36524
  {
    assert (100 * c + u) / 100 == c;
    assert (100 * c + u) / 4 == 25 * c + u / 4;
  }

  lemma YearInCentury(c: nat, r: nat)
    requires r < 36524 && c < 4
    ensures var doe := 36524 * c + r;
            var y := YearOfEra(doe);
            && y < 400 && YearStart(y) <= doe
            && (y < 399 ==> doe < YearStart(y + 1))
  {
    YearOfEraByCentury(c, r);
    YearOfCentury(c, r);
    var u := (r - (24 * c + r) / 1460) / 365;
    YearStartByCentury(c, u);
    if u < 99 {
      YearStartByCentury(c, u + 1);
    }
  }

  lemma YearOfEraIsRight(doe: nat)
    requires doe < 146_097
    ensures var y := YearOfEra(doe);
            && y < 400 && YearStart(y) <= doe
            && (y < 399 ==> doe < YearStart(y + 1))
  {
    if doe < 146_096 {
      var c, r := doe / 36524, doe % 36524;
      assert c < 4 && doe == 36524 * c + r;
      YearInCentury(c, r);
    } else {
      assert YearOfEra(doe) == 399;
    }
  }

  /** Day `doy` of the year that starts on 1 March of `marchYear`. */
  function FromMarch(marchYear: nat, doy: nat): Date {
    var mp := (5 * doy + 2) / 153;
    var d: nat := doy - (153 * mp + 2) / 5 + 1;
    var m := if mp < 10 then mp + 3 else mp - 9;
    Date(if m <= 2 then marchYear + 1 else marchYear, m, d)
  }

  /** The closed form: 719 468 days lie between 0000-03-01 and the epoch. */
  function CivilFromDays(days: nat): Date {
    var z := days + 719_468;
    var era, doe := z / 146_097, z % 146_097;
    var yoe := YearOfEra(doe);
    YearOfEraIsRight(doe);
    var doy: nat := doe - YearStart(yoe);
    FromMarch(yoe + era * 400, doy)
  }

  function MarchYearLength(marchYear: nat): nat {
    if IsLeap(marchYear + 1) then 366 else 365
  }

  lemma FromMarchSteps(y: nat, doy: nat)
    requires doy + 1 < MarchYearLength(y)
    ensures FromMarch(y, doy + 1) == NextDay(FromMarch(y, doy))
  {
    var mp := (5 * doy + 2) / 153;
    assert mp <= 11;
    assert mp == 0 || mp == 1 || mp == 2 || mp == 3 || mp == 4 || mp == 5 || mp == 6 || mp == 7 || mp == 8 || mp == 9
        || mp == 10 || mp == 11;
  }

  lemma FromMarchWraps(y: nat)
    ensures NextDay(FromMarch(y, MarchYearLength(y) - 1)) == FromMarch(y + 1, 0)
  {
    assert FromMarch(y, 364) == Date(y + 1, 2, 28);
    assert FromMarch(y, 365) == Date(y + 1, 2, 29);
    assert FromMarch(y + 1, 0) == Date(y + 1, 3, 1);
  }

  /** Lengths of the years of an era follow the leap rule of the calendar year they end in. */
  lemma EraYearLength(era: nat, y: nat)
    requires y < 400
    ensures y < 399 ==> YearStart(y + 1) == YearStart(y) + MarchYearLength(y + era * 400)
    ensures y == 399 ==> 146_097 == YearStart(y) + MarchYearLength(y + era * 400)
  {
    LeapInEra(era, y + 1);
    NextYearStart(y);
  }

  lemma LeapInEra(era: nat, k: nat)
    requires 0 < k <= 400
    ensures IsLeap(k + era * 400) <==> k % 4 == 0 && (k % 100 != 0 || k == 400)
  {
    Mod4(k, 100 * era);
    Mod100(k, 4 * era);
    Mod400(k, era);
  }

  lemma Mod4(k: nat, t: nat)
    ensures (k + 4 * t) % 4 == k % 4
  {
  }

  lemma Mod100(k: nat, t: nat)
    ensures (k + 100 * t) % 100 == k % 100
  {
  }

  lemma Mod400(k: nat, t: nat)
    ensures (k + 400 * t) % 400 == k % 400
  {
  }

  lemma MultiplesNest(y: nat)
    ensures y % 400 == 0 ==> y % 100 == 0
    ensures y % 100 == 0 ==> y % 4 == 0
  {
    var q, k := y / 400, y / 100;
    assert y % 400 == 0 ==> y == 100 * (4 * q);
    assert y % 100 == 0 ==> y == 4 * (25 * k);
  }

  lemma QuotientSteps(y: nat)
    ensures (y + 1) / 4 == y / 4 + (if (y + 1) % 4 == 0 then 1 else 0)
    ensures (y + 1) / 100 == y / 100 + (if (y + 1) % 100 == 0 then 1 else 0)
    ensures (y + 1) / 400 == y / 400 + (if (y + 1) % 400 == 0 then 1 else 0)
  {
  }

  lemma NextYearStart(y: nat)
    ensures YearStart(y + 1) == YearStart(y) + 365 + (if (y + 1) % 4 == 0 && (y + 1) % 100 != 0 then 1 else 0)
  {
    QuotientSteps(y);
    MultiplesNest(y + 1);
  }

  lemma {:induction false} YearStartGrows(a: nat, b: nat)
    requires a < b
    ensures YearStart(a) + 365 <= YearStart(b)
    decreases b - a
  {
    NextYearStart(b - 1);
    if a + 1 < b {
      YearStartGrows(a, b - 1);
    }
  }

  /** The era year of a day is the only one whose range contains it. */
  lemma YearOfEraIsUnique(doe: nat, y: nat)
    requires doe < 146_097 && y < 400
    requires YearStart(y) <= doe && (y < 399 ==> doe < YearStart(y + 1))
    ensures YearOfEra(doe) == y
  {
    YearOfEraIsRight(doe);
    var x := YearOfEra(doe);
    if x < y {
      if x + 1 < y { YearStartGrows(x + 1, y); }
    } else if y < x {
      if y + 1 < x { YearStartGrows(y + 1, x); }
    }
  }

  lemma EraOf(era: nat, doe: nat)
    requires doe < 146_097
    ensures (146_097 * era + doe) / 146_097 == era && (146_097 * era + doe) % 146_097 == doe
  {
  }

  lemma YearEndsInEra(era: nat, y: nat)
    requires y < 400
    ensures YearStart(y) + MarchYearLength(y + era * 400) <= 146_097
  {
    EraYearLength(era, y);
    if y < 399 {
      EraYearLength(era, 399);
      if y + 1 < 399 {
        YearStartGrows(y + 1, 399);
      }
    }
  }

  /** Any decomposition into era, year and day of the year is the one the closed form finds. */
  lemma CivilParts(days: nat, era: nat, y: nat, doy: nat)
    requires y < 400 && doy < MarchYearLength(y + era * 400)
    requires days + 719_468 == 146_097 * era + YearStart(y) + doy
    ensures CivilFromDays(days) == FromMarch(y + era * 400, doy)
  {
    EraYearLength(era, y);
    var doe := YearStart(y) + doy;
    YearEndsInEra(era, y);
    EraOf(era, doe);
    YearOfEraIsUnique(doe, y);
  }

  lemma CivilHasParts(days: nat) returns (era: nat, y: nat, doy: nat)
    ensures y < 400 && doy < MarchYearLength(y + era * 400)
    ensures days + 719_468 == 146_097 * era + YearStart(y) + doy
  {
    var z := days + 719_468;
    era := z / 146_097;
    var doe := z % 146_097;
    YearOfEraIsRight(doe);
    y := YearOfEra(doe);
    doy := doe - YearStart(y);
    EraYearLength(era, y);
  }

  /** The year after `y`, in the same era or as the first of the next. */
  lemma YearTurns(era: nat, y: nat)
    requires y < 400
    ensures var (era', y') := if y < 399 then (era, y + 1) else (era + 1, 0);
            && y' + era' * 400 == y + era * 400 + 1
            && 146_097 * era' + YearStart(y') == 146_097 * era + YearStart(y) + MarchYearLength(y + era * 400)
  {
    EraYearLength(era, y);
    assert YearStart(0) == 0;
  }

  /** The day after day `doy` of a March year, as a day of the same or the next March year. */
  lemma MarchSuccessor(era: nat, y: nat, doy: nat) returns (era': nat, y': nat, doy': nat)
    requires y < 400 && doy < MarchYearLength(y + era * 400)
    ensures y' < 400 && doy' < MarchYearLength(y' + era' * 400)
    ensures 146_097 * era' + YearStart(y') + doy' == 146_097 * era + YearStart(y) + doy + 1
    ensures FromMarch(y' + era' * 400, doy') == NextDay(FromMarch(y + era * 400, doy))
  {
    if doy + 1 < MarchYearLength(y + era * 400) {
      era', y', doy' := era, y, doy + 1;
      FromMarchSteps(y + era * 400, doy);
    } else {
      FromMarchWraps(y + era * 400);
      era', y', doy' := if y < 399 then era else era + 1, if y < 399 then y + 1 else 0, 0;
      YearTurns(era, y);
    }
  }

  lemma CivilSteps(days: nat)
    ensures CivilFromDays(days + 1) == NextDay(CivilFromDays(days))
  {
    var era, y, doy := CivilHasParts(days);
    var era', y', doy' := MarchSuccessor(era, y, doy);
    CivilParts(days, era, y, doy);
    CivilParts(days + 1, era', y', doy');
  }

  lemma CivilStartsAtEpoch()
    ensures CivilFromDays(0) == EPOCH
  {
    CivilParts(0, 4, 369, 306);
  }

  lemma {:induction false} StepsFollowNextDay(f: nat -> Date, days: nat)
    requires f(0) == EPOCH && forall d: nat :: f(d + 1) == NextDay(f(d))
    ensures f(days) == DateAfter(days)
  {
    if days > 0 {
      StepsFollowNextDay(f, days - 1);
      assert f(days - 1 + 1) == NextDay(f(days - 1));
    }
  }

  /** The closed form gives the date reached by stepping day by day, for every day number. */
  lemma CivilIsDateAfter(days: nat)
    ensures CivilFromDays(days) == DateAfter(days)
  {
    var f: nat -> Date := CivilFromDays;
    CivilStartsAtEpoch();
    forall d: nat
      ensures f(d + 1) == NextDay(f(d))
    {
      CivilSteps(d);
    }
    StepsFollowNextDay(f, days);
  }

  // ----- counting days -----

  function YearLength(y: nat): nat {
    if IsLeap(y) then 366 else 365
  }

  function DaysBeforeYear(y: nat): nat {
    if y <= 1970 then 0 else DaysBeforeYear(y - 1) + YearLength(y - 1)
  }

  function DaysBeforeMonth(y: nat, m: nat): nat {
    if m <= 1 then 0 else DaysBeforeMonth(y, m - 1) + MonthLength(y, m - 1)
  }

  predicate InEra(d: Date) {
    ValidDate(d) && d.year >= 1970
  }

  /** Days from the epoch to a date, counted by whole years and months. */
  function DayNumber(d: Date): nat
    requires InEra(d)
  {
    DaysBeforeYear(d.year) + DaysBeforeMonth(d.year, d.month) + d.day - 1
  }

  predicate Before(d: Date, e: Date) {
    d.year < e.year || (d.year == e.year && (d.month < e.month || (d.month == e.month && d.day < e.day)))
  }

  lemma MonthsFillYear(y: nat)
    ensures DaysBeforeMonth(y, 13) == YearLength(y)
  {
    assert DaysBeforeMonth(y, 1) == 0 && DaysBeforeMonth(y, 2) == 31;
    assert DaysBeforeMonth(y, 3) == 31 + MonthLength(y, 2);
    assert DaysBeforeMonth(y, 5) == DaysBeforeMonth(y, 3) + 61;
    assert DaysBeforeMonth(y, 7) == DaysBeforeMonth(y, 5) + 61;
    assert DaysBeforeMonth(y, 9) == DaysBeforeMonth(y, 7) + 62;
    assert DaysBeforeMonth(y, 11) == DaysBeforeMonth(y, 9) + 61;
    assert DaysBeforeMonth(y, 13) == DaysBeforeMonth(y, 11) + 61;
  }

  lemma {:induction false} MonthsGrow(y: nat, m: nat, n: nat)
    requires m < n
    ensures DaysBeforeMonth(y, m + 1) <= DaysBeforeMonth(y, n)
    decreases n - m
  {
    if m + 1 < n {
      MonthsGrow(y, m, n - 1);
    }
  }

  lemma {:induction false} YearsGrow(y: nat, z: nat)
    requires y < z
    ensures DaysBeforeYear(y + 1) <= DaysBeforeYear(z)
    decreases z - y
  {
    if y + 1 < z {
      YearsGrow(y, z - 1);
    }
  }

  /** Later dates have larger day numbers, so a day number belongs to one date only. */
  lemma DayNumberIsMonotone(d: Date, e: Date)
    requires InEra(d) && InEra(e) && Before(d, e)
    ensures DayNumber(d) < DayNumber(e)
  {
    if d.year < e.year {
      MonthsFillYear(d.year);
      if d.month < 12 {
        MonthsGrow(d.year, d.month, 13);
      }
      YearsGrow(d.year, e.year);
    } else if d.month < e.month {
      MonthsGrow(d.year, d.month, e.month);
    }
  }

  lemma NextDayCountsOne(d: Date)
    requires InEra(d)
    ensures InEra(NextDay(d)) && DayNumber(NextDay(d)) == DayNumber(d) + 1
  {
    if d.day == MonthLength(d.year, d.month) {
      if d.month == 12 {
        MonthsFillYear(d.year);
      } else {
        assert DaysBeforeMonth(d.year, d.month + 1) == DaysBeforeMonth(d.year, d.month) + d.day;
      }
    }
  }

  lemma {:induction false} DateAfterHasNumber(days: nat)
    ensures InEra(DateAfter(days)) && DayNumber(DateAfter(days)) == days
  {
    if days > 0 {
      DateAfterHasNumber(days - 1);
      NextDayCountsOne(DateAfter(days - 1));
    }
  }

  /** Stepping as many days as a date's number leads to that date. */
  lemma DateAfterReaches(d: Date)
    requires InEra(d)
    ensures DateAfter(DayNumber(d)) == d
  {
    var e := DateAfter(DayNumber(d));
    DateAfterHasNumber(DayNumber(d));
    if Before(d, e) {
      DayNumberIsMonotone(d, e);
    } else if Before(e, d) {
      DayNumberIsMonotone(e, d);
    }
  }

  /** Leap days in the years up to and including `y`. */
  function LeapsThrough(y: nat): int {
    y / 4 - y / 100 + y / 400
  }

  lemma LeapsGrow(y: nat)
    requires y > 0
    ensures LeapsThrough(y) == LeapsThrough(y - 1) + (if IsLeap(y) then 1 else 0)
  {
    QuotientSteps(y - 1);
    MultiplesNest(y);
  }

  lemma {:induction false} DaysBeforeYearClosed(y: nat)
    requires y >= 1970
    ensures DaysBeforeYear(y) == 365 * (y - 1970) + LeapsThrough(y - 1) - 477
  {
    if y > 1970 {
      DaysBeforeYearClosed(y - 1);
      LeapsGrow(y - 1);
    }
  }

  // ----- formatting -----

  function IsoDate(d: Date): string {
    Padded(d.year, 4) + "-" + Padded(d.month, 2) + "-" + Padded(d.day, 2)
  }

  function IsoTime(h: nat, m: nat, s: nat): string {
    Padded(h, 2) + ":" + Padded(m, 2) + ":" + Padded(s, 2)
  }

  function FormatBlockTime(ts: nat): string {
    var days, timeOfDay := ts / SECONDS_PER_DAY, ts % SECONDS_PER_DAY;
    var hh, mm, ss := timeOfDay / 3600, timeOfDay % 3600 / 60, timeOfDay % 60;
    IsoDate(CivilFromDays(days)) + "T" + IsoTime(hh, mm, ss) + "Z"
  }

  // ----- parsing -----

  datatype ParseError =
    | InvalidYear
    | InvalidMonth
    | InvalidDay
    | MonthOutOfRange
    | InvalidDate
    | BeforeUnixEpoch
    | Unrecognised

  /** The calendar library's largest year. */
  const MAX_YEAR: nat := 9999

  /** Midnight UTC of a date given by its three fields, cast to 32 bits. */
  function ParseFields(y: string, m: string, n: string): Result<nat, ParseError> {
    match ParseUnsigned(y, I32_MAX)
    case None => Failure(InvalidYear)
    case Some(year) =>
      match ParseUnsigned(m, 255)
      case None => Failure(InvalidMonth)
      case Some(month) =>
        match ParseUnsigned(n, 255)
        case None => Failure(InvalidDay)
        case Some(day) =>
          var d := Date(year, month, day);
          if !(1 <= month <= 12) then Failure(MonthOutOfRange)
          else if year > MAX_YEAR || !ValidDate(d) then Failure(InvalidDate)
          else if year < 1970 then Failure(BeforeUnixEpoch)
          else Success(Midnight(d))
  }

  function Midnight(d: Date): nat
    requires InEra(d)
  {
    SECONDS_PER_DAY * DayNumber(d) % U32_RANGE
  }

  /** A raw timestamp, or three fields separated by dashes. */
  function ParseDateOrTimestamp(input: string): Result<nat, ParseError> {
    match ParseUnsigned(input, U32_MAX)
    case Some(ts) => Success(ts)
    case None =>
      var parts := Split(input, '-');
      if |parts| == 3 then ParseFields(parts[0], parts[1], parts[2]) else Failure(Unrecognised)
  }

  // ----- what the two promise -----

  lemma SplitTimestamp(ts: nat, days: nat, h: nat, m: nat, s: nat)
    requires h < 24 && m < 60 && s < 60
    requires ts == SECONDS_PER_DAY * days + 3600 * h + 60 * m + s
    ensures ts / SECONDS_PER_DAY == days
    ensures var t := ts % SECONDS_PER_DAY; t / 3600 == h && t % 3600 / 60 == m && t % 60 == s
  {
    var t := 3600 * h + 60 * m + s;
    assert ts % SECONDS_PER_DAY == t;
    assert t % 3600 == 60 * m + s;
    assert t == 60 * (60 * h + m) + s;
  }

  lemma FormatByParts(ts: nat, d: Date)
    requires d == CivilFromDays(ts / SECONDS_PER_DAY)
    ensures var t := ts % SECONDS_PER_DAY;
            FormatBlockTime(ts) == IsoDate(d) + "T" + IsoTime(t / 3600, t % 3600 / 60, t % 60) + "Z"
  {
  }

  /** The printed time is the date stepped to from the epoch and the exact time of that day. */
  lemma FormatIsCalendarTime(ts: nat, days: nat, h: nat, m: nat, s: nat)
    requires h < 24 && m < 60 && s < 60
    requires ts == SECONDS_PER_DAY * days + 3600 * h + 60 * m + s
    ensures FormatBlockTime(ts) == IsoDate(DateAfter(days)) + "T" + IsoTime(h, m, s) + "Z"
  {
    SplitTimestamp(ts, days, h, m, s);
    CivilIsDateAfter(days);
    FormatByParts(ts, DateAfter(days));
  }

  predicate FourDigitDate(d: Date) {
    InEra(d) && d.year <= MAX_YEAR
  }

  lemma IsoDateWidth(d: Date)
    requires FourDigitDate(d)
    ensures |IsoDate(d)| == 10
  {
    assert Power10(2) == 100 && Power10(4) == 10000;
    PaddedWidth(d.year, 4);
    PaddedWidth(d.month, 2);
    PaddedWidth(d.day, 2);
  }

  lemma DigitsHaveNoDash(n: nat, width: nat)
    ensures '-' !in Padded(n, width)
  {
    assert forall i :: 0 <= i < |Padded(n, width)| ==> IsDigit(Padded(n, width)[i]);
  }

  lemma DashedParts(y: string, m: string, n: string)
    requires '-' !in y && '-' !in m && '-' !in n
    ensures Split(y + "-" + m + "-" + n, '-') == [y, m, n]
  {
    SplitFirst(y, m + "-" + n, '-');
    SplitFirst(m, n, '-');
    SplitPlain(n, '-');
    assert y + "-" + m + "-" + n == y + "-" + (m + "-" + n);
  }

  lemma DashedIsNoNumber(y: string, rest: string)
    requires y != "" && IsDigit(y[0])
    ensures ParseUnsigned(y + "-" + rest, U32_MAX) == None
  {
    var s := y + "-" + rest;
    assert s[0] == y[0] && s[|y|] == '-';
  }

  lemma IsoFieldsParse(d: Date)
    requires FourDigitDate(d)
    ensures ParseFields(Padded(d.year, 4), Padded(d.month, 2), Padded(d.day, 2)) == Success(Midnight(d))
  {
    PaddedParsesBack(d.year, 4, I32_MAX);
    PaddedParsesBack(d.month, 2, 255);
    PaddedParsesBack(d.day, 2, 255);
  }

  lemma DashedFieldsParse(input: string, y: string, m: string, n: string)
    requires '-' !in y && '-' !in m && '-' !in n && y != "" && IsDigit(y[0])
    requires input == y + "-" + m + "-" + n
    ensures ParseDateOrTimestamp(input) == ParseFields(y, m, n)
  {
    DashedParts(y, m, n);
    DashedIsNoNumber(y, m + "-" + n);
    assert input == y + "-" + (m + "-" + n);
  }

  /** A printed date reads back as its own midnight, cast to 32 bits. */
  lemma IsoDateParses(d: Date, input: string)
    requires FourDigitDate(d) && input == IsoDate(d)
    ensures ParseDateOrTimestamp(input) == Success(Midnight(d))
  {
    DigitsHaveNoDash(d.year, 4);
    DigitsHaveNoDash(d.month, 2);
    DigitsHaveNoDash(d.day, 2);
    DashedFieldsParse(input, Padded(d.year, 4), Padded(d.month, 2), Padded(d.day, 2));
    IsoFieldsParse(d);
  }

  lemma FormatStartsWithDate(ts: nat)
    requires ts < U32_RANGE
    ensures FourDigitDate(DateAfter(ts / SECONDS_PER_DAY))
    ensures |FormatBlockTime(ts)| >= 10
    ensures FormatBlockTime(ts)[..10] == IsoDate(DateAfter(ts / SECONDS_PER_DAY))
  {
    var days := ts / SECONDS_PER_DAY;
    U32DatesAreFourDigit(days);
    CivilIsDateAfter(days);
    FormatByParts(ts, DateAfter(days));
    IsoDateWidth(DateAfter(days));
  }

  lemma U32DatesAreFourDigit(days: nat)
    requires days <= 49_710
    ensures FourDigitDate(DateAfter(days))
  {
    DateAfterHasNumber(days);
    DaysBeforeYearClosed(DateAfter(days).year);
  }

  lemma MidnightInU32(d: Date)
    requires InEra(d) && DayNumber(d) <= 49_710
    ensures Midnight(d) == SECONDS_PER_DAY * DayNumber(d)
  {
  }

  lemma DayParsesBack(days: nat, midnight: nat, d: Date, input: string)
    requires days <= 49_710 && midnight == SECONDS_PER_DAY * days && d == DateAfter(days)
    requires FourDigitDate(d) && input == IsoDate(d)
    ensures ParseDateOrTimestamp(input) == Success(midnight)
  {
    DateAfterHasNumber(days);
    IsoDateParses(d, input);
    MidnightInU32(d);
  }

  lemma WholeDays(ts: nat)
    requires ts < U32_RANGE
    ensures ts / SECONDS_PER_DAY <= 49_710
    ensures ts - ts % SECONDS_PER_DAY == SECONDS_PER_DAY * (ts / SECONDS_PER_DAY)
  {
  }

  lemma StartOfDayParsesBack(ts: nat, date: string)
    requires ts < U32_RANGE && date == IsoDate(DateAfter(ts / SECONDS_PER_DAY))
    ensures ParseDateOrTimestamp(date) == Success(ts - ts % SECONDS_PER_DAY)
  {
    var days, midnight := ts / SECONDS_PER_DAY, ts - ts % SECONDS_PER_DAY;
    WholeDays(ts);
    U32DatesAreFourDigit(days);
    DayParsesBack(days, midnight, DateAfter(days), date);
  }

  /** The first ten characters printed for any timestamp read back as the start of its day. */
  lemma FormatParsesBack(ts: nat, date: string, rest: string)
    requires ts < U32_RANGE
    requires FormatBlockTime(ts) == date + rest && |date| == 10
    ensures ParseDateOrTimestamp(date) == Success(ts - ts % SECONDS_PER_DAY)
  {
    FormatStartsWithDate(ts);
    assert date == FormatBlockTime(ts)[..10];
    StartOfDayParsesBack(ts, date);
  }

  /** Where each field of a printed time stands, and what its digits are worth. */
  predicate ReadsAs(text: string, d: Date, h: nat, m: nat, s: nat) {
    && |text| == 20
    && TwoDigits(text, 0, d.year / 100) && TwoDigits(text, 2, d.year % 100)
    && text[4] == '-' && TwoDigits(text, 5, d.month) && text[7] == '-' && TwoDigits(text, 8, d.day)
    && text[10] == 'T'
    && TwoDigits(text, 11, h) && text[13] == ':' && TwoDigits(text, 14, m) && text[16] == ':' && TwoDigits(text, 17, s)
    && text[19] == 'Z'
  }

  lemma IsoReadsAs(d: Date, h: nat, m: nat, s: nat)
    requires FourDigitDate(d) && h < 24 && m < 60 && s < 60
    ensures ReadsAs(IsoDate(d) + "T" + IsoTime(h, m, s) + "Z", d, h, m, s)
  {
    PaddedFour(d.year);
    PaddedTwo(d.month);
    PaddedTwo(d.day);
    PaddedTwo(h);
    PaddedTwo(m);
    PaddedTwo(s);
  }

  /**
   * Every 32-bit timestamp is printed in 20 characters: the date stepped to from the epoch, and a time of day
   * whose hours, minutes and seconds add up to the seconds since midnight.
   */
  lemma FormatReadsAs(ts: nat) returns (h: nat, m: nat, s: nat)
    requires ts < U32_RANGE
    ensures h < 24 && m < 60 && s < 60
    ensures 3600 * h + 60 * m + s == ts % 86_400
    ensures ReadsAs(FormatBlockTime(ts), DateAfter(ts / 86_400), h, m, s)
  {
    var days, t := ts / 86_400, ts % 86_400;
    h, m, s := t / 3600, t % 3600 / 60, t % 60;
    TimeRecomposes(t);
    WholeDays(ts);
    U32DatesAreFourDigit(days);
    FormatIsCalendarTime(ts, days, h, m, s);
    IsoReadsAs(DateAfter(days), h, m, s);
  }

  lemma TimeRecomposes(t: nat)
    requires t < 86_400
    ensures t / 3600 < 24 && t % 3600 / 60 < 60 && 3600 * (t / 3600) + 60 * (t % 3600 / 60) + t % 60 == t
  {
    var r := t % 3600;
    assert t == 3600 * (t / 3600) + r && r == 60 * (r / 60) + r % 60;
    assert t == 60 * (60 * (t / 3600) + r / 60) + r % 60;
  }

  /** A timestamp in digits, with leading zeros or a plus sign as Rust allows, is itself; larger numbers are refused. */
  lemma TimestampParses(digits: string, ts: nat)
    requires digits != "" && AllDigits(digits) && Value(digits) == ts
    ensures ParseDateOrTimestamp(digits) == if ts <= 0xFFFF_FFFF then Success(ts) else Failure(Unrecognised)
    ensures ts <= 0xFFFF_FFFF ==> ParseDateOrTimestamp("+" + digits) == Success(ts)
  {
    assert ("+" + digits)[1..] == digits;
    if ts > 0xFFFF_FFFF {
      assert forall i :: 0 <= i < |digits| ==> IsDigit(digits[i]);
      SplitPlain(digits, '-');
    }
  }

  lemma PrintedTimestampParses(ts: nat)
    requires ts <= 0xFFFF_FFFF
    ensures ParseDateOrTimestamp(Digits(ts)) == Success(ts)
  {
    ValueOfDigits(ts);
    TimestampParses(Digits(ts), ts);
  }

  lemma DigitsAreUnsigned(s: string, max: nat)
    requires s != "" && AllDigits(s)
    ensures ParseUnsigned(s, max) == if Value(s) <= max then Some(Value(s)) else None
    ensures '-' !in s
  {
    assert IsDigit(s[0]);
    assert forall i :: 0 <= i < |s| ==> IsDigit(s[i]);
  }

  lemma FieldsAcceptedIff(y: string, m: string, n: string, d: Date)
    requires y != "" && m != "" && n != "" && AllDigits(y) && AllDigits(m) && AllDigits(n)
    requires d == Date(Value(y), Value(m), Value(n))
    ensures ParseFields(y, m, n).Success? <==> FourDigitDate(d)
    ensures FourDigitDate(d) ==> ParseFields(y, m, n) == Success(Midnight(d))
  {
    DigitsAreUnsigned(y, I32_MAX);
    DigitsAreUnsigned(m, 255);
    DigitsAreUnsigned(n, 255);
  }

  /** Three dashed fields are accepted exactly when they are numbers that form a calendar date from 1970 to 9999. */
  lemma DashedFieldsAcceptedIff(y: string, m: string, n: string, d: Date, input: string)
    requires y != "" && m != "" && n != "" && AllDigits(y) && AllDigits(m) && AllDigits(n)
    requires d == Date(Value(y), Value(m), Value(n)) && input == y + "-" + m + "-" + n
    ensures ParseDateOrTimestamp(input).Success? <==> InEra(d) && d.year <= 9999
    ensures InEra(d) && d.year <= 9999 ==>
              ParseDateOrTimestamp(input) == Success(86_400 * DayNumber(d) % 0x1_0000_0000)
  {
    DigitsAreUnsigned(y, I32_MAX);
    DigitsAreUnsigned(m, 255);
    DigitsAreUnsigned(n, 255);
    assert IsDigit(y[0]);
    DashedFieldsParse(input, y, m, n);
    FieldsAcceptedIff(y, m, n, d);
  }

  /** A number as Rust reads one: digits, perhaps behind a plus sign, and not above `max`. */
  predicate IsNumber(s: string, max: nat) {
    var digits := if s != "" && s[0] == '+' then s[1..] else s;
    digits != "" && AllDigits(digits) && Value(digits) <= max
  }

  /** What each refusal says about the dashed parts of the input is so. */
  predicate IsParseCause(input: string, parts: seq<string>, e: ParseError) {
    match e
    case Unrecognised => |parts| != 3 && !IsNumber(input, 0xFFFF_FFFF)
    case InvalidYear => |parts| == 3 && !IsNumber(parts[0], 0x7FFF_FFFF)
    case InvalidMonth => |parts| == 3 && !IsNumber(parts[1], 255)
    case InvalidDay => |parts| == 3 && !IsNumber(parts[2], 255)
    case MonthOutOfRange => |parts| == 3 && !(IsNumber(parts[1], 12) && NumberOf(parts[1]) >= 1)
    case InvalidDate => |parts| == 3 && (NumberOf(parts[0]) > 9999 || !ValidDate(DateOf(parts)))
    case BeforeUnixEpoch => |parts| == 3 && NumberOf(parts[0]) < 1970
  }

  function NumberOf(s: string): nat {
    var digits := if s != "" && s[0] == '+' then s[1..] else s;
    if AllDigits(digits) then Value(digits) else 0
  }

  function DateOf(parts: seq<string>): Date
    requires |parts| == 3
  {
    Date(NumberOf(parts[0]), NumberOf(parts[1]), NumberOf(parts[2]))
  }

  lemma UnsignedIsNumber(s: string, max: nat)
    ensures ParseUnsigned(s, max) == if IsNumber(s, max) then Some(NumberOf(s)) else None
  {
  }

  lemma FieldsRefusalIsTrue(input: string, parts: seq<string>)
    requires |parts| == 3 && ParseFields(parts[0], parts[1], parts[2]).Failure?
    ensures IsParseCause(input, parts, ParseFields(parts[0], parts[1], parts[2]).error)
  {
    UnsignedIsNumber(parts[0], I32_MAX);
    UnsignedIsNumber(parts[1], 255);
    UnsignedIsNumber(parts[2], 255);
  }

  /** No input is refused for a reason that does not hold. */
  lemma ParseRefusalIsTrue(input: string)
    requires ParseDateOrTimestamp(input).Failure?
    ensures IsParseCause(input, Split(input, '-'), ParseDateOrTimestamp(input).error)
  {
    var parts := Split(input, '-');
    UnsignedIsNumber(input, U32_MAX);
    if |parts| == 3 {
      FieldsRefusalIsTrue(input, parts);
    }
  }

  const LAST_U32_DATE := Date(2106, 2, 7)

  lemma LastDateNumber()
    ensures InEra(LAST_U32_DATE) && DayNumber(LAST_U32_DATE) == 49_710
  {
    DaysBeforeYearClosed(2106);
  }

  lemma PaddedIsInjective(a: nat, b: nat, width: nat)
    requires Padded(a, width) == Padded(b, width)
    ensures a == b
  {
    PaddedParsesBack(a, width, a);
    PaddedParsesBack(b, width, b);
  }

  lemma IsoDateIsInjective(d: Date, e: Date)
    requires FourDigitDate(d) && FourDigitDate(e) && IsoDate(d) == IsoDate(e)
    ensures d == e
  {
    IsoDateFields(d);
    IsoDateFields(e);
    PaddedIsInjective(d.year, e.year, 4);
    PaddedIsInjective(d.month, e.month, 2);
    PaddedIsInjective(d.day, e.day, 2);
  }

  lemma IsoDateFields(d: Date)
    requires FourDigitDate(d)
    ensures |IsoDate(d)| == 10
    ensures IsoDate(d)[..4] == Padded(d.year, 4)
    ensures IsoDate(d)[5..7] == Padded(d.month, 2)
    ensures IsoDate(d)[8..] == Padded(d.day, 2)
  {
    assert Power10(2) == 100 && Power10(4) == 10000;
    PaddedWidth(d.year, 4);
    PaddedWidth(d.month, 2);
    PaddedWidth(d.day, 2);
  }

  /**
   * A date parsed to midnight formats back to itself exactly up to 2106-02-07; a later date is accepted all
   * the same, wraps around 32 bits, and names another day.
   */
  lemma DateFormatsBackIffInU32(d: Date)
    requires FourDigitDate(d)
    ensures ParseDateOrTimestamp(IsoDate(d)).Success?
    ensures FormatBlockTime(ParseDateOrTimestamp(IsoDate(d)).value) == IsoDate(d) + "T00:00:00Z"
       <==> !Before(LAST_U32_DATE, d)
  {
    IsoDateParses(d, IsoDate(d));
    MidnightFormatsBackIffInU32(d);
  }

  lemma MidnightFormatsBackIffInU32(d: Date)
    requires FourDigitDate(d)
    ensures FormatBlockTime(Midnight(d)) == IsoDate(d) + "T00:00:00Z" <==> !Before(LAST_U32_DATE, d)
  {
    LastDateNumber();
    if Before(LAST_U32_DATE, d) {
      DayNumberIsMonotone(LAST_U32_DATE, d);
      WrappedTimestampNamesAnotherDay(d, Midnight(d));
    } else {
      if d != LAST_U32_DATE {
        DayNumberIsMonotone(d, LAST_U32_DATE);
      }
      DateAfterReaches(d);
      MidnightInU32(d);
      MidnightFormat(Midnight(d), DayNumber(d));
    }
  }

  lemma WrappedTimestampNamesAnotherDay(d: Date, ts: nat)
    requires FourDigitDate(d) && DayNumber(d) > 49_710 && ts < U32_RANGE
    ensures FormatBlockTime(ts) != IsoDate(d) + "T00:00:00Z"
  {
    var e := DateAfter(ts / SECONDS_PER_DAY);
    FormatStartsWithDate(ts);
    IsoDateWidth(d);
    if FormatBlockTime(ts) == IsoDate(d) + "T00:00:00Z" {
      assert IsoDate(e) == FormatBlockTime(ts)[..10] == IsoDate(d);
      IsoDateIsInjective(d, e);
      DateAfterHasNumber(ts / SECONDS_PER_DAY);
      assert false;
    }
  }

  lemma MidnightFormat(ts: nat, days: nat)
    requires ts == SECONDS_PER_DAY * days
    ensures FormatBlockTime(ts) == IsoDate(DateAfter(days)) + "T00:00:00Z"
  {
    FormatIsCalendarTime(ts, days, 0, 0, 0);
    MidnightTime();
    MidnightSuffix(IsoDate(DateAfter(days)));
  }

  lemma MidnightTime()
    ensures IsoTime(0, 0, 0) == "00:00:00"
  {
    assert Digits(0) == "0" && Zeros(1) == "0";
    assert Padded(0, 2) == "00";
  }

  lemma MidnightSuffix(date: string)
    ensures date + "T" + "00:00:00" + "Z" == date + "T00:00:00Z"
  {
  }
}
