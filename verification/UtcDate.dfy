/** Timestamps and calendar dates (migration/src/object.rs, `from_timestamp` and `timestamp`).
    The two come from different sources and use different month formulas. */
module UtcDate {
  import opened Modular

  datatype UTCDate = UTCDate(year: nat, month: nat, day: nat, hour: nat, minute: nat, second: nat,
                             tzBeforeGmt: bool, tzHour: nat, tzMinute: nat)

  // i64 division truncates toward zero.
  function TruncDiv(a: int, b: int): int
    requires b > 0
  {
    if a >= 0 then a / b else -((-a) / b)
  }

  function TruncMod(a: int, b: int): int
    requires b > 0
  {
    a - b * TruncDiv(a, b)
  }

  function U8(x: int): nat { x % 0x100 }
  function U16(x: int): nat { x % 0x1_0000 }
  function U32(x: int): nat { x % 0x1_0000_0000 }

  // -------------------------------------------------------- from a timestamp

  function YearOfEra(doe: int): int {
    (doe - doe / 1460 + doe / 36524 - doe / 146096) / 365
  }

  function DayOfYear(doe: int, yoe: int): int {
    doe - (365 * yoe + yoe / 4 - yoe / 100)
  }

  /** The day with number `z`, counted from 0000-03-01, as year, month and day, before they are cut to their widths. */
  function Civil(z: int): (int, int, int) {
    var era := TruncDiv(if z >= 0 then z else z - 146096, 146097);
    var doe := z - era * 146097;
    var yoe := YearOfEra(doe);
    var doy := DayOfYear(doe, yoe);
    var mp := (5 * doy + 2) / 153;
    var d := doy - (153 * mp + 2) / 5 + 1;
    var m := if mp < 10 then mp + 3 else mp - 9;
    (yoe + era * 400 + if m <= 2 then 1 else 0, m, d)
  }

  function FromTimestamp(timestamp: int): UTCDate {
    var (z, seconds) := (TruncDiv(timestamp, 86400) + 719468, TruncMod(timestamp, 86400));
    var (y, m, d) := Civil(z);
    UTCDate(U16(y), U8(m), U8(d),
            U8(TruncDiv(seconds, 3600)), U8(TruncMod(TruncDiv(seconds, 60), 60)), U8(TruncMod(seconds, 60)),
            false, 0, 0)
  }

  // ---------------------------------------------------------- to a timestamp

  function DayNumber(year: nat, month: nat, day: nat): int {
    var mAdj := U32(month as int - 3);
    var carry := if mAdj > month then 1 else 0;
    var adjust := if carry > 0 then 12 else 0;
    var yAdj := year + 4800 - carry;
    var monthDays := (U32(mAdj + adjust) * 62719 + 769) / 2048;
    var leapDays := yAdj / 4 - yAdj / 100 + yAdj / 400;
    yAdj * 365 + leapDays + monthDays + (day - 1) - 2472632
  }

  function Timestamp(date: UTCDate): int {
    DayNumber(date.year, date.month, date.day) * 86400 + date.hour * 3600 + date.minute * 60 + date.second
    + (date.tzHour * 3600 + date.tzMinute * 60) * if date.tzBeforeGmt then 1 else -1
  }

  // -------------------------------------------------------- the calendar

  predicate IsLeap(year: int) {
    year % 4 == 0 && (year % 100 != 0 || year % 400 == 0)
  }

  function DaysInMonth(year: int, month: int): int {
    if month == 2 then if IsLeap(year) then 29 else 28
    else if month == 4 || month == 6 || month == 9 || month == 11 then 30
    else 31
  }

  predicate ValidDay(year: int, month: int, day: int) {
    1 <= month <= 12 && 1 <= day <= DaysInMonth(year, month)
  }

  /** A date of the Gregorian calendar, in UTC. */
  predicate ValidDate(date: UTCDate) {
    && date.year < 0x1_0000 && ValidDay(date.year, date.month, date.day)
    && date.hour < 24 && date.minute < 60 && date.second < 60
    && !date.tzBeforeGmt && date.tzHour == 0 && date.tzMinute == 0
  }

  // Years that begin in March put the leap day last.  `YearStart` counts the days from 0000-03-01.

  function YearStart(y: int): int {
    365 * y + y / 4 - y / 100 + y / 400
  }

  function YearLength(y: int): int {
    if IsLeap(y + 1) then 366 else 365
  }

  function MonthStart(mp: int): int {
    (153 * mp + 2) / 5
  }

  function MarchYear(year: int, month: int): int { if month <= 2 then year - 1 else year }
  function MarchMonth(month: int): int { if month <= 2 then month + 9 else month - 3 }

  lemma NextQuotient(y: int, m: nat)
    requires m > 1
    ensures (y + 1) / m == y / m + if (y + 1) % m == 0 then 1 else 0
  {
    if y % m + 1 < m {
      ModIs(y + 1, m, y / m, y % m + 1);
    } else {
      Distrib(m, y / m, 1);
      ModIs(y + 1, m, y / m + 1, 0);
    }
  }

  lemma YearLengths(y: int)
    ensures YearStart(y + 1) == YearStart(y) + YearLength(y)
  {
    NextQuotient(y, 4);
    NextQuotient(y, 100);
    NextQuotient(y, 400);
    ModMod(y + 1, 4, 25);
    ModMod(y + 1, 100, 4);
  }

  /** A place in a year and the calendar's month and day say the same. */
  lemma MonthAndDay(y: int, doy: int)
    requires 0 <= doy < YearLength(y)
    ensures var mp := (5 * doy + 2) / 153;
      var month := if mp < 10 then mp + 3 else mp - 9;
      var year := if month <= 2 then y + 1 else y;
      && 0 <= mp <= 11 && MarchYear(year, month) == y && MarchMonth(month) == mp
      && ValidDay(year, month, doy - MonthStart(mp) + 1)
  {
    var mp := (5 * doy + 2) / 153;
    assert MonthStart(mp) <= doy;
    assert mp < 11 ==> doy < MonthStart(mp + 1);
  }

  lemma DayInYear(year: int, month: int, day: int)
    requires ValidDay(year, month, day)
    ensures var (y, mp) := (MarchYear(year, month), MarchMonth(month));
      var doy := MonthStart(mp) + day - 1;
      0 <= doy < YearLength(y) && (5 * doy + 2) / 153 == mp
  {
    var mp := MarchMonth(month);
    assert mp == 0 || mp == 1 || mp == 2 || mp == 3 || mp == 4 || mp == 5 ||
           mp == 6 || mp == 7 || mp == 8 || mp == 9 || mp == 10 || mp == 11;
  }

  // ------------------------------------------------------ years in an era

  predicate InEra(c: int, q: int, j: int, doy: int) {
    && 0 <= c <= 3 && 0 <= q <= 24 && 0 <= j <= 3
    && 0 <= doy < if j == 3 && (q < 24 || c == 3) then 366 else 365
  }

  /** What the three corrections of the formula count on day `doy` of year 100c + 4q + j. */
  lemma Corrections(c: int, q: int, j: int, doy: int)
    requires InEra(c, q, j, doy)
    ensures var (doe, t) := (36524 * c + 1461 * q + 365 * j + doy, 24 * c + q + 365 * j + doy);
      var last := if c == 3 && q == 24 && j == 3 && doy == 365 then 1 else 0;
      && 0 <= doe <= 146096
      && doe / 1460 == 25 * c + q + (if t >= 1460 then 1 else 0)
      && doe / 36524 == c + last && doe / 146096 == last
  {
    var doe, t := 36524 * c + 1461 * q + 365 * j + doy, 24 * c + q + 365 * j + doy;
    var last := if c == 3 && q == 24 && j == 3 && doy == 365 then 1 else 0;
    ModIs(doe, 1460, 25 * c + q + if t >= 1460 then 1 else 0, t - if t >= 1460 then 1460 else 0);
    ModIs(doe, 36524, c + last, 1461 * q + 365 * j + doy - 36524 * last);
    ModIs(doe, 146096, last, doe - 146096 * last);
  }

  /** Year 100c + 4q + j of an era begins 36524c + 1461q + 365j days into it, and the formula finds it from any of its days. */
  lemma YearFound(c: int, q: int, j: int, doy: int)
    requires InEra(c, q, j, doy)
    ensures var (n, doe) := (100 * c + 4 * q + j, 36524 * c + 1461 * q + 365 * j + doy);
      0 <= doe <= 146096 && YearOfEra(doe) == n && DayOfYear(doe, n) == doy
  {
    var n, doe := 100 * c + 4 * q + j, 36524 * c + 1461 * q + 365 * j + doy;
    var over := if 24 * c + q + 365 * j + doy >= 1460 then 1 else 0;
    Corrections(c, q, j, doy);
    ModIs(n, 4, 25 * c + q, j);
    ModIs(n, 100, c, 4 * q + j);
    ModIs(365 * n + doy - over, 365, n, doy - over);
  }

  /** The position of a day inside its era, year by year. */
  lemma SplitEra(doe: int) returns (c: int, q: int, j: int, doy: int)
    requires 0 <= doe <= 146096
    ensures InEra(c, q, j, doy)
    ensures doe == 36524 * c + 1461 * q + 365 * j + doy
  {
    c := if doe / 36524 > 3 then 3 else doe / 36524;
    var r := doe - 36524 * c;
    q := if r / 1461 > 24 then 24 else r / 1461;
    var s := r - 1461 * q;
    j := if s / 365 > 3 then 3 else s / 365;
    doy := s - 365 * j;
  }

  lemma EraYear(era: int, c: int, q: int, j: int)
    requires 0 <= c <= 3 && 0 <= q <= 24 && 0 <= j <= 3
    ensures var y := 400 * era + 100 * c + 4 * q + j;
      && YearStart(y) == 146097 * era + 36524 * c + 1461 * q + 365 * j
      && (IsLeap(y + 1) <==> j == 3 && (q < 24 || c == 3))
  {
    var y := 400 * era + 100 * c + 4 * q + j;
    assert y / 4 == 100 * era + 25 * c + q && y / 100 == 4 * era + c && y / 400 == era;
    assert (y + 1) % 4 == 0 <==> j == 3;
    assert (y + 1) % 100 == 0 <==> j == 3 && q == 24;
    assert (y + 1) % 400 == 0 <==> j == 3 && q == 24 && c == 3;
  }

  lemma SplitYear(y: int) returns (era: int, c: int, q: int, j: int)
    ensures 0 <= c <= 3 && 0 <= q <= 24 && 0 <= j <= 3
    ensures y == 400 * era + 100 * c + 4 * q + j
  {
    era := y / 400;
    var n := y % 400;
    c := n / 100;
    var r := n % 100;
    q, j := r / 4, r % 4;
  }

  /** `Civil` finds year, month and day of any day of any year. */
  lemma CivilIs(y: int, doy: int)
    requires 0 <= doy < YearLength(y)
    ensures var mp := (5 * doy + 2) / 153;
      var month := if mp < 10 then mp + 3 else mp - 9;
      Civil(YearStart(y) + doy) == (if month <= 2 then y + 1 else y, month, doy - MonthStart(mp) + 1)
  {
    hide YearOfEra, DayOfYear, YearStart, TruncDiv;
    var era, c, q, j := SplitYear(y);
    EraYear(era, c, q, j);
    YearFound(c, q, j, doy);
    var z, doe := YearStart(y) + doy, 36524 * c + 1461 * q + 365 * j + doy;
    assert z == 146097 * era + doe;
    EraOf(z, era, doe);
  }

  lemma EraOf(z: int, era: int, doe: int)
    requires z == 146097 * era + doe && 0 <= doe <= 146096
    ensures TruncDiv(if z >= 0 then z else z - 146096, 146097) == era
  {
    if z >= 0 {
      ModIs(z, 146097, era, doe);
    } else {
      ModIs(146096 - z, 146097, -era, 146096 - doe);
    }
  }

  lemma FindYear(z: int) returns (y: int, doy: int)
    ensures 0 <= doy < YearLength(y) && z == YearStart(y) + doy
  {
    var c, q, j, d := SplitEra(z % 146097);
    EraYear(z / 146097, c, q, j);
    y, doy := 400 * (z / 146097) + 100 * c + 4 * q + j, d;
  }

  /** The two month formulas agree. */
  lemma MonthFormulas(mp: int)
    requires 0 <= mp <= 11
    ensures (mp * 62719 + 769) / 2048 == MonthStart(mp)
  {
    assert mp == 0 || mp == 1 || mp == 2 || mp == 3 || mp == 4 || mp == 5 ||
           mp == 6 || mp == 7 || mp == 8 || mp == 9 || mp == 10 || mp == 11;
  }

  lemma TwelveEras(y: int)
    ensures YearStart(y + 4800) == YearStart(y) + 1753164
  {
    assert (y + 4800) / 4 == y / 4 + 1200 && (y + 4800) / 100 == y / 100 + 48 && (y + 4800) / 400 == y / 400 + 12;
  }

  lemma DayNumberIs(year: nat, month: nat, day: nat)
    requires 1 <= month <= 12
    ensures DayNumber(year, month, day) == YearStart(MarchYear(year, month)) + MonthStart(MarchMonth(month)) + day - 1 - 719468
  {
    hide YearStart, MonthStart;
    MonthFormulas(MarchMonth(month));
    TwelveEras(MarchYear(year, month));
    MarchBased(month);
    assert year + 4800 - (if month <= 2 then 1 else 0) == MarchYear(year, month) + 4800;
    YearStartIs(MarchYear(year, month) + 4800);
  }

  lemma YearStartIs(y: int)
    ensures YearStart(y) == y * 365 + (y / 4 - y / 100 + y / 400)
  {
  }

  /** The wrapping subtraction and addition on the month. */
  lemma MarchBased(month: nat)
    requires 1 <= month <= 12
    ensures var mAdj := U32(month as int - 3);
      (mAdj > month <==> month <= 2) && U32(mAdj + if mAdj > month then 12 else 0) == MarchMonth(month)
  {
  }

  lemma CivilOfDay(year: nat, month: nat, day: nat)
    requires ValidDay(year, month, day)
    ensures Civil(DayNumber(year, month, day) + 719468) == (year as int, month as int, day as int)
  {
    hide Civil, DayNumber, YearStart;
    DayNumberIs(year, month, day);
    DayInYear(year, month, day);
    CivilIs(MarchYear(year, month), MonthStart(MarchMonth(month)) + day - 1);
  }

  lemma DayOfCivil(z: int)
    ensures var (y, m, d) := Civil(z);
      ValidDay(y, m, d) && (y >= 0 ==> DayNumber(y, m, d) == z - 719468)
  {
    hide Civil, DayNumber, YearStart, YearLength;
    var y, doy := FindYear(z);
    CivilIs(y, doy);
    MonthAndDay(y, doy);
    var (year, month, day) := Civil(z);
    if year >= 0 {
      DayNumberIs(year, month, day);
    }
  }

  // --------------------------------------------------- the range of a u16 year

  const FIRST_DAY: int := -719528
  const LAST_DAY: int := 23217003

  lemma YearsGrow(a: int, b: int)
    requires a < b
    ensures YearStart(a) + 365 <= YearStart(b)
    decreases b - a
  {
    YearLengths(b - 1);
    if a < b - 1 {
      YearsGrow(a, b - 1);
    }
  }

  /** A day lies in a year of 16 bits exactly when its number lies between those of 0000-01-01 and 65535-12-31. */
  lemma YearFits(z: int)
    ensures 0 <= Civil(z).0 < 0x1_0000 <==> FIRST_DAY <= z - 719468 <= LAST_DAY
  {
    hide Civil;
    var y, doy := FindYear(z);
    CivilIs(y, doy);
    MonthAndDay(y, doy);
    assert YearStart(-1) == -366 && YearStart(0) == 0 && YearStart(65535) == 23936166 && YearLength(65535) == 366;
    assert Civil(z).0 == if doy >= 306 then y + 1 else y;
    if y > 0 { YearsGrow(0, y); }
    if y < -1 { YearsGrow(y, -1); YearLengths(y); YearsGrow(y, y + 1); if y + 1 < -1 { YearsGrow(y + 1, -1); } }
    if y > 65535 { YearsGrow(65535, y); YearLengths(65535); if y > 65536 { YearsGrow(65536, y); } }
    if y < 65535 { YearsGrow(y, 65535); YearLengths(y); if y + 1 < 65535 { YearsGrow(y + 1, 65535); } }
  }

  // ---------------------------------------------------------- both directions

  const FIRST_TIMESTAMP: int := -62167219200
  const LAST_TIMESTAMP: int := 2005949145599

  /** From 1970 on, or at midnight: elsewhere the truncated remainder of a negative timestamp leaves negative hours,
      minutes or seconds, which the casts to u8 turn into large ones. */
  predicate WholeSeconds(timestamp: int) {
    timestamp >= 0 || timestamp % 86400 == 0
  }

  function SecondsOfDay(date: UTCDate): int {
    date.hour * 3600 + date.minute * 60 + date.second
  }

  lemma TruncParts(timestamp: int)
    ensures timestamp == 86400 * TruncDiv(timestamp, 86400) + TruncMod(timestamp, 86400)
    ensures timestamp >= 0 ==> 0 <= TruncMod(timestamp, 86400) < 86400
    ensures timestamp < 0 ==> -86400 < TruncMod(timestamp, 86400) <= 0
    ensures TruncMod(timestamp, 86400) == 0 <==> timestamp % 86400 == 0
  {
    var q, r := TruncDiv(timestamp, 86400), TruncMod(timestamp, 86400);
    if timestamp < 0 {
      if r == 0 {
        ModIs(timestamp, 86400, q, 0);
      } else {
        ModIs(timestamp, 86400, q - 1, 86400 + r);
      }
    }
  }

  /** The fields of the time of day: right for a remainder that is not negative, too large by a multiple of 256
      somewhere for one that is. */
  lemma NegativeParts(k: int)
    requires 0 < k < 86400
    ensures TruncDiv(-k, 3600) == -(k / 3600) && TruncMod(TruncDiv(-k, 60), 60) == -(k / 60 % 60) && TruncMod(-k, 60) == -(k % 60)
    ensures k / 3600 < 24 && k / 3600 * 3600 + k / 60 % 60 * 60 + k % 60 == k
  {
    Clock(k);
  }

  lemma PositiveParts(k: int)
    requires 0 <= k < 86400
    ensures var (h, m, s) := (U8(TruncDiv(k, 3600)), U8(TruncMod(TruncDiv(k, 60), 60)), U8(TruncMod(k, 60)));
      h < 24 && m < 60 && s < 60 && h * 3600 + m * 60 + s == k
  {
    hide U8, TruncMod, TruncDiv;
    Clock(k);
    TruncPositive(k, 3600);
    TruncPositive(k, 60);
    TruncPositive(k / 60, 60);
    SmallU8(k / 3600);
    SmallU8(k / 60 % 60);
    SmallU8(k % 60);
  }

  lemma TruncPositive(a: nat, b: nat)
    requires b > 0
    ensures TruncDiv(a, b) == a / b && TruncMod(a, b) == a % b
  {
  }

  lemma SmallU8(x: nat)
    requires x < 256
    ensures U8(x) == x
  {
  }

  lemma NegativeU8(x: int)
    requires 0 <= x < 256
    ensures U8(-x) == if x == 0 then 0 else 256 - x
  {
  }

  lemma Clock(k: nat)
    ensures k / 60 / 60 == k / 3600 && k / 3600 * 3600 + k / 60 % 60 * 60 + k % 60 == k
  {
    var h, r := k / 3600, k % 3600;
    ModIs(k, 60, 60 * h + r / 60, r % 60);
    ModIs(60 * h + r / 60, 60, h, r / 60);
  }

  lemma TimeFields(seconds: int)
    requires -86400 < seconds < 86400
    ensures var (h, m, s) := (U8(TruncDiv(seconds, 3600)), U8(TruncMod(TruncDiv(seconds, 60), 60)), U8(TruncMod(seconds, 60)));
      && (seconds >= 0 ==> h < 24 && m < 60 && s < 60 && h * 3600 + m * 60 + s == seconds)
      && (seconds < 0 ==> h * 3600 + m * 60 + s > seconds && h * 3600 + m * 60 + s >= 0)
  {
    hide U8, TruncMod, TruncDiv;
    if seconds >= 0 {
      PositiveParts(seconds);
    } else {
      var k := -seconds;
      NegativeParts(k);
      NegativeU8(k / 3600);
      NegativeU8(k / 60 % 60);
      NegativeU8(k % 60);
    }
  }

  /** `from_timestamp`, day and time apart. */
  lemma FromTimestampParts(timestamp: int)
    ensures var (date, days, seconds) := (FromTimestamp(timestamp), TruncDiv(timestamp, 86400), TruncMod(timestamp, 86400));
      var (y, m, d) := Civil(days + 719468);
      && date.year == U16(y) && date.month == m && date.day == d && ValidDay(y, m, d)
      && (seconds >= 0 ==> date.hour < 24 && date.minute < 60 && date.second < 60 && SecondsOfDay(date) == seconds)
      && (seconds < 0 ==> SecondsOfDay(date) > seconds && SecondsOfDay(date) >= 0)
  {
    hide Civil, TruncDiv, TruncMod;
    TruncParts(timestamp);
    DayOfCivil(TruncDiv(timestamp, 86400) + 719468);
    TimeFields(TruncMod(timestamp, 86400));
  }

  lemma DayNumberRange(year: nat, month: nat, day: nat)
    requires year < 0x1_0000 && 1 <= month <= 12 && 1 <= day <= 31
    ensures FIRST_DAY <= DayNumber(year, month, day) <= LAST_DAY
  {
    hide DayNumber;
    DayNumberIs(year, month, day);
    var y, mp := MarchYear(year, month), MarchMonth(month);
    assert YearStart(-1) == -366 && YearStart(0) == 0 && YearStart(65535) == 23936166;
    assert mp <= 9 ==> 0 <= MonthStart(mp) <= 275;
    assert mp >= 10 ==> 306 <= MonthStart(mp) <= 337;
    if y > 0 { YearsGrow(0, y); }
    if y < 65535 { YearsGrow(y, 65535); }
  }

  /** Exactly which timestamps come back: those of years 0 to 65535, from 1970 on or at midnight.  Every field is then a
      valid calendar value. */
  lemma TimestampRoundTrip(timestamp: int)
    ensures Timestamp(FromTimestamp(timestamp)) == timestamp
      <==> WholeSeconds(timestamp) && FIRST_TIMESTAMP <= timestamp <= LAST_TIMESTAMP
    ensures WholeSeconds(timestamp) && FIRST_TIMESTAMP <= timestamp <= LAST_TIMESTAMP ==> ValidDate(FromTimestamp(timestamp))
  {
    hide Civil, DayNumber, FromTimestamp, TruncDiv, TruncMod;
    var days, seconds := TruncDiv(timestamp, 86400), TruncMod(timestamp, 86400);
    var date := FromTimestamp(timestamp);
    TruncParts(timestamp);
    FromTimestampParts(timestamp);
    DayOfCivil(days + 719468);
    YearFits(days + 719468);
    NoZone(timestamp);
    DayNumberRange(date.year, date.month, date.day);
  }

  lemma NoZone(timestamp: int)
    ensures var date := FromTimestamp(timestamp);
      !date.tzBeforeGmt && date.tzHour == 0 && date.tzMinute == 0
      && Timestamp(date) == DayNumber(date.year, date.month, date.day) * 86400 + SecondsOfDay(date)
  {
    hide Civil, DayNumber, TruncDiv, TruncMod;
  }

  /** Which valid dates come back: all from 1970 on, and before that the ones at midnight. */
  lemma DateRoundTrip(date: UTCDate)
    requires ValidDate(date)
    ensures FromTimestamp(Timestamp(date)) == date <==> date.year >= 1970 || SecondsOfDay(date) == 0
  {
    hide Civil, DayNumber, FromTimestamp, TruncDiv, TruncMod, Timestamp;
    var days, t := DayNumber(date.year, date.month, date.day), Timestamp(date);
    TimestampParts(date);
    TimestampRoundTrip(t);
    DayNumberRange(date.year, date.month, date.day);
    EpochYear(date.year, date.month, date.day);
    if date.year >= 1970 || SecondsOfDay(date) == 0 {
      ModIs(t, 86400, days, SecondsOfDay(date));
      SplitTime(t, days, SecondsOfDay(date));
      CivilOfDay(date.year, date.month, date.day);
      FromTimestampParts(t);
      NoZone(t);
      SameTime(FromTimestamp(t), date);
    } else {
      ModIs(t, 86400, days, SecondsOfDay(date));
    }
  }

  /** A clock that is ahead of Greenwich, or behind it, by some hours and minutes names the same instant as the clock in
      Greenwich. */
  lemma SameInstant(date: UTCDate, hours: nat, minutes: nat)
    ensures date.tzHour == 0 && date.tzMinute == 0 ==>
      && Timestamp(date.(hour := date.hour + hours, minute := date.minute + minutes, tzBeforeGmt := false, tzHour := hours,
                         tzMinute := minutes)) == Timestamp(date)
      && (hours <= date.hour && minutes <= date.minute ==>
            Timestamp(date.(hour := date.hour - hours, minute := date.minute - minutes, tzBeforeGmt := true,
                            tzHour := hours, tzMinute := minutes)) == Timestamp(date))
  {
    hide DayNumber;
  }

  lemma TimestampParts(date: UTCDate)
    requires ValidDate(date)
    ensures Timestamp(date) == DayNumber(date.year, date.month, date.day) * 86400 + SecondsOfDay(date)
    ensures 0 <= SecondsOfDay(date) < 86400
  {
    hide DayNumber;
  }

  lemma SplitTime(t: int, days: int, seconds: int)
    requires t == days * 86400 + seconds && 0 <= seconds < 86400 && (days >= 0 || seconds == 0)
    ensures TruncDiv(t, 86400) == days && TruncMod(t, 86400) == seconds
  {
    if t >= 0 {
      ModIs(t, 86400, days, seconds);
    } else {
      ModIs(-t, 86400, -days, 0);
    }
  }

  lemma SameTime(a: UTCDate, b: UTCDate)
    requires a.hour < 24 && a.minute < 60 && a.second < 60 && b.hour < 24 && b.minute < 60 && b.second < 60
    requires SecondsOfDay(a) == SecondsOfDay(b)
    ensures a.hour == b.hour && a.minute == b.minute && a.second == b.second
  {
    ModIs(SecondsOfDay(a), 3600, a.hour, a.minute * 60 + a.second);
    ModIs(SecondsOfDay(a), 3600, b.hour, b.minute * 60 + b.second);
    ModIs(a.minute * 60 + a.second, 60, a.minute, a.second);
    ModIs(a.minute * 60 + a.second, 60, b.minute, b.second);
  }

  lemma EpochYear(year: nat, month: nat, day: nat)
    requires ValidDay(year, month, day)
    ensures DayNumber(year, month, day) >= 0 <==> year >= 1970
  {
    hide DayNumber, YearStart;
    DayNumberIs(year, month, day);
    DayInYear(year, month, day);
    var y := MarchYear(year, month);
    YearLengths(y);
    assert YearStart(1969) == 719162 && YearStart(1970) == 719527 by { Starts(); }
    if y > 1970 { YearsGrow(1970, y); }
    if y < 1969 { YearsGrow(y, 1969); YearStep(y, 1969); }
  }

  lemma YearStep(y: int, later: int)
    requires y < later
    ensures YearStart(y) + YearLength(y) <= YearStart(later)
  {
    YearLengths(y);
    if y + 1 < later {
      YearsGrow(y + 1, later);
    }
  }

  lemma Starts()
    ensures YearStart(1969) == 719162 && YearStart(1970) == 719527
  {
  }
}
