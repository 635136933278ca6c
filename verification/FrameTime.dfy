/** Times in a data frame header: 4 ns ticks since 1 Jan 2000, stored in mixed radix with BCD years and days. */
module FrameTime {
  import opened MachineInts
  import opened DataFormat

  const TICKS_PER_SECOND: int := 250_000_000
  const TICKS_PER_FRAME: int := 31_250       // 125 microseconds
  const TICKS_PER_MS: int := 250_000
  const SECONDS_PER_DAY: int := 86_400

  /** A tick is 4 ns, a frame 125 microseconds, a millisecond a thousandth of a second, a day 24 hours. */
  lemma Units()
    ensures 4 * TICKS_PER_SECOND == 1_000_000_000
    ensures 8_000 * TICKS_PER_FRAME == TICKS_PER_SECOND && 1_000 * TICKS_PER_MS == TICKS_PER_SECOND
    ensures SECONDS_PER_DAY == 24 * 60 * 60
  {
  }

  // ---- Calendar -----------------------------------------------------------------------------

  /** Year `y` counts from 2000, in the Gregorian calendar. */
  predicate IsLeap(y: nat) {
    (2000 + y) % 4 == 0 && ((2000 + y) % 100 != 0 || (2000 + y) % 400 == 0)
  }

  function YearLength(y: nat): nat {
    if IsLeap(y) then 366 else 365
  }

  /** Days from 1 Jan 2000 to 1 Jan of year `y`. */
  function DaysBefore(y: nat): nat {
    if y == 0 then 0 else DaysBefore(y - 1) + YearLength(y - 1)
  }

  /** The year in which day `day` since 1 Jan 2000 falls, searched from year `from` on. */
  function YearOf(day: nat, from: nat): (y: nat)
    requires DaysBefore(from) <= day
    ensures DaysBefore(y) <= day < DaysBefore(y + 1)
    decreases day - DaysBefore(from)
  {
    if day < DaysBefore(from + 1) then from else YearOf(day, from + 1)
  }

  lemma {:induction false} DaysBeforeMonotone(a: nat, b: nat)
    requires a <= b
    ensures DaysBefore(a) + 365 * (b - a) <= DaysBefore(b)
  {
    if a == b {
    } else {
      DaysBeforeMonotone(a, b - 1);
    }
  }

  /** A day falls in one year only, and the search finds it wherever it starts. */
  lemma YearOfIsTheYear(day: nat, from: nat, y: nat)
    requires DaysBefore(from) <= day
    ensures y == YearOf(day, from) <==> DaysBefore(y) <= day < DaysBefore(y + 1)
  {
    hide DaysBefore;
    var z := YearOf(day, from);
    if y < z {
      DaysBeforeMonotone(y + 1, z);
    } else if z < y {
      DaysBeforeMonotone(z + 1, y);
    }
  }

  /** Within the century the leap days before a year are one per started four years. */
  lemma {:induction false} CenturyDays(y: nat)
    requires y <= 100
    ensures DaysBefore(y) == 365 * y + (y + 3) / 4
  {
    if y == 0 {
    } else {
      CenturyDays(y - 1);
      LeapInCentury(y - 1);
    }
  }

  lemma LeapInCentury(y: nat)
    requires y < 100
    ensures IsLeap(y) <==> y % 4 == 0
  {
    assert (2000 + y) % 4 == y % 4;
    assert (2000 + y) % 100 == y;
  }

  // ---- Reading a header's time --------------------------------------------------------------

  function GetYears(h: DataFrameHeader): int {
    h.years % 16 + (10 * (h.years / 16 % 16 * 16)) / 16
  }

  function GetDays(h: DataFrameHeader): int {
    h.days % 16 + (10 * (h.days / 16 % 16 * 16)) / 16 + (100 * (h.days / 256 % 4 * 256)) / 256
  }

  function GetDayTime(h: DataFrameHeader): int {
    h.seconds * TICKS_PER_SECOND + h.frameCounter * TICKS_PER_FRAME + h.t4ns
  }

  function GetYearTime(h: DataFrameHeader): int {
    ToUInt32(SECONDS_PER_DAY * GetDays(h)) * TICKS_PER_SECOND + GetDayTime(h)
  }

  /** Ticks since 1 Jan 2000; the seconds before the year are computed in 32 bits. */
  function GetFullTime(h: DataFrameHeader): int {
    var years := GetYears(h);
    var leapDays := years / 4 + 1 - (if years % 4 == 0 then 1 else 0);
    ToUInt32(31_536_000 * years + SECONDS_PER_DAY * leapDays) * TICKS_PER_SECOND + GetYearTime(h)
  }

  // ---- Storing a time -----------------------------------------------------------------------

  /** `AssertionFailed`: the C++ code stops at one of its assertions. */
  datatype Stored = Done(header: DataFrameHeader) | AssertionFailed

  /** Decimal digits packed four bits each, cut to the width of the field. */
  function BcdOfDays(gregorian: nat): int {
    (gregorian / 100 * 0x100 + gregorian % 100 / 10 * 0x10 + gregorian % 10) % 0x400
  }

  function BcdOfYears(year: nat): int {
    (year / 10 * 0x10 + year % 10) % 0x100
  }

  function SetDays(gregorian: Word, h: DataFrameHeader): Stored {
    if gregorian >= 367 then AssertionFailed
    else Done(h.(days := BcdOfDays(gregorian)))
  }

  function SetYears(year: Word, h: DataFrameHeader): Stored {
    if year >= 100 then AssertionFailed
    else Done(h.(years := BcdOfYears(year)))
  }

  function SetDayTime(time: int, h: DataFrameHeader): Stored {
    if time >= SECONDS_PER_DAY * TICKS_PER_SECOND then AssertionFailed
    else
      var secs := TruncDiv(time, TICKS_PER_SECOND);
      var inSecond := time - secs * TICKS_PER_SECOND;
      var frames := TruncDiv(inSecond, TICKS_PER_FRAME);
      Done(h.(seconds := secs % 0x2_0000, frameCounter := frames % 0x2000,
              t4ns := (inSecond - frames * TICKS_PER_FRAME) % 0x1_0000))
  }

  function SetYearTime(time: int, h: DataFrameHeader): Stored {
    var gregorian := TruncDiv(time, SECONDS_PER_DAY * TICKS_PER_SECOND);
    match SetDays(ToUInt32(gregorian), h)
    case AssertionFailed => AssertionFailed
    case Done(h') => SetDayTime(time - gregorian * SECONDS_PER_DAY * TICKS_PER_SECOND, h')
  }

  /**
   Store a time since 1 Jan 2000. The calendar library holds the whole seconds in a signed 32-bit
   integer; a date before 2000 gives a year whose unsigned distance from 2000 is not below 100.
   */
  function SetFullTime(time: int, h: DataFrameHeader): Stored {
    var s := TruncDiv(time, TICKS_PER_SECOND);
    var held := ToInt32(s);
    if held < 0 then AssertionFailed
    else
      var year := YearOf(held / SECONDS_PER_DAY, 0);
      if year >= 100 then AssertionFailed
      else
        match SetYears(year, h)
        case AssertionFailed => AssertionFailed
        case Done(h') =>
          var inYear := held - SECONDS_PER_DAY * DaysBefore(year);
          SetYearTime(inYear * TICKS_PER_SECOND + (time - s * TICKS_PER_SECOND), h')
  }

  // ---- Canonical headers --------------------------------------------------------------------

  /** The stored time fields are digits and counts in range, and the day exists in the year. */
  predicate Canonical(h: DataFrameHeader) {
    && 0 <= h.years < 0x100 && h.years % 16 < 10 && h.years / 16 < 10
    && 0 <= h.days < 0x400 && h.days % 16 < 10 && h.days / 16 % 16 < 10
    && GetDays(h) < YearLength(GetYears(h))
    && 0 <= h.seconds < SECONDS_PER_DAY && 0 <= h.frameCounter < 8000 && 0 <= h.t4ns < TICKS_PER_FRAME
  }

  lemma BcdYears(y: nat)
    requires y < 100
    ensures var stored := BcdOfYears(y);
            0 <= stored < 0x100 && stored % 16 == y % 10 && stored / 16 == y / 10
  {
  }

  lemma BcdDays(d: nat)
    requires d < 367
    ensures var stored := BcdOfDays(d);
            && 0 <= stored < 0x400 && stored % 16 == d % 10 && stored / 16 % 16 == d % 100 / 10
            && stored / 256 == d / 100
  {
    ThreeDigits(d / 100, d % 100 / 10, d % 10);
  }

  lemma ThreeDigits(hundreds: nat, tens: nat, units: nat)
    requires hundreds < 4 && tens < 10 && units < 10
    ensures var stored := hundreds * 0x100 + tens * 0x10 + units;
            stored < 0x400 && stored % 16 == units && stored / 16 % 16 == tens && stored / 256 == hundreds
  {
    var stored := hundreds * 0x100 + tens * 0x10 + units;
    assert stored / 16 == hundreds * 0x10 + tens;
  }

  /** The two BCD readers, on fields within their widths, as sums of weighted digits. */
  lemma YearsRead(h: DataFrameHeader)
    requires 0 <= h.years < 0x100
    ensures GetYears(h) == h.years % 16 + 10 * (h.years / 16)
  {
    assert h.years / 16 % 16 == h.years / 16;
  }

  lemma DaysRead(h: DataFrameHeader)
    requires 0 <= h.days < 0x400
    ensures GetDays(h) == h.days % 16 + 10 * (h.days / 16 % 16) + 100 * (h.days / 256)
  {
    assert h.days / 256 % 4 == h.days / 256;
  }

  lemma SmallWord(n: nat)
    requires n < TWO32
    ensures ToUInt32(n) == n
  {
  }

  /** The seconds before a year of the century, computed in 32 bits, are those of the calendar. */
  lemma SecondsBefore(years: nat)
    requires years < 100
    ensures var leapDays := years / 4 + 1 - (if years % 4 == 0 then 1 else 0);
            ToUInt32(31_536_000 * years + SECONDS_PER_DAY * leapDays) == SECONDS_PER_DAY * DaysBefore(years)
  {
    hide DaysBefore, ToUInt32;
    CenturyDays(years);
    var leapDays := years / 4 + 1 - (if years % 4 == 0 then 1 else 0);
    assert leapDays == (years + 3) / 4;
    SmallWord(31_536_000 * years + SECONDS_PER_DAY * leapDays);
  }

  /** A canonical header's time, by the calendar. */
  lemma FullTimeByCalendar(h: DataFrameHeader)
    requires Canonical(h)
    ensures 0 <= GetYears(h) < 100 && 0 <= GetDays(h) < 366
    ensures GetFullTime(h)
         == ((DaysBefore(GetYears(h)) + GetDays(h)) * SECONDS_PER_DAY + h.seconds) * TICKS_PER_SECOND
          + h.frameCounter * TICKS_PER_FRAME + h.t4ns
  {
    hide GetYears, GetDays, DaysBefore, IsLeap, ToUInt32;
    YearsRead(h);
    DaysRead(h);
    SecondsBefore(GetYears(h));
    SmallWord(SECONDS_PER_DAY * GetDays(h));
  }

  // ---- Storing and reading back -------------------------------------------------------------

  /** Storing a time of day keeps it, in canonical counts. */
  lemma DayTimeStored(time: int, h: DataFrameHeader)
    requires 0 <= time < SECONDS_PER_DAY * TICKS_PER_SECOND
    ensures SetDayTime(time, h).Done?
    ensures var h' := SetDayTime(time, h).header;
            && h' == h.(seconds := h'.seconds, frameCounter := h'.frameCounter, t4ns := h'.t4ns)
            && 0 <= h'.seconds < SECONDS_PER_DAY && 0 <= h'.frameCounter < 8000 && 0 <= h'.t4ns < TICKS_PER_FRAME
            && GetDayTime(h') == time
  {
  }

  const DAY_TICKS := SECONDS_PER_DAY * TICKS_PER_SECOND

  lemma YearTimeSplits(day: nat, rest: nat, h: DataFrameHeader)
    requires day < 366 && rest < DAY_TICKS
    ensures SetYearTime(day * DAY_TICKS + rest, h) == SetDayTime(rest, h.(days := BcdOfDays(day)))
  {
    hide SetDayTime, BcdOfDays, ToUInt32;
    assert TruncDiv(day * DAY_TICKS + rest, SECONDS_PER_DAY * TICKS_PER_SECOND) == day;
    SmallWord(day);
  }

  /** The days field holds the BCD digits of a day, which the reader turns back into that day. */
  lemma DaysReadBack(day: nat, h: DataFrameHeader)
    requires day < 367 && h.days == BcdOfDays(day)
    ensures 0 <= h.days < 0x400 && h.days % 16 < 10 && h.days / 16 % 16 < 10 && GetDays(h) == day
  {
    hide BcdOfDays, GetDays;
    BcdDays(day);
    DaysRead(h);
    ThreeDecimals(day);
  }

  lemma ThreeDecimals(n: nat)
    ensures n % 10 + 10 * (n % 100 / 10) + 100 * (n / 100) == n
    ensures n % 10 < 10 && n % 100 / 10 < 10
  {
    assert n % 10 == n % 100 % 10;
  }

  lemma YearsReadBack(year: nat, h: DataFrameHeader)
    requires year < 100 && h.years == BcdOfYears(year)
    ensures 0 <= h.years < 0x100 && h.years % 16 < 10 && h.years / 16 < 10 && GetYears(h) == year
  {
    hide BcdOfYears, GetYears;
    BcdYears(year);
    YearsRead(h);
  }

  /** The two headers differ at most in their time fields. */
  predicate SameFrame(g: DataFrameHeader, h: DataFrameHeader) {
    g == h.(years := g.years, days := g.days, seconds := g.seconds, frameCounter := g.frameCounter, t4ns := g.t4ns)
  }

  const LAST_TICK := 0x8000_0000 * TICKS_PER_SECOND

  /** Storing a time whose seconds fit a signed 32-bit integer gives a canonical header with that time. */
  lemma FullTimeStored(time: int, h: DataFrameHeader)
    requires 0 <= time < LAST_TICK
    ensures SetFullTime(time, h).Done?
    ensures var h' := SetFullTime(time, h).header;
            Canonical(h') && SameFrame(h', h) && GetFullTime(h') == time
  {
    hide SetYearTime, SetDayTime, GetDays, GetYears, GetDayTime, DaysBefore, GetFullTime, YearLength, YearOf,
         BcdOfDays, BcdOfYears, SetFullTime;
    var s := time / TICKS_PER_SECOND;
    var day := s / SECONDS_PER_DAY;
    Epoch();
    var year := YearOf(day, 0);
    YearInRange(day, year);
    DayOfYear(day, year);
    var inDay := (s - day * SECONDS_PER_DAY) * TICKS_PER_SECOND + (time - s * TICKS_PER_SECOND);
    var h1 := h.(years := BcdOfYears(year));
    var h2 := h1.(days := BcdOfDays(day - DaysBefore(year)));
    FullTimeSplits(time, h, s, day, year);
    YearTimeSplits(day - DaysBefore(year), inDay, h1);
    DayTimeStored(inDay, h2);
    var h' := SetDayTime(inDay, h2).header;
    YearsReadBack(year, h');
    DaysReadBack(day - DaysBefore(year), h');
    FullTimeByCalendar(h');
    DayTimeParts(h');
  }

  lemma DayTimeParts(h: DataFrameHeader)
    ensures GetDayTime(h) == h.seconds * TICKS_PER_SECOND + h.frameCounter * TICKS_PER_FRAME + h.t4ns
  {
  }

  lemma FullTimeSplits(time: nat, h: DataFrameHeader, s: nat, day: nat, year: nat)
    requires time < LAST_TICK && s == time / TICKS_PER_SECOND && day == s / SECONDS_PER_DAY
    requires DaysBefore(0) == 0 && year == YearOf(day, 0) && year < 69
    ensures var inDay := (s - day * SECONDS_PER_DAY) * TICKS_PER_SECOND + (time - s * TICKS_PER_SECOND);
            && 0 <= inDay < DAY_TICKS
            && SetFullTime(time, h)
            == SetYearTime((day - DaysBefore(year)) * DAY_TICKS + inDay, h.(years := BcdOfYears(year)))
  {
    hide SetYearTime, DaysBefore, YearLength, YearOf, BcdOfYears, ToInt32;
    assert s < 0x8000_0000;
    assert ToInt32(s) == s;
  }

  lemma Epoch()
    ensures DaysBefore(0) == 0
  {
  }

  lemma DayOfYear(day: nat, year: nat)
    requires DaysBefore(year) <= day < DaysBefore(year + 1)
    ensures day - DaysBefore(year) < YearLength(year) <= 366
  {
  }

  lemma YearInRange(day: nat, year: nat)
    requires day < 24_856 && DaysBefore(year) <= day < DaysBefore(year + 1)
    ensures year < 69
  {
    if year >= 69 {
      DaysBeforeMonotone(69, year);
      CenturyDays(69);
    }
  }

  /** A read time is never negative. */
  lemma FullTimeNonNegative(h: DataFrameHeader)
    requires FitsWidths(h)
    ensures GetFullTime(h) >= 0
  {
    hide GetYears, GetDays;
  }

  /** Stored fields always fit their widths. */
  lemma StoredFits(time: int, h: DataFrameHeader)
    requires FitsWidths(h) && SetFullTime(time, h).Done?
    ensures FitsWidths(SetFullTime(time, h).header)
  {
    hide YearOf, DaysBefore;
  }

  /**
   Whatever time is stored, reading it back gives that time if and only if it is not negative and its
   whole seconds fit a signed 32-bit integer, that is, up to 19 Jan 2068.
   */
  lemma FullTimeRoundTrip(time: int, h: DataFrameHeader)
    requires FitsWidths(h)
    ensures SetFullTime(time, h).Done? && GetFullTime(SetFullTime(time, h).header) == time <==> 0 <= time < LAST_TICK
  {
    hide GetFullTime, SetFullTime, FitsWidths, Canonical, SameFrame;
    if 0 <= time < LAST_TICK {
      FullTimeStored(time, h);
    } else if SetFullTime(time, h).Done? {
      StoredFits(time, h);
      FullTimeNonNegative(SetFullTime(time, h).header);
      if time >= LAST_TICK {
        var s := time / TICKS_PER_SECOND;
        var held := ToInt32(s) * TICKS_PER_SECOND + (time - s * TICKS_PER_SECOND);
        LateTimesWrap(time, h);
        FullTimeStored(held, h);
      }
    }
  }

  /**
   A time past the limit stops at an assertion exactly when its seconds wrap to a negative number, and
   is silently stored as the earlier time its seconds wrap to otherwise.
   */
  lemma LateTimesWrap(time: int, h: DataFrameHeader)
    requires time >= LAST_TICK
    ensures var s := time / TICKS_PER_SECOND;
            var held := ToInt32(s) * TICKS_PER_SECOND + (time - s * TICKS_PER_SECOND);
            && (SetFullTime(time, h).Done? <==> ToInt32(s) >= 0)
            && (ToInt32(s) >= 0 ==> 0 <= held < LAST_TICK && SetFullTime(time, h) == SetFullTime(held, h))
  {
    hide SetYearTime, SetYears, DaysBefore, YearOf, ToInt32;
    var s := time / TICKS_PER_SECOND;
    var w := ToInt32(s);
    if w >= 0 {
      var held := w * TICKS_PER_SECOND + (time - s * TICKS_PER_SECOND);
      assert ToInt32(w) == w;
      assert held / TICKS_PER_SECOND == w;
      FullTimeStored(held, h);
    }
  }

  /** 2^32 seconds after the epoch, in the year 2136, is stored as the epoch, without any complaint. */
  lemma LateTimeExample(h: DataFrameHeader)
    ensures SetFullTime(TWO32 * TICKS_PER_SECOND, h) == SetFullTime(0, h)
    ensures SetFullTime(0, h).Done? && GetFullTime(SetFullTime(0, h).header) == 0
  {
    hide SetFullTime, GetFullTime, Canonical, SameFrame;
    LateTimesWrap(TWO32 * TICKS_PER_SECOND, h);
    FullTimeStored(0, h);
  }

  /** Reading a canonical header and storing the time read into any header copies the time fields. */
  lemma StoreReadBack(h: DataFrameHeader, g: DataFrameHeader)
    requires Canonical(h) && GetFullTime(h) < LAST_TICK
    ensures SetFullTime(GetFullTime(h), g)
         == Done(g.(years := h.years, days := h.days, seconds := h.seconds,
                   frameCounter := h.frameCounter, t4ns := h.t4ns))
  {
    hide GetFullTime, SetFullTime, Canonical, DaysBefore;
    CanonicalTimeNonNegative(h);
    FullTimeStored(GetFullTime(h), g);
    var g' := SetFullTime(GetFullTime(h), g).header;
    SameTimeSameFields(h, g');
  }

  lemma CanonicalTimeNonNegative(h: DataFrameHeader)
    requires Canonical(h)
    ensures GetFullTime(h) >= 0
  {
    hide GetFullTime, GetYears, GetDays, DaysBefore, YearLength;
    FullTimeByCalendar(h);
  }

  // ---- Order --------------------------------------------------------------------------------

  /** The order of the stored fields, most significant first, compared as they are stored. */
  predicate StoredBefore(g: DataFrameHeader, h: DataFrameHeader) {
    g.years < h.years || (g.years == h.years && (
    g.days < h.days || (g.days == h.days && (
    g.seconds < h.seconds || (g.seconds == h.seconds && (
    g.frameCounter < h.frameCounter || (g.frameCounter == h.frameCounter && g.t4ns < h.t4ns)))))))
  }

  predicate SameStoredTime(g: DataFrameHeader, h: DataFrameHeader) {
    g.years == h.years && g.days == h.days && g.seconds == h.seconds
    && g.frameCounter == h.frameCounter && g.t4ns == h.t4ns
  }

  /** BCD order is number order. */
  lemma BcdOrder(g: DataFrameHeader, h: DataFrameHeader)
    requires Canonical(g) && Canonical(h)
    ensures g.years < h.years ==> GetYears(g) < GetYears(h)
    ensures g.years == h.years ==> GetYears(g) == GetYears(h)
    ensures g.days < h.days ==> GetDays(g) < GetDays(h)
    ensures g.days == h.days ==> GetDays(g) == GetDays(h)
  {
    hide GetYears, GetDays, YearLength;
    YearsRead(g);
    YearsRead(h);
    DaysRead(g);
    DaysRead(h);
    if g.years < h.years {
      YearDigits(g.years, h.years);
    }
    if g.days < h.days {
      DayDigits(g.days, h.days);
    }
  }

  lemma YearDigits(a: nat, b: nat)
    requires a < b && a % 16 < 10
    ensures a % 16 + 10 * (a / 16) < b % 16 + 10 * (b / 16)
  {
    DigitsOrder(a % 16, a / 16, b % 16, b / 16);
  }

  lemma DayDigits(a: nat, b: nat)
    requires a < b && a % 16 < 10 && a / 16 % 16 < 10
    ensures a % 16 + 10 * (a / 16 % 16) + 100 * (a / 256) < b % 16 + 10 * (b / 16 % 16) + 100 * (b / 256)
  {
    assert a / 16 / 16 == a / 256 && b / 16 / 16 == b / 256;
    if a / 16 == b / 16 {
    } else {
      DigitsOrder(a % 16, a / 16, b % 16, b / 16);
      DigitsOrder(a / 16 % 16, a / 256, b / 16 % 16, b / 256);
    }
  }

  /** Of two numbers in base 16 with a decimal last digit, the smaller is no greater when read in base 10. */
  lemma DigitsOrder(a: nat, high: nat, b: nat, highB: nat)
    requires a < 10 && b < 16 && a + 16 * high < b + 16 * highB
    ensures a + 10 * high < b + 10 * highB
  {
    if high < highB {
    } else {
      assert high == highB;
    }
  }

  lemma TimeGrows(g: DataFrameHeader, h: DataFrameHeader)
    requires Canonical(g) && Canonical(h) && StoredBefore(g, h)
    ensures GetFullTime(g) < GetFullTime(h)
  {
    hide GetFullTime, GetYears, GetDays, DaysBefore, YearLength;
    FullTimeByCalendar(g);
    FullTimeByCalendar(h);
    BcdOrder(g, h);
    var dayG := DaysBefore(GetYears(g)) + GetDays(g);
    var dayH := DaysBefore(GetYears(h)) + GetDays(h);
    if g.years < h.years {
      NextYear(GetYears(g), GetYears(h));
      assert dayG < dayH;
    }
    assert dayG < dayH || (dayG == dayH && g.seconds * 1 <= h.seconds);
  }

  lemma NextYear(y: nat, z: nat)
    requires y < z
    ensures DaysBefore(y) + YearLength(y) <= DaysBefore(z)
  {
    DaysBeforeMonotone(y + 1, z);
  }

  lemma SameTimeSameFields(g: DataFrameHeader, h: DataFrameHeader)
    requires Canonical(g) && Canonical(h) && GetFullTime(g) == GetFullTime(h)
    ensures SameStoredTime(g, h)
  {
    hide GetFullTime, Canonical;
    if StoredBefore(g, h) {
      TimeGrows(g, h);
    } else if StoredBefore(h, g) {
      TimeGrows(h, g);
    }
  }

  /** On canonical headers time order is exactly the order of the stored fields; equal times, equal fields. */
  lemma TimeOrderIsStoredOrder(g: DataFrameHeader, h: DataFrameHeader)
    requires Canonical(g) && Canonical(h)
    ensures GetFullTime(g) < GetFullTime(h) <==> StoredBefore(g, h)
    ensures GetFullTime(g) == GetFullTime(h) <==> SameStoredTime(g, h)
  {
    hide GetFullTime, Canonical;
    if StoredBefore(g, h) {
      TimeGrows(g, h);
    } else if StoredBefore(h, g) {
      TimeGrows(h, g);
    } else {
      SameFieldsSameTime(g, h);
    }
  }

  lemma SameFieldsSameTime(g: DataFrameHeader, h: DataFrameHeader)
    requires Canonical(g) && Canonical(h) && SameStoredTime(g, h)
    ensures GetFullTime(g) == GetFullTime(h)
  {
    hide GetFullTime, GetYears, GetDays, DaysBefore, YearLength;
    FullTimeByCalendar(g);
    FullTimeByCalendar(h);
    BcdOrder(g, h);
  }

  /** The time slice a frame falls in, for slices of `sliceMs` milliseconds. */
  function TimesliceId(h: DataFrameHeader, sliceMs: int): int
    requires sliceMs > 0
  {
    TruncDiv(TruncDiv(GetFullTime(h), TICKS_PER_MS), sliceMs)
  }

  /** Slice `k` is the half-open interval of times that it numbers, and slice numbers never decrease with time. */
  lemma TimesliceInterval(h: DataFrameHeader, sliceMs: int)
    requires Canonical(h) && sliceMs > 0
    ensures var k := TimesliceId(h, sliceMs);
            k >= 0 && k * sliceMs * 250_000 <= GetFullTime(h) < (k + 1) * sliceMs * 250_000
  {
    hide GetFullTime, Canonical, TruncDiv;
    CanonicalTimeNonNegative(h);
    var ms := TruncDiv(GetFullTime(h), TICKS_PER_MS);
    var k := TruncDiv(ms, sliceMs);
    QuotientNonNegative(GetFullTime(h), TICKS_PER_MS);
    QuotientNonNegative(ms, sliceMs);
    OneMore(k, sliceMs);
    InTicks(GetFullTime(h), ms, k * sliceMs, sliceMs);
  }

  lemma QuotientNonNegative(a: int, b: int)
    requires a >= 0 && b > 0
    ensures TruncDiv(a, b) >= 0
  {
    hide TruncDiv;
    var q := TruncDiv(a, b);
    OneMore(q, b);
    if q < 0 {
      NotPositive(q + 1, b);
    }
  }

  lemma NotPositive(x: int, y: int)
    requires x <= 0 && y > 0
    ensures x * y <= 0
  {
  }

  lemma OneMore(k: int, n: int)
    ensures (k + 1) * n == k * n + n
  {
  }

  lemma InTicks(ticks: int, ms: int, start: int, sliceMs: int)
    requires ms * TICKS_PER_MS <= ticks < ms * TICKS_PER_MS + TICKS_PER_MS && start <= ms < start + sliceMs
    ensures start * TICKS_PER_MS <= ticks < (start + sliceMs) * TICKS_PER_MS
  {
  }

  lemma TimesliceMonotone(g: DataFrameHeader, h: DataFrameHeader, sliceMs: int)
    requires Canonical(g) && Canonical(h) && sliceMs > 0 && !StoredBefore(h, g)
    ensures TimesliceId(g, sliceMs) <= TimesliceId(h, sliceMs)
  {
    hide GetFullTime, Canonical, TimesliceId;
    TimeOrderIsStoredOrder(h, g);
    TimesliceInterval(g, sliceMs);
    TimesliceInterval(h, sliceMs);
    var a, b := TimesliceId(g, sliceMs), TimesliceId(h, sliceMs);
    if a > b {
      SlicesApart(a, b, sliceMs);
    }
  }

  lemma SlicesApart(a: int, b: int, sliceMs: int)
    requires a > b && sliceMs > 0
    ensures (b + 1) * sliceMs * TICKS_PER_MS <= a * sliceMs * TICKS_PER_MS
  {
    assert (b + 1) * sliceMs <= a * sliceMs;
  }

  // ---- The setters, in place ----------------------------------------------------------------

  /** A header that the setters update in place; `ok` is false where an assertion stops the program. */
  class FrameHeader {
    var fields: DataFrameHeader

    constructor (h: DataFrameHeader)
      ensures fields == h
    {
      fields := h;
    }

    method SetDFHDays(gregorian: Word) returns (ok: bool)
      modifies this
      ensures ok <==> SetDays(gregorian, old(fields)).Done?
      ensures ok ==> fields == SetDays(gregorian, old(fields)).header
    {
      if gregorian >= 367 {
        return false;
      }
      var hundreds := gregorian / 100;
      var tens := (gregorian % 100) / 10;
      var units := gregorian % 10;
      fields := fields.(days := (hundreds * 0x100 + tens * 0x10 + units) % 0x400);
      return true;
    }

    method SetDFHYears(year: Word) returns (ok: bool)
      modifies this
      ensures ok <==> SetYears(year, old(fields)).Done?
      ensures ok ==> fields == SetYears(year, old(fields)).header
    {
      if year >= 100 {
        return false;
      }
      var tens := year / 10;
      var units := year % 10;
      fields := fields.(years := (tens * 0x10 + units) % 0x100);
      return true;
    }

    method SetDFHDayTime(time: int) returns (ok: bool)
      modifies this
      ensures ok <==> SetDayTime(time, old(fields)).Done?
      ensures ok ==> fields == SetDayTime(time, old(fields)).header
    {
      if time >= SECONDS_PER_DAY * TICKS_PER_SECOND {
        return false;
      }
      var secs := TruncDiv(time, TICKS_PER_SECOND);
      fields := fields.(seconds := secs % 0x2_0000);
      var frames := TruncDiv(time - secs * TICKS_PER_SECOND, TICKS_PER_FRAME);
      fields := fields.(frameCounter := frames % 0x2000);
      fields := fields.(t4ns := (time - secs * TICKS_PER_SECOND - frames * TICKS_PER_FRAME) % 0x1_0000);
      return true;
    }

    method SetDFHYearTime(time: int) returns (ok: bool)
      modifies this
      ensures ok <==> SetYearTime(time, old(fields)).Done?
      ensures ok ==> fields == SetYearTime(time, old(fields)).header
    {
      hide SetDays, SetDayTime;
      var gregorian := TruncDiv(time, SECONDS_PER_DAY * TICKS_PER_SECOND);
      ok := SetDFHDays(ToUInt32(gregorian));
      if ok {
        ok := SetDFHDayTime(time - gregorian * SECONDS_PER_DAY * TICKS_PER_SECOND);
      }
    }

    method SetDFHFullTime(time: int) returns (ok: bool)
      modifies this
      ensures ok <==> SetFullTime(time, old(fields)).Done?
      ensures ok ==> fields == SetFullTime(time, old(fields)).header
      ensures 0 <= time < LAST_TICK ==>
                ok && Canonical(fields) && SameFrame(fields, old(fields)) && GetFullTime(fields) == time
    {
      hide SetYears, SetYearTime, GetFullTime, Canonical, YearOf, DaysBefore, SameFrame;
      ghost var before := fields;
      var s := TruncDiv(time, TICKS_PER_SECOND);
      var held := ToInt32(s);
      Epoch();
      if held < 0 {
        ok := false;
      } else {
        var year := YearOf(held / SECONDS_PER_DAY, 0);
        ok := year < 100;
        if ok {
          ok := SetDFHYears(year);
        }
        if ok {
          var inYear := held - SECONDS_PER_DAY * DaysBefore(year);
          ok := SetDFHYearTime(inYear * TICKS_PER_SECOND + (time - s * TICKS_PER_SECOND));
        }
      }
      if 0 <= time < LAST_TICK {
        FullTimeStored(time, before);
      }
    }
  }
}
