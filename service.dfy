/** The calendar service (`LunarCalendarService`): whole-month queries in the
    lunar and the Gregorian calendar, the month structure of a lunar year, and
    the holiday rule. The repository carries the service twice, in
    core/LunarCalendarService.js and chrome-extension/core/LunarCalendarService.js;
    the two differ only in comments, in how the constant tables are imported and
    in the module export, so this one module models both. */
module Service {
  import opened Wrappers
  import opened HostDate
  import opened Provider

  /** The label of the last day of the twelfth month. */
  const NEW_YEARS_EVE: string := "除夕"
  /** The glyph put before the name of a leap month. */
  const LEAP_PREFIX: string := "闰"
  /** Years from the start of the Huangdi era to year 0. */
  const HUANGDI_OFFSET: int := 2697

  /** The constant tables: MONTH_NAMES, LUNAR_HOLIDAYS (its "month-day" string
      key is the pair (month, day) here) and GREGORIAN_MONTHS. Their contents
      are not part of the model. */
  datatype Tables = Tables(
    monthNames: seq<string>,
    holidays: map<(int, int), string>,
    gregorianMonths: seq<string>)

  predicate ValidTables(t: Tables) {
    |t.monthNames| == 12 && |t.gregorianMonths| == 12
  }

  /** One entry of a lunar year's month sequence. */
  datatype MonthDescriptor = MonthDescriptor(month: int, isLeapMonth: bool)

  /** One day of a lunar month, as `getLunarMonth` returns it. */
  datatype LunarDayRecord = LunarDayRecord(
    lunarDay: int,
    lunarDayName: string,
    gregorianYear: int,
    gregorianMonth: int,
    gregorianDay: int,
    jieQi: Option<string>,
    holiday: Option<string>)

  /** One cell of a Gregorian month grid: a padding cell (`{ empty: true }`) or a day. */
  datatype GregorianCell =
    | Empty
    | Day(
        gregorianDay: int,
        lunarDayName: string,
        lunarMonthName: string,
        lunarDay: int,
        isFirstDayOfLunarMonth: bool,
        jieQi: Option<string>,
        holiday: Option<string>)

  /** The result of `getCurrentLunarDate`; `month` keeps the library's sign. */
  datatype CurrentLunar = CurrentLunar(year: int, month: int, day: int, isLeapMonth: bool)

  /** `LunarMonth.fromYm` found no such month, and reading its day count throws. */
  datatype CalendarError = InvalidMonth(year: int, month: int)

  function Abs(x: int): int {
    if x < 0 then -x else x
  }

  /** JavaScript's `s || null` on a string. */
  function OrNull(s: string): (r: Option<string>)
    ensures r.Some? <==> s != ""
    ensures r.Some? ==> r.value == s
  {
    if s == "" then None else Some(s)
  }

  // ---------------------------------------------------------------------------
  // Holidays, names, era

  /** `getLunarHoliday`: no holiday in a leap month; the last day of the twelfth
      month is New Year's Eve whatever the table says; otherwise the table. */
  function LunarHoliday(t: Tables, month: int, day: int, isLeapMonth: bool, dayCount: int): Option<string> {
    if isLeapMonth then None
    else if month == 12 && day == dayCount then Some(NEW_YEARS_EVE)
    else if (month, day) in t.holidays then OrNull(t.holidays[(month, day)])
    else None
  }

  lemma LeapMonthHasNoHoliday(t: Tables, month: int, day: int, dayCount: int)
    ensures LunarHoliday(t, month, day, true, dayCount) == None
  {
  }

  lemma EveOverridesTable(t: Tables, dayCount: int)
    ensures LunarHoliday(t, 12, dayCount, false, dayCount) == Some(NEW_YEARS_EVE)
  {
  }

  /** Every other ordinary day gets the table's label, or null when the key is
      missing or its label empty: in a 30-day twelfth month day 29 is such a day. */
  lemma OtherDaysUseTable(t: Tables, month: int, day: int, dayCount: int)
    requires !(month == 12 && day == dayCount)
    ensures LunarHoliday(t, month, day, false, dayCount) ==
      if (month, day) in t.holidays && t.holidays[(month, day)] != "" then Some(t.holidays[(month, day)]) else None
    ensures month == 12 && day == 29 && dayCount == 30 ==>
      LunarHoliday(t, 12, 29, false, 30) == if (12, 29) in t.holidays then OrNull(t.holidays[(12, 29)]) else None
  {
  }

  /** The rule as a whole: a holiday is never reported in a leap month, and a
      reported label is either New Year's Eve on the month's last day or the
      table's non-empty label for that key. */
  lemma HolidayLabelOrigin(t: Tables, month: int, day: int, isLeapMonth: bool, dayCount: int)
    ensures var h := LunarHoliday(t, month, day, isLeapMonth, dayCount);
      h.Some? ==>
        && !isLeapMonth
        && h.value != ""
        && ((month == 12 && day == dayCount && h.value == NEW_YEARS_EVE) ||
            ((month, day) in t.holidays && t.holidays[(month, day)] == h.value))
  {
  }

  /** `getChineseMonthName`: the table entry at |m| - 1, after the leap glyph
      when `isLeapMonth`. */
  function ChineseMonthName(t: Tables, lunarMonth: int, isLeapMonth: bool): string
    requires ValidTables(t) && 1 <= Abs(lunarMonth) <= 12
  {
    (if isLeapMonth then LEAP_PREFIX else "") + t.monthNames[Abs(lunarMonth) - 1]
  }

  lemma MonthNameBoundaries(t: Tables)
    requires ValidTables(t)
    ensures ChineseMonthName(t, 1, false) == t.monthNames[0]
    ensures ChineseMonthName(t, 12, false) == t.monthNames[11]
    ensures ChineseMonthName(t, 6, true) == LEAP_PREFIX + t.monthNames[5]
  {
  }

  /** A leap month is named by its namesake's name behind the leap glyph; the
      sign of the month number does not matter. */
  lemma LeapNameExtendsOrdinaryName(t: Tables, lunarMonth: int)
    requires ValidTables(t) && 1 <= Abs(lunarMonth) <= 12
    ensures ChineseMonthName(t, lunarMonth, true) == LEAP_PREFIX + ChineseMonthName(t, lunarMonth, false)
    ensures ChineseMonthName(t, -lunarMonth, true) == ChineseMonthName(t, lunarMonth, true)
  {
  }

  /** `getHuangdiYearNumber`. */
  function HuangdiYearNumber(lunarYear: int): int {
    lunarYear + HUANGDI_OFFSET
  }

  /** The Huangdi number is the year shifted by 2697: it keeps the distance
      between years, and is 2697 at year 0. */
  lemma HuangdiIsShift(a: int, b: int)
    ensures HuangdiYearNumber(a) - HuangdiYearNumber(b) == a - b
    ensures HuangdiYearNumber(0) == 2697
  {
  }

  /** `getLeapMonth`. */
  function LeapMonth(p: Provider, lunarYear: int): (leap: int)
    ensures ValidProvider(p) ==> 0 <= leap <= 12
  {
    p.leapMonth(lunarYear)
  }

  // ---------------------------------------------------------------------------
  // The months of a lunar year

  /** The entries `getMonthsInYear`'s loop has pushed after handling months 1..k. */
  function MonthsUpTo(k: int, leap: int): seq<MonthDescriptor>
    requires 0 <= k <= 12
  {
    if k == 0 then []
    else MonthsUpTo(k - 1, leap) + [MonthDescriptor(k, false)]
         + (if leap == k then [MonthDescriptor(k, true)] else [])
  }

  /** Entry i of the month sequence, given the leap month, in closed form. */
  function EntryAt(leap: int, i: int): MonthDescriptor {
    if 1 <= leap <= i then
      (if i == leap then MonthDescriptor(leap, true) else MonthDescriptor(i, false))
    else MonthDescriptor(i + 1, false)
  }

  lemma {:induction false} MonthsUpToAt(k: int, leap: int)
    requires 0 <= k <= 12
    ensures |MonthsUpTo(k, leap)| == k + (if 1 <= leap <= k then 1 else 0)
    ensures forall i :: 0 <= i < |MonthsUpTo(k, leap)| ==> MonthsUpTo(k, leap)[i] == EntryAt(leap, i)
  {
    if k > 0 {
      MonthsUpToAt(k - 1, leap);
    }
  }

  /** The months of a lunar year whose leap month is `leap`: 13 entries when
      `leap` is a month number, otherwise 12. */
  function MonthsInYear(leap: int): (months: seq<MonthDescriptor>)
    ensures |months| == if 1 <= leap <= 12 then 13 else 12
    ensures forall i :: 0 <= i < |months| ==> months[i] == EntryAt(leap, i)
    ensures forall i :: 0 <= i < |months| ==> 1 <= months[i].month <= 12
  {
    MonthsUpToAt(12, leap);
    MonthsUpTo(12, leap)
  }

  /** `getMonthsInYear`. */
  method GetMonthsInYear(p: Provider, lunarYear: int) returns (months: seq<MonthDescriptor>)
    ensures months == MonthsInYear(LeapMonth(p, lunarYear))
  {
    var leapMonth := LeapMonth(p, lunarYear);
    months := [];
    var m := 1;
    while m <= 12
      invariant 1 <= m <= 13
      invariant months == MonthsUpTo(m - 1, leapMonth)
    {
      months := months + [MonthDescriptor(m, false)];
      if leapMonth == m {
        months := months + [MonthDescriptor(m, true)];
      }
      m := m + 1;
    }
  }

  /** A (month, leap) pair is an entry exactly when the month is 1..12 and,
      if it is flagged leap, it is the year's leap month. */
  lemma MonthsInYearMembers(leap: int, md: MonthDescriptor)
    ensures md in MonthsInYear(leap) <==> 1 <= md.month <= 12 && (md.isLeapMonth ==> md.month == leap)
  {
    var months := MonthsInYear(leap);
    if 1 <= md.month <= 12 && (md.isLeapMonth ==> md.month == leap) {
      var i := if md.isLeapMonth then leap
               else if 1 <= leap < md.month then md.month else md.month - 1;
      assert months[i] == md;
    }
  }

  /** The ordinary months 1..12 appear in ascending order, each once. */
  lemma OrdinaryMonthsAscending(leap: int)
    ensures var months := MonthsInYear(leap);
      forall i, j :: 0 <= i < j < |months| && !months[i].isLeapMonth && !months[j].isLeapMonth ==>
        months[i].month < months[j].month
    ensures forall m :: 1 <= m <= 12 ==> MonthDescriptor(m, false) in MonthsInYear(leap)
  {
    forall m | 1 <= m <= 12 ensures MonthDescriptor(m, false) in MonthsInYear(leap) {
      MonthsInYearMembers(leap, MonthDescriptor(m, false));
    }
  }

  /** At most one entry is a leap month; it is the year's leap month and comes
      right after the ordinary month of the same number. */
  lemma LeapEntryFollowsNamesake(leap: int)
    ensures var months := MonthsInYear(leap);
      forall i :: 0 <= i < |months| && months[i].isLeapMonth ==>
        && 1 <= i
        && months[i].month == leap
        && months[i - 1] == MonthDescriptor(leap, false)
    ensures var months := MonthsInYear(leap);
      forall i, j :: 0 <= i < |months| && 0 <= j < |months| && months[i].isLeapMonth && months[j].isLeapMonth ==> i == j
    ensures (1 <= leap <= 12) <==> MonthDescriptor(leap, true) in MonthsInYear(leap)
  {
    MonthsInYearMembers(leap, MonthDescriptor(leap, true));
  }

  /** No entry is listed twice. */
  lemma EntriesDistinct(leap: int)
    ensures var months := MonthsInYear(leap);
      forall i, j :: 0 <= i < |months| && 0 <= j < |months| && months[i] == months[j] ==> i == j
  {
  }

  /** The year starts with ordinary month 1 and ends with month 12, which is a
      leap entry only when the leap month is 12. */
  lemma FirstAndLastEntries(leap: int)
    ensures MonthsInYear(leap)[0] == MonthDescriptor(1, false)
    ensures MonthsInYear(leap)[|MonthsInYear(leap)| - 1] == MonthDescriptor(12, leap == 12)
  {
  }

  // ---------------------------------------------------------------------------
  // A lunar month

  /** The signed month `getLunarMonth` queries the library with. */
  function SignedMonth(lunarMonth: int, isLeapMonth: bool): int {
    if isLeapMonth then -Abs(lunarMonth) else lunarMonth
  }

  /** The record `getLunarMonth` pushes for `day`. */
  function LunarDayOf(p: Provider, t: Tables, lunarYear: int, lunarMonth: int, isLeapMonth: bool,
                      dayCount: int, day: int): LunarDayRecord
  {
    var lunar := LunarDate(lunarYear, SignedMonth(lunarMonth, isLeapMonth), day);
    var solar := p.toSolar(lunar);
    LunarDayRecord(day, p.dayInChinese(lunar), solar.year, solar.month, solar.day,
                   OrNull(p.jieQi(lunar)), LunarHoliday(t, lunarMonth, day, isLeapMonth, dayCount))
  }

  /** `getLunarMonth` as a value: the library's error for a month that does not
      exist, otherwise one record per day 1..dayCount. */
  function LunarMonth(p: Provider, t: Tables, lunarYear: int, lunarMonth: int, isLeapMonth: bool)
    : Result<seq<LunarDayRecord>, CalendarError>
  {
    var month := SignedMonth(lunarMonth, isLeapMonth);
    if !MonthExists(p, lunarYear, month) then Failure(InvalidMonth(lunarYear, month))
    else
      var dayCount := p.dayCount(lunarYear, month);
      Success(seq(if dayCount < 0 then 0 else dayCount,
                  i => LunarDayOf(p, t, lunarYear, lunarMonth, isLeapMonth, dayCount, i + 1)))
  }

  /** `getLunarMonth`. */
  method GetLunarMonth(p: Provider, t: Tables, lunarYear: int, lunarMonth: int, isLeapMonth: bool)
    returns (r: Result<seq<LunarDayRecord>, CalendarError>)
    ensures r == LunarMonth(p, t, lunarYear, lunarMonth, isLeapMonth)
  {
    var month := if isLeapMonth then -Abs(lunarMonth) else lunarMonth;
    assert month == SignedMonth(lunarMonth, isLeapMonth);
    if !MonthExists(p, lunarYear, month) {
      return Failure(InvalidMonth(lunarYear, month));
    }
    var dayCount := p.dayCount(lunarYear, month);
    var days: seq<LunarDayRecord> := [];
    var day := 1;
    while day <= dayCount
      invariant 1 <= day <= (if dayCount < 0 then 0 else dayCount) + 1
      invariant |days| == day - 1
      invariant forall i :: 0 <= i < |days| ==>
        days[i] == LunarDayOf(p, t, lunarYear, lunarMonth, isLeapMonth, dayCount, i + 1)
    {
      var lunar := LunarDate(lunarYear, month, day);
      var solar := p.toSolar(lunar);
      var jieQi := p.jieQi(lunar);
      var holiday := LunarHoliday(t, lunarMonth, day, isLeapMonth, dayCount);
      days := days + [LunarDayRecord(day, p.dayInChinese(lunar), solar.year, solar.month, solar.day,
                                     OrNull(jieQi), holiday)];
      day := day + 1;
    }
    ghost var expected := LunarMonth(p, t, lunarYear, lunarMonth, isLeapMonth).value;
    assert |days| == |expected|;
    assert forall i :: 0 <= i < |days| ==> days[i] == expected[i];
    assert days == expected;
    r := Success(days);
  }

  /** The month loads exactly when the library has it; it then has `dayCount`
      records numbered 1..dayCount, each converted from the signed month. */
  lemma LunarMonthShape(p: Provider, t: Tables, lunarYear: int, lunarMonth: int, isLeapMonth: bool)
    ensures var month := if isLeapMonth then -Abs(lunarMonth) else lunarMonth;
      var r := LunarMonth(p, t, lunarYear, lunarMonth, isLeapMonth);
      && (r.Success? <==> MonthExists(p, lunarYear, month))
      && (r.Success? && p.dayCount(lunarYear, month) >= 0 ==> |r.value| == p.dayCount(lunarYear, month))
      && (r.Success? ==> forall i :: 0 <= i < |r.value| ==>
            && r.value[i].lunarDay == i + 1
            && p.toSolar(LunarDate(lunarYear, month, i + 1)) ==
               SolarDate(r.value[i].gregorianYear, r.value[i].gregorianMonth, r.value[i].gregorianDay))
  {
  }

  /** Every month `getMonthsInYear` lists can be loaded, with 29 or 30 days. */
  lemma ListedMonthsLoad(p: Provider, t: Tables, lunarYear: int, md: MonthDescriptor)
    requires ValidProvider(p)
    requires md in MonthsInYear(LeapMonth(p, lunarYear))
    ensures var r := LunarMonth(p, t, lunarYear, md.month, md.isLeapMonth);
      && r.Success?
      && (|r.value| == 29 || |r.value| == 30)
      && forall i :: 0 <= i < |r.value| ==> r.value[i].lunarDay == i + 1
  {
    MonthsInYearMembers(LeapMonth(p, lunarYear), md);
    assert MonthExists(p, lunarYear, SignedMonth(md.month, md.isLeapMonth));
  }

  /** In a loaded month no day of a leap month is a holiday, and the last day of
      an ordinary twelfth month is New Year's Eve. */
  lemma LunarMonthHolidays(p: Provider, t: Tables, lunarYear: int, lunarMonth: int, isLeapMonth: bool)
    requires LunarMonth(p, t, lunarYear, lunarMonth, isLeapMonth).Success?
    ensures var days := LunarMonth(p, t, lunarYear, lunarMonth, isLeapMonth).value;
      && (isLeapMonth ==> forall i :: 0 <= i < |days| ==> days[i].holiday == None)
      && (!isLeapMonth && lunarMonth == 12 && |days| > 0 ==> days[|days| - 1].holiday == Some(NEW_YEARS_EVE))
  {
  }

  // ---------------------------------------------------------------------------
  // A Gregorian month

  /** The cell `getGregorianMonth` pushes for `day`. */
  function GregorianDayOf(p: Provider, t: Tables, year: int, month: int, day: int): GregorianCell {
    var lunar := p.toLunar(SolarDate(year, month, day));
    var dayCount := p.dayCount(lunar.year, lunar.month);
    Day(day, p.dayInChinese(lunar), p.monthInChinese(lunar), lunar.day, lunar.day == 1,
        OrNull(p.jieQi(lunar)),
        LunarHoliday(t, Abs(lunar.month), lunar.day, lunar.month < 0, dayCount))
  }

  /** `getGregorianMonth` as a value: as many padding cells as the weekday of
      the first, then one cell per day. Month length and weekday come from the
      host's `Date`, which reads a year in 0..99 as 1900..1999. */
  function GregorianMonth(p: Provider, t: Tables, year: int, month: int): seq<GregorianCell>
    requires 1 <= month <= 12
  {
    var hostYear := ConstructorYear(year);
    seq(Weekday(hostYear, month, 1), i => Empty)
      + seq(DaysInMonth(hostYear, month), i => GregorianDayOf(p, t, year, month, i + 1))
  }

  /** `getGregorianMonth`. */
  method GetGregorianMonth(p: Provider, t: Tables, year: int, month: int) returns (days: seq<GregorianCell>)
    requires 1 <= month <= 12
    ensures days == GregorianMonth(p, t, year, month)
  {
    var daysInMonth := DaysInMonth(ConstructorYear(year), month);
    var startWeekday := Weekday(ConstructorYear(year), month, 1);
    days := [];
    var i := 0;
    while i < startWeekday
      invariant 0 <= i <= startWeekday
      invariant days == seq(i, k => Empty)
    {
      days := days + [Empty];
      i := i + 1;
    }
    var day := 1;
    while day <= daysInMonth
      invariant 1 <= day <= daysInMonth + 1
      invariant |days| == startWeekday + day - 1
      invariant forall k :: 0 <= k < startWeekday ==> days[k] == Empty
      invariant forall k :: startWeekday <= k < |days| ==>
        days[k] == GregorianDayOf(p, t, year, month, k - startWeekday + 1)
    {
      var lunar := p.toLunar(SolarDate(year, month, day));
      var lunarMonth := lunar.month;
      var lunarDay := lunar.day;
      var isLeapMonth := lunarMonth < 0;
      var dayCount := p.dayCount(lunar.year, lunarMonth);
      var jieQi := p.jieQi(lunar);
      var holiday := LunarHoliday(t, Abs(lunarMonth), lunarDay, isLeapMonth, dayCount);
      days := days + [Day(day, p.dayInChinese(lunar), p.monthInChinese(lunar), lunarDay, lunarDay == 1,
                          OrNull(jieQi), holiday)];
      day := day + 1;
    }
    ghost var expected := GregorianMonth(p, t, year, month);
    assert |days| == |expected|;
    assert forall k :: 0 <= k < |days| ==> days[k] == expected[k];
  }

  /** The grid has 0..6 padding cells, the weekday of the first, then the days
      1..daysInMonth in order; a day is marked as the first of its lunar month
      exactly when its lunar day is 1, and a day inside a leap month never has
      a holiday. */
  lemma GregorianMonthShape(p: Provider, t: Tables, year: int, month: int)
    requires 1 <= month <= 12
    ensures var cells := GregorianMonth(p, t, year, month);
      var start := Weekday(ConstructorYear(year), month, 1);
      var n := DaysInMonth(ConstructorYear(year), month);
      && 0 <= start <= 6 && 28 <= n <= 31
      && |cells| == start + n
      && (forall i :: 0 <= i < |cells| ==> (cells[i].Empty? <==> i < start))
      && (forall i :: start <= i < |cells| ==>
            && cells[i].gregorianDay == i - start + 1
            && (cells[i].isFirstDayOfLunarMonth <==> cells[i].lunarDay == 1)
            && (p.toLunar(SolarDate(year, month, i - start + 1)).month < 0 ==> cells[i].holiday == None))
  {
  }

  /** `getCurrentLunarDate`, with the clock read replaced by today's Gregorian
      date: the leap flag is the sign of the month, and a valid library makes
      today an entry of its year's month sequence. */
  function CurrentLunarDate(p: Provider, now: SolarDate): (r: CurrentLunar)
    ensures r.isLeapMonth <==> r.month < 0
    ensures ValidProvider(p) && ValidSolar(now) ==>
      && MonthDescriptor(Abs(r.month), r.isLeapMonth) in MonthsInYear(LeapMonth(p, r.year))
      && 1 <= r.day <= 30
  {
    var lunar := p.toLunar(now);
    MonthsInYearMembers(LeapMonth(p, lunar.year), MonthDescriptor(Abs(lunar.month), lunar.month < 0));
    CurrentLunar(lunar.year, lunar.month, lunar.day, lunar.month < 0)
  }

  /** The two directions agree: the lunar date of any Gregorian day lies in a
      lunar month that loads, and that month's record for the day gives back the
      same Gregorian date, the same lunar day and the same holiday as the
      Gregorian grid's cell for the day. The grid holds that cell when the day
      exists in the month of the year the host's `Date` reads (a year in 0..99
      is read as 19xx). */
  lemma CrossCalendarRoundTrip(p: Provider, t: Tables, s: SolarDate)
    requires ValidProvider(p) && ValidSolar(s)
    ensures var lunar := p.toLunar(s);
      var r := LunarMonth(p, t, lunar.year, Abs(lunar.month), lunar.month < 0);
      var cell := GregorianDayOf(p, t, s.year, s.month, s.day);
      && r.Success?
      && 1 <= lunar.day <= |r.value|
      && r.value[lunar.day - 1].gregorianYear == s.year
      && r.value[lunar.day - 1].gregorianMonth == s.month
      && r.value[lunar.day - 1].gregorianDay == s.day
      && r.value[lunar.day - 1].lunarDay == cell.lunarDay
      && r.value[lunar.day - 1].holiday == cell.holiday
      && (s.day <= DaysInMonth(ConstructorYear(s.year), s.month) ==>
            var start := Weekday(ConstructorYear(s.year), s.month, 1);
            var grid := GregorianMonth(p, t, s.year, s.month);
            start + s.day - 1 < |grid| && grid[start + s.day - 1] == cell)
  {
    var lunar := p.toLunar(s);
    assert ValidLunar(p, lunar);
    assert SignedMonth(Abs(lunar.month), lunar.month < 0) == lunar.month;
    assert p.toSolar(LunarDate(lunar.year, lunar.month, lunar.day)) == s;
  }
}
