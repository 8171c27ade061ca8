/** The month-navigation state machine the three page shells implement: the
    lunar position (year, month, leap flag) steps through the entries of
    `getMonthsInYear` and across year ends, and the Gregorian position steps
    through months 1..12. The shells hold this state in mutable fields; this
    module gives the transitions as functions, which the shells' methods are
    proved to follow, and proves the facts the shells rely on about them. */
module Navigation {
  import opened Wrappers
  import opened Provider
  import opened Service
  import opened OptionValue

  /** The view mode, 'lunar' or 'gregorian'. */
  datatype ViewMode = LunarMode | GregorianMode

  datatype LunarPosition = LunarPosition(year: int, month: int, isLeapMonth: bool)

  datatype GregorianPosition = GregorianPosition(year: int, month: int)

  /** `months.findIndex(m => m.month === month && m.isLeapMonth === isLeapMonth)`:
      the first matching index, or -1. */
  function FindIndex(months: seq<MonthDescriptor>, month: int, isLeapMonth: bool): (i: int)
    ensures -1 <= i < |months|
    ensures i == -1 <==> MonthDescriptor(month, isLeapMonth) !in months
    ensures 0 <= i ==> months[i] == MonthDescriptor(month, isLeapMonth)
    ensures forall j :: 0 <= j < i ==> months[j] != MonthDescriptor(month, isLeapMonth)
  {
    if |months| == 0 then -1
    else if months[0] == MonthDescriptor(month, isLeapMonth) then 0
    else
      var rest := FindIndex(months[1..], month, isLeapMonth);
      if rest == -1 then -1 else rest + 1
  }

  /** `calendarService.getMonthsInYear(year)`. */
  function YearMonths(p: Provider, year: int): seq<MonthDescriptor> {
    MonthsInYear(LeapMonth(p, year))
  }

  /** The shells' invariant, in closed form: the month is 1..12 and it is
      flagged leap only when it is the year's leap month. `PositionedIsEntry`
      proves this is the same as being an entry of the year's months. */
  predicate Positioned(p: Provider, pos: LunarPosition) {
    1 <= pos.month <= 12 && (pos.isLeapMonth ==> LeapMonth(p, pos.year) == pos.month)
  }

  /** `navigateLunarMonth(direction)`: move `direction` entries along the year's
      months; before the first entry go to the last entry of the year before,
      past the last entry go to ordinary month 1 of the next year. */
  function StepLunar(p: Provider, pos: LunarPosition, direction: int): LunarPosition {
    var months := YearMonths(p, pos.year);
    var newIndex := FindIndex(months, pos.month, pos.isLeapMonth) + direction;
    if newIndex < 0 then
      var previous := YearMonths(p, pos.year - 1);
      var last := previous[|previous| - 1];
      LunarPosition(pos.year - 1, last.month, last.isLeapMonth)
    else if newIndex >= |months| then
      LunarPosition(pos.year + 1, 1, false)
    else
      LunarPosition(pos.year, months[newIndex].month, months[newIndex].isLeapMonth)
  }

  /** `navigateGregorianMonth(direction)`: add `direction` to the month and wrap
      below 1 to December of the year before, above 12 to January of the next. */
  function StepGregorian(pos: GregorianPosition, direction: int): GregorianPosition {
    var month := pos.month + direction;
    if month < 1 then GregorianPosition(pos.year - 1, 12)
    else if month > 12 then GregorianPosition(pos.year + 1, 1)
    else GregorianPosition(pos.year, month)
  }

  /** Year selection in the lunar view: keep the month number, keep the leap
      flag if the new year has the same entry, clear it otherwise. */
  function SelectLunarYear(p: Provider, pos: LunarPosition, year: int): LunarPosition {
    var currentMonthExists := MonthDescriptor(pos.month, pos.isLeapMonth) in YearMonths(p, year);
    LunarPosition(year, pos.month, if currentMonthExists then pos.isLeapMonth else false)
  }

  /** Where "today" puts the lunar view: the month number without its sign. */
  function TodayPosition(today: CurrentLunar): LunarPosition {
    LunarPosition(today.year, Abs(today.month), today.isLeapMonth)
  }

  /** The option values `populateMonthSelect` gives the month select. */
  function LunarMonthValues(p: Provider, year: int): seq<string> {
    var months := YearMonths(p, year);
    seq(|months|, i requires 0 <= i < |months| => LunarMonthValue(months[i].month, months[i].isLeapMonth))
  }

  function GregorianMonthValues(): seq<string> {
    seq(12, i => IntToString(i + 1))
  }

  function MonthSelectValues(p: Provider, mode: ViewMode, lunarYear: int): seq<string> {
    if mode == LunarMode then LunarMonthValues(p, lunarYear) else GregorianMonthValues()
  }

  /** The year `populateYearSelect` centres the year select on. */
  function SelectedYear(mode: ViewMode, lunarYear: int, gregorianYear: int): int {
    if mode == LunarMode then lunarYear else gregorianYear
  }

  /** The option values of the year select: `currentYear - 50` through
      `currentYear + 50`. */
  function YearSelectValues(currentYear: int): seq<string> {
    seq(101, i => IntToString(currentYear - 50 + i))
  }

  /** What the month grid shows: the lunar month's day records or the
      Gregorian month's cells. */
  datatype MonthView = LunarDays(days: seq<LunarDayRecord>) | GregorianCells(cells: seq<GregorianCell>)

  /** The data `renderLunar` / `renderGregorian` fetch for the current state. */
  function MonthViewOf(p: Provider, t: Tables, mode: ViewMode, lunar: LunarPosition,
                       gregorian: GregorianPosition): Result<MonthView, CalendarError>
    requires 1 <= gregorian.month <= 12
  {
    if mode == LunarMode then
      var r := LunarMonth(p, t, lunar.year, lunar.month, lunar.isLeapMonth);
      if r.Success? then Success(LunarDays(r.value)) else Failure(r.error)
    else
      Success(GregorianCells(GregorianMonth(p, t, gregorian.year, gregorian.month)))
  }

  // ---------------------------------------------------------------------------
  // Facts about the transitions

  /** A position satisfies the invariant exactly when `(month, isLeapMonth)`
      is an entry of `getMonthsInYear(year)`. */
  lemma PositionedIsEntry(p: Provider, pos: LunarPosition)
    ensures Positioned(p, pos) <==> MonthDescriptor(pos.month, pos.isLeapMonth) in YearMonths(p, pos.year)
  {
    MonthsInYearMembers(LeapMonth(p, pos.year), MonthDescriptor(pos.month, pos.isLeapMonth));
  }

  /** `findIndex` finds every entry of a year at its own index. */
  lemma FindIndexOfEntry(leap: int, i: int)
    requires 0 <= i < |MonthsInYear(leap)|
    ensures FindIndex(MonthsInYear(leap), MonthsInYear(leap)[i].month, MonthsInYear(leap)[i].isLeapMonth) == i
  {
    EntriesDistinct(leap);
  }

  /** Every lunar step, from any position, lands on an entry of its year. */
  lemma StepLunarIsPositioned(p: Provider, pos: LunarPosition, direction: int)
    ensures Positioned(p, StepLunar(p, pos, direction))
  {
    var next := StepLunar(p, pos, direction);
    var months := YearMonths(p, next.year);
    var md := MonthDescriptor(next.month, next.isLeapMonth);
    FirstAndLastEntries(LeapMonth(p, pos.year + 1));
    var previous := YearMonths(p, pos.year - 1);
    assert previous[|previous| - 1] in previous;
    var current := YearMonths(p, pos.year);
    var i := FindIndex(current, pos.month, pos.isLeapMonth) + direction;
    if 0 <= i < |current| {
      assert current[i] in current;
    }
    assert md in months;
    PositionedIsEntry(p, next);
  }

  /** Entry `i` of `year`'s months as a position. */
  function EntryPosition(p: Provider, year: int, i: int): LunarPosition
    requires 0 <= i < |YearMonths(p, year)|
  {
    var md := YearMonths(p, year)[i];
    LunarPosition(year, md.month, md.isLeapMonth)
  }

  /** Every entry of a year's list is a position the views can show. */
  lemma EntryIsPositioned(p: Provider, year: int, i: int)
    requires 0 <= i < |YearMonths(p, year)|
    ensures Positioned(p, EntryPosition(p, year, i))
  {
    var months := YearMonths(p, year);
    assert months[i] in months;
    PositionedIsEntry(p, EntryPosition(p, year, i));
  }

  /** A step from entry `i` of a year, by index: the first entry of the next
      year past the end, the last entry of the year before below 0, and
      entry `i + direction` otherwise. */
  lemma StepFromEntry(p: Provider, year: int, i: int, direction: int)
    requires 0 <= i < |YearMonths(p, year)|
    ensures var n := |YearMonths(p, year)|;
      var next := StepLunar(p, EntryPosition(p, year, i), direction);
      && (i + direction < 0 ==> next == EntryPosition(p, year - 1, |YearMonths(p, year - 1)| - 1))
      && (i + direction >= n ==> next == EntryPosition(p, year + 1, 0))
      && (0 <= i + direction < n ==> next == EntryPosition(p, year, i + direction))
  {
    FindIndexOfEntry(LeapMonth(p, year), i);
    if i + direction >= |YearMonths(p, year)| {
      FirstAndLastEntries(LeapMonth(p, year + 1));
    }
  }

  /** A positioned state is entry `FindIndex(...)` of its year. */
  lemma PositionIsEntryAtIndex(p: Provider, pos: LunarPosition)
    requires Positioned(p, pos)
    ensures var i := FindIndex(YearMonths(p, pos.year), pos.month, pos.isLeapMonth);
      0 <= i < |YearMonths(p, pos.year)| && EntryPosition(p, pos.year, i) == pos
  {
    PositionedIsEntry(p, pos);
  }

  /** Inside the year a step moves to the neighbouring entry and keeps the year. */
  lemma StepWithinYear(p: Provider, pos: LunarPosition, direction: int)
    requires Positioned(p, pos)
    ensures var months := YearMonths(p, pos.year);
      var i := FindIndex(months, pos.month, pos.isLeapMonth);
      && 0 <= i < |months|
      && months[i] == MonthDescriptor(pos.month, pos.isLeapMonth)
      && (0 <= i + direction < |months| ==>
            StepLunar(p, pos, direction) ==
            LunarPosition(pos.year, months[i + direction].month, months[i + direction].isLeapMonth))
  {
    PositionedIsEntry(p, pos);
  }

  /** Back from ordinary month 1: the last entry of the year before, month 12,
      a leap entry only when that year's leap month is 12. */
  lemma StepBackFromFirstMonth(p: Provider, year: int)
    ensures StepLunar(p, LunarPosition(year, 1, false), -1) ==
      LunarPosition(year - 1, 12, LeapMonth(p, year - 1) == 12)
  {
    FirstAndLastEntries(LeapMonth(p, year));
    FirstAndLastEntries(LeapMonth(p, year - 1));
  }

  /** Forward from the last entry of a year: ordinary month 1 of the next. */
  lemma StepForwardFromLastMonth(p: Provider, year: int)
    ensures StepLunar(p, LunarPosition(year, 12, LeapMonth(p, year) == 12), 1) ==
      LunarPosition(year + 1, 1, false)
  {
    var leap := LeapMonth(p, year);
    FirstAndLastEntries(leap);
    FindIndexOfEntry(leap, |MonthsInYear(leap)| - 1);
  }

  /** Next followed by previous comes back to the starting position. */
  lemma NextThenPrevious(p: Provider, pos: LunarPosition)
    requires Positioned(p, pos)
    ensures StepLunar(p, StepLunar(p, pos, 1), -1) == pos
  {
    PositionIsEntryAtIndex(p, pos);
    var i := FindIndex(YearMonths(p, pos.year), pos.month, pos.isLeapMonth);
    StepFromEntry(p, pos.year, i, 1);
    if i + 1 < |YearMonths(p, pos.year)| {
      StepFromEntry(p, pos.year, i + 1, -1);
    } else {
      StepFromEntry(p, pos.year + 1, 0, -1);
    }
  }

  /** Previous followed by next comes back to the starting position. */
  lemma PreviousThenNext(p: Provider, pos: LunarPosition)
    requires Positioned(p, pos)
    ensures StepLunar(p, StepLunar(p, pos, -1), 1) == pos
  {
    PositionIsEntryAtIndex(p, pos);
    var i := FindIndex(YearMonths(p, pos.year), pos.month, pos.isLeapMonth);
    StepFromEntry(p, pos.year, i, -1);
    if i > 0 {
      StepFromEntry(p, pos.year, i - 1, 1);
    } else {
      var last := |YearMonths(p, pos.year - 1)| - 1;
      StepFromEntry(p, pos.year - 1, last, 1);
    }
  }

  /** The Gregorian month stays in 1..12 whatever the step. */
  lemma StepGregorianMonthInRange(pos: GregorianPosition, direction: int)
    ensures 1 <= StepGregorian(pos, direction).month <= 12
  {
  }

  /** A step of one changes the year by exactly one, and only at the 12 -> 1 or
      1 -> 12 wrap; otherwise the month moves by one. */
  lemma StepGregorianYearChange(pos: GregorianPosition, direction: int)
    requires 1 <= pos.month <= 12
    requires direction == 1 || direction == -1
    ensures var next := StepGregorian(pos, direction);
      var wraps := (pos.month == 12 && direction == 1) || (pos.month == 1 && direction == -1);
      && (wraps ==> next.year == pos.year + direction && next.month == (if direction == 1 then 1 else 12))
      && (!wraps ==> next.year == pos.year && next.month == pos.month + direction)
  {
  }

  /** Next followed by previous, and previous followed by next, come back. */
  lemma GregorianStepsCancel(pos: GregorianPosition)
    requires 1 <= pos.month <= 12
    ensures StepGregorian(StepGregorian(pos, 1), -1) == pos
    ensures StepGregorian(StepGregorian(pos, -1), 1) == pos
  {
  }

  /** Year selection keeps the month number, lands on an entry of the new
      year, and clears the leap flag exactly when the new year lacks the entry. */
  lemma SelectLunarYearIsPositioned(p: Provider, pos: LunarPosition, year: int)
    requires 1 <= pos.month <= 12
    ensures var next := SelectLunarYear(p, pos, year);
      && Positioned(p, next)
      && next.year == year && next.month == pos.month
      && (next.isLeapMonth == pos.isLeapMonth <==>
            (!pos.isLeapMonth || MonthDescriptor(pos.month, true) in YearMonths(p, year)))
  {
    MonthsInYearMembers(LeapMonth(p, year), MonthDescriptor(pos.month, false));
    MonthsInYearMembers(LeapMonth(p, year), MonthDescriptor(pos.month, true));
  }

  /** Today's lunar date is a position the shells can show. */
  lemma TodayIsPositioned(p: Provider, now: SolarDate)
    requires ValidProvider(p) && ValidSolar(now)
    ensures Positioned(p, TodayPosition(CurrentLunarDate(p, now)))
  {
    PositionedIsEntry(p, TodayPosition(CurrentLunarDate(p, now)));
  }

  /** A positioned lunar view always loads its month: the library's
      InvalidMonth error is unreachable from the shells. */
  lemma PositionedMonthLoads(p: Provider, t: Tables, pos: LunarPosition)
    requires ValidProvider(p) && Positioned(p, pos)
    ensures var r := LunarMonth(p, t, pos.year, pos.month, pos.isLeapMonth);
      r.Success? && (|r.value| == 29 || |r.value| == 30)
  {
    PositionedIsEntry(p, pos);
    ListedMonthsLoad(p, t, pos.year, MonthDescriptor(pos.month, pos.isLeapMonth));
  }

  /** Each month option value reads back as the entry it was built from; each
      Gregorian option value reads back as its month number. */
  lemma MonthSelectValuesParse(p: Provider, year: int)
    ensures var months := YearMonths(p, year);
      var values := LunarMonthValues(p, year);
      forall i :: 0 <= i < |values| ==>
        ParseLunarMonthValue(values[i]) == (Some(months[i].month), months[i].isLeapMonth)
    ensures forall i :: 0 <= i < 12 ==> ParseInt(GregorianMonthValues()[i]) == Some(i + 1)
  {
    var months := YearMonths(p, year);
    forall i | 0 <= i < |months|
      ensures ParseLunarMonthValue(LunarMonthValues(p, year)[i]) == (Some(months[i].month), months[i].isLeapMonth)
    {
      LunarMonthValueRoundTrip(months[i].month, months[i].isLeapMonth);
    }
    forall i | 0 <= i < 12 ensures ParseInt(GregorianMonthValues()[i]) == Some(i + 1) {
      ParseIntOfIntToString(i + 1);
    }
  }

  /** Every year option value reads back as its year, and only those 101 years
      can be selected. */
  lemma YearSelectValuesParse(currentYear: int, value: string)
    ensures forall i :: 0 <= i < 101 ==>
      ParseInt(YearSelectValues(currentYear)[i]) == Some(currentYear - 50 + i)
    ensures value in YearSelectValues(currentYear) ==>
      ParseInt(value).Some? && currentYear - 50 <= ParseInt(value).value <= currentYear + 50
  {
    forall i | 0 <= i < 101
      ensures ParseInt(YearSelectValues(currentYear)[i]) == Some(currentYear - 50 + i)
    {
      ParseIntOfIntToString(currentYear - 50 + i);
    }
  }

  /** In a valid state the grid data always loads; the lunar view gets
      29 or 30 day records. */
  lemma ValidStateLoads(p: Provider, t: Tables, mode: ViewMode, lunar: LunarPosition,
                        gregorian: GregorianPosition)
    requires ValidProvider(p) && Positioned(p, lunar) && 1 <= gregorian.month <= 12
    ensures var r := MonthViewOf(p, t, mode, lunar, gregorian);
      && r.Success?
      && (mode == LunarMode ==> r.value.LunarDays? && (|r.value.days| == 29 || |r.value.days| == 30))
      && (mode == GregorianMode ==> r.value.GregorianCells?)
  {
    PositionedMonthLoads(p, t, lunar);
  }
}
