/** The mini-program's index page: `this.data` is the fields of `IndexPage`,
    and each `setData` is a direct update of those fields followed by
    `render`, which recomputes the selector options, the today button and the
    grid data from the navigation state. */
module MiniProgram {
  import opened Wrappers
  import opened Provider
  import opened Service
  import opened OptionValue
  import opened Navigation

  /** A year picker entry `{ value: year, label }`; the label's text is reduced
      to the Huangdi year it shows. */
  datatype YearOption = YearOption(value: int, huangdiYear: int)

  /** A month picker entry: `{ month, isLeapMonth, label }` in the lunar view,
      `{ value, label }` in the Gregorian view. */
  datatype MonthOption =
    | LunarMonthOption(month: int, isLeapMonth: bool, name: string)
    | GregorianMonthOption(value: int, name: string)

  /** What `populateYearOptions` builds around `currentYear`. */
  function YearOptionsFor(currentYear: int): seq<YearOption> {
    seq(101, i => YearOption(currentYear - 50 + i, HuangdiYearNumber(currentYear - 50 + i)))
  }

  /** What `populateMonthOptions` builds: one option per entry of the lunar
      year, or one per Gregorian month. */
  function MonthOptionsFor(p: Provider, t: Tables, mode: ViewMode, lunarYear: int): seq<MonthOption>
    requires ValidTables(t)
  {
    if mode == LunarMode then
      var months := YearMonths(p, lunarYear);
      seq(|months|, i requires 0 <= i < |months| =>
        LunarMonthOption(months[i].month, months[i].isLeapMonth,
                         ChineseMonthName(t, months[i].month, months[i].isLeapMonth)))
    else
      seq(12, i requires 0 <= i < 12 => GregorianMonthOption(i + 1, t.gregorianMonths[i]))
  }

  /** The picker index `populateMonthOptions` selects: the current entry's
      index, or 0 when there is none. */
  function MonthIndexFor(p: Provider, mode: ViewMode, lunar: LunarPosition, gregorianMonth: int): int {
    if mode == LunarMode then
      var i := FindIndex(YearMonths(p, lunar.year), lunar.month, lunar.isLeapMonth);
      if i >= 0 then i else 0
    else if 1 <= gregorianMonth <= 12 then gregorianMonth - 1
    else 0
  }

  /** The year options are the 101 consecutive years centred on the current
      year, and index 50 holds the current year. */
  lemma YearOptionsCentred(currentYear: int)
    ensures var options := YearOptionsFor(currentYear);
      && |options| == 101
      && options[0].value == currentYear - 50
      && options[50].value == currentYear
      && options[100].value == currentYear + 50
      && (forall i :: 0 < i < 101 ==> options[i].value == options[i - 1].value + 1)
      && (forall i :: 0 <= i < 101 ==> options[i].huangdiYear == options[i].value + HUANGDI_OFFSET)
  {
    var options := YearOptionsFor(currentYear);
    forall i | 0 <= i < 101
      ensures options[i].huangdiYear == options[i].value + HUANGDI_OFFSET
    {
      assert options[i] == YearOption(currentYear - 50 + i, HuangdiYearNumber(currentYear - 50 + i));
    }
  }

  /** The lunar options list the year's entries in order, and in a positioned
      state the selected option is the current entry; the Gregorian options
      are the months 1..12 and the selected one is the current month. */
  lemma MonthOptionsMirrorMonths(p: Provider, t: Tables, lunar: LunarPosition, gregorianMonth: int)
    requires ValidTables(t)
    ensures var options := MonthOptionsFor(p, t, LunarMode, lunar.year);
      var months := YearMonths(p, lunar.year);
      && |options| == |months|
      && (forall i :: 0 <= i < |options| ==>
            options[i].LunarMonthOption? &&
            MonthDescriptor(options[i].month, options[i].isLeapMonth) == months[i])
      && (Positioned(p, lunar) ==>
            var k := MonthIndexFor(p, LunarMode, lunar, gregorianMonth);
            0 <= k < |options| && options[k].month == lunar.month && options[k].isLeapMonth == lunar.isLeapMonth)
    ensures var options := MonthOptionsFor(p, t, GregorianMode, lunar.year);
      && |options| == 12
      && (forall i :: 0 <= i < 12 ==> options[i].GregorianMonthOption? && options[i].value == i + 1)
      && (1 <= gregorianMonth <= 12 ==>
            options[MonthIndexFor(p, GregorianMode, lunar, gregorianMonth)].value == gregorianMonth)
  {
    if Positioned(p, lunar) {
      PositionIsEntryAtIndex(p, lunar);
    }
  }

  class IndexPage {
    const provider: Provider
    const tables: Tables
    const todayLunar: CurrentLunar
    const todayGregorian: SolarDate

    var viewMode: ViewMode
    var lunarYear: int
    var lunarMonth: int
    var isLeapMonth: bool
    var gregorianYear: int
    var gregorianMonth: int

    var yearOptions: seq<YearOption>
    var yearIndex: int
    var monthOptions: seq<MonthOption>
    var monthIndex: int
    var showTodayBtn: bool
    var days: MonthView

    function LunarPos(): LunarPosition
      reads this`lunarYear, this`lunarMonth, this`isLeapMonth
    {
      LunarPosition(lunarYear, lunarMonth, isLeapMonth)
    }

    function GregorianPos(): GregorianPosition
      reads this`gregorianYear, this`gregorianMonth
    {
      GregorianPosition(gregorianYear, gregorianMonth)
    }

    function CurrentYear(): int
      reads this`viewMode, this`lunarYear, this`gregorianYear
    {
      SelectedYear(viewMode, lunarYear, gregorianYear)
    }

    /** The navigation state: the lunar state is an entry of its year's
        months, the Gregorian month is in 1..12, and today's lunar month is a
        position too. The handlers need no more than this, since each one ends
        in `render`, which rebuilds the rest of `Valid`. */
    ghost predicate StateValid()
      reads this
    {
      && ValidProvider(provider)
      && ValidTables(tables)
      && ValidSolar(todayGregorian)
      && Positioned(provider, TodayPosition(todayLunar))
      && Positioned(provider, LunarPos())
      && 1 <= gregorianMonth <= 12
    }

    /** The navigation state, with the rendered data `render` derives from it. */
    ghost predicate Valid()
      reads this
    {
      && StateValid()
      && yearOptions == YearOptionsFor(CurrentYear())
      && yearIndex == 50
      && monthOptions == MonthOptionsFor(provider, tables, viewMode, lunarYear)
      && monthIndex == MonthIndexFor(provider, viewMode, LunarPos(), gregorianMonth)
      && showTodayBtn == !IsShowingToday()
      && MonthViewOf(provider, tables, viewMode, LunarPos(), GregorianPos()) == Success(days)
    }

    /** `onLoad`: both views start at today, then the page renders. */
    constructor (p: Provider, t: Tables, now: SolarDate)
      requires ValidProvider(p) && ValidTables(t) && ValidSolar(now)
      ensures Valid()
      ensures provider == p && tables == t
      ensures todayLunar == CurrentLunarDate(p, now) && todayGregorian == now
      ensures viewMode == LunarMode
      ensures LunarPos() == TodayPosition(CurrentLunarDate(p, now))
      ensures GregorianPos() == GregorianPosition(now.year, now.month)
    {
      provider := p;
      tables := t;
      todayGregorian := now;
      var today := CurrentLunarDate(p, now);
      todayLunar := today;
      viewMode := LunarMode;
      lunarYear := today.year;
      lunarMonth := Abs(today.month);
      isLeapMonth := today.isLeapMonth;
      gregorianYear := now.year;
      gregorianMonth := now.month;
      yearOptions := [];
      yearIndex := 50;
      monthOptions := [];
      monthIndex := 0;
      showTodayBtn := false;
      days := LunarDays([]);
      new;
      TodayIsPositioned(p, now);
      Render();
    }

    /** `isShowingToday`: the active view shows today's month. */
    function IsShowingToday(): (r: bool)
      reads this`viewMode, this`lunarYear, this`lunarMonth, this`isLeapMonth
      reads this`gregorianYear, this`gregorianMonth
      ensures viewMode == LunarMode ==> (r <==> LunarPos() == TodayPosition(todayLunar))
      ensures viewMode == GregorianMode ==>
        (r <==> GregorianPos() == GregorianPosition(todayGregorian.year, todayGregorian.month))
    {
      if viewMode == LunarMode then
        lunarYear == todayLunar.year && lunarMonth == Abs(todayLunar.month)
        && isLeapMonth == todayLunar.isLeapMonth
      else
        gregorianYear == todayGregorian.year && gregorianMonth == todayGregorian.month
    }

    /** `populateYearOptions`: `yearIndex` starts at 50 and is set again where
        the year equals the current year, which is entry 50. */
    method PopulateYearOptions() returns (options: seq<YearOption>, index: int)
      ensures options == YearOptionsFor(CurrentYear())
      ensures index == 50 && options[index].value == CurrentYear()
    {
      var currentYear := if viewMode == LunarMode then lunarYear else gregorianYear;
      var startYear := currentYear - 50;
      var endYear := currentYear + 50;
      options := [];
      index := 50;
      var year := startYear;
      while year <= endYear
        invariant startYear <= year <= endYear + 1
        invariant |options| == year - startYear
        invariant forall i :: 0 <= i < |options| ==>
          options[i] == YearOption(startYear + i, startYear + i + 2697)
        invariant index == 50
      {
        var huangdiYear := year + 2697;
        options := options + [YearOption(year, huangdiYear)];
        if year == currentYear {
          index := |options| - 1;
        }
        year := year + 1;
      }
      forall i | 0 <= i < 101 ensures options[i] == YearOptionsFor(currentYear)[i] {
        assert options[i] == YearOption(startYear + i, startYear + i + 2697);
        assert YearOptionsFor(currentYear)[i] == YearOption(currentYear - 50 + i, HuangdiYearNumber(currentYear - 50 + i));
      }
    }

    /** `populateMonthOptions`: one option per entry (or per Gregorian month);
        `monthIndex` ends at the entry matching the state, 0 when none does.
        The loop keeps the last match; entries are distinct, so it is the only
        one. */
    method PopulateMonthOptions() returns (options: seq<MonthOption>, index: int)
      requires ValidTables(tables)
      ensures options == MonthOptionsFor(provider, tables, viewMode, lunarYear)
      ensures index == MonthIndexFor(provider, viewMode, LunarPos(), gregorianMonth)
    {
      options := [];
      index := 0;
      if viewMode == LunarMode {
        var monthsInYear := GetMonthsInYear(provider, lunarYear);
        ghost var found := FindIndex(monthsInYear, lunarMonth, isLeapMonth);
        EntriesDistinct(LeapMonth(provider, lunarYear));
        var k := 0;
        while k < |monthsInYear|
          invariant 0 <= k <= |monthsInYear|
          invariant |options| == k
          invariant forall i :: 0 <= i < k ==>
            options[i] == LunarMonthOption(monthsInYear[i].month, monthsInYear[i].isLeapMonth,
              ChineseMonthName(tables, monthsInYear[i].month, monthsInYear[i].isLeapMonth))
          invariant index == if 0 <= found < k then found else 0
        {
          var m := monthsInYear[k];
          var name := ChineseMonthName(tables, m.month, m.isLeapMonth);
          options := options + [LunarMonthOption(m.month, m.isLeapMonth, name)];
          if m.month == lunarMonth && m.isLeapMonth == isLeapMonth {
            index := k;
          }
          k := k + 1;
        }
      } else {
        var k := 0;
        while k < 12
          invariant 0 <= k <= 12
          invariant |options| == k
          invariant forall i :: 0 <= i < k ==> options[i] == GregorianMonthOption(i + 1, tables.gregorianMonths[i])
          invariant index == if 1 <= gregorianMonth <= k then gregorianMonth - 1 else 0
        {
          options := options + [GregorianMonthOption(k + 1, tables.gregorianMonths[k])];
          if k + 1 == gregorianMonth {
            index := k;
          }
          k := k + 1;
        }
      }
    }

    /** The `getLunarMonth` / `getGregorianMonth` call of `renderLunar` /
        `renderGregorian`: in a valid navigation state it never fails. */
    method LoadMonth() returns (view: MonthView)
      requires StateValid()
      ensures MonthViewOf(provider, tables, viewMode, LunarPos(), GregorianPos()) == Success(view)
      ensures viewMode == LunarMode ==> view.LunarDays? && (|view.days| == 29 || |view.days| == 30)
    {
      ValidStateLoads(provider, tables, viewMode, LunarPos(), GregorianPos());
      if viewMode == LunarMode {
        var r := GetLunarMonth(provider, tables, lunarYear, lunarMonth, isLeapMonth);
        view := LunarDays(r.value);
      } else {
        var cells := GetGregorianMonth(provider, tables, gregorianYear, gregorianMonth);
        view := GregorianCells(cells);
      }
    }

    /** `render`: recompute the today button, both pickers and the grid data;
        the navigation state is left as it is. */
    method Render()
      requires StateValid()
      modifies this
      ensures Valid()
      ensures viewMode == old(viewMode) && LunarPos() == old(LunarPos()) && GregorianPos() == old(GregorianPos())
    {
      ghost var mode, year, lunar, gregorian := viewMode, CurrentYear(), LunarPos(), GregorianPos();
      var hideToday := IsShowingToday();
      var newYearOptions, newYearIndex := PopulateYearOptions();
      var newMonthOptions, newMonthIndex := PopulateMonthOptions();
      var view := LoadMonth();
      showTodayBtn, yearOptions, yearIndex, monthOptions, monthIndex, days :=
        !hideToday, newYearOptions, newYearIndex, newMonthOptions, newMonthIndex, view;
      assert viewMode == mode && CurrentYear() == year && LunarPos() == lunar && GregorianPos() == gregorian;
    }

    /** `onViewToggle`: only the mode changes. */
    method OnViewToggle(mode: ViewMode)
      requires Valid()
      modifies this
      ensures Valid()
      ensures viewMode == mode
      ensures LunarPos() == old(LunarPos()) && GregorianPos() == old(GregorianPos())
    {
      if viewMode == mode {
        return;
      }
      viewMode := mode;
      Render();
    }

    /** `onTodayTap`: the active view moves to today's month, the other keeps
        its month; afterwards `isShowingToday()` holds and the today button is
        hidden. */
    method OnTodayTap()
      requires StateValid()
      modifies this
      ensures Valid()
      ensures viewMode == old(viewMode)
      ensures viewMode == LunarMode ==>
        LunarPos() == TodayPosition(todayLunar) && GregorianPos() == old(GregorianPos())
      ensures viewMode == GregorianMode ==>
        GregorianPos() == GregorianPosition(todayGregorian.year, todayGregorian.month)
        && LunarPos() == old(LunarPos())
      ensures IsShowingToday() && !showTodayBtn
    {
      if viewMode == LunarMode {
        lunarYear, lunarMonth, isLeapMonth := todayLunar.year, Abs(todayLunar.month), todayLunar.isLeapMonth;
      } else {
        gregorianYear, gregorianMonth := todayGregorian.year, todayGregorian.month;
      }
      Render();
    }

    /** `onYearChange`: the picker index chooses year `currentYear - 50 + index`;
        the lunar view changes year as `SelectLunarYear` says, the Gregorian
        view only changes year. */
    method OnYearChange(index: int)
      requires StateValid() && yearOptions == YearOptionsFor(CurrentYear())
      requires 0 <= index < |yearOptions|
      modifies this
      ensures Valid()
      ensures viewMode == old(viewMode)
      ensures viewMode == LunarMode ==>
        LunarPos() == SelectLunarYear(provider, old(LunarPos()), old(CurrentYear()) - 50 + index)
        && GregorianPos() == old(GregorianPos())
      ensures viewMode == GregorianMode ==>
        GregorianPos() == GregorianPosition(old(CurrentYear()) - 50 + index, old(gregorianMonth))
        && LunarPos() == old(LunarPos())
    {
      var year := yearOptions[index].value;
      assert year == CurrentYear() - 50 + index by {
        assert yearOptions[index] == YearOptionsFor(CurrentYear())[index];
      }
      ChangeYear(year, index);
    }

    /** The state change of `onYearChange` once the year is read off the
        picker: the lunar view keeps its month and keeps the leap flag only
        when that month exists in the new year. */
    method ChangeYear(year: int, index: int)
      requires StateValid()
      modifies this
      ensures Valid()
      ensures viewMode == old(viewMode)
      ensures viewMode == LunarMode ==>
        LunarPos() == SelectLunarYear(provider, old(LunarPos()), year) && GregorianPos() == old(GregorianPos())
      ensures viewMode == GregorianMode ==>
        GregorianPos() == GregorianPosition(year, old(gregorianMonth)) && LunarPos() == old(LunarPos())
    {
      ghost var lunar0, gregorian0 := LunarPos(), GregorianPos();
      if viewMode == LunarMode {
        SelectLunarYearIsPositioned(provider, lunar0, year);
        var monthsInYear := GetMonthsInYear(provider, year);
        var currentMonthExists := MonthDescriptor(lunarMonth, isLeapMonth) in monthsInYear;
        var leap := if currentMonthExists then isLeapMonth else false;
        assert LunarPosition(year, lunarMonth, leap) == SelectLunarYear(provider, lunar0, year);
        lunarYear, yearIndex, isLeapMonth := year, index, leap;
      } else {
        gregorianYear, yearIndex := year, index;
      }
      ghost var lunar1, gregorian1 := LunarPos(), GregorianPos();
      assert viewMode == LunarMode ==>
        lunar1 == SelectLunarYear(provider, lunar0, year) && gregorian1 == gregorian0;
      assert viewMode == GregorianMode ==>
        gregorian1 == GregorianPosition(year, gregorian0.month) && lunar1 == lunar0;
      Render();
      assert LunarPos() == lunar1 && GregorianPos() == gregorian1;
    }

    /** `onMonthChange`: the picker index chooses an option, and the state
        copies it: the lunar view takes that entry of the year, the Gregorian
        view month `index + 1`. */
    method OnMonthChange(index: int)
      requires StateValid() && monthOptions == MonthOptionsFor(provider, tables, viewMode, lunarYear)
      requires 0 <= index < |monthOptions|
      modifies this
      ensures Valid()
      ensures viewMode == old(viewMode)
      ensures viewMode == LunarMode ==>
        lunarYear == old(lunarYear) && index < |YearMonths(provider, lunarYear)|
        && MonthDescriptor(lunarMonth, isLeapMonth) == YearMonths(provider, lunarYear)[index]
        && GregorianPos() == old(GregorianPos())
      ensures viewMode == GregorianMode ==>
        GregorianPos() == GregorianPosition(old(gregorianYear), index + 1)
        && LunarPos() == old(LunarPos())
    {
      ghost var lunar0, gregorian0 := LunarPos(), GregorianPos();
      MonthOptionsMirrorMonths(provider, tables, lunar0, gregorianMonth);
      var monthOption := monthOptions[index];
      if viewMode == LunarMode {
        assert LunarPosition(lunarYear, monthOption.month, monthOption.isLeapMonth)
          == EntryPosition(provider, lunarYear, index);
        EntryIsPositioned(provider, lunarYear, index);
        lunarMonth, isLeapMonth, monthIndex := monthOption.month, monthOption.isLeapMonth, index;
      } else {
        assert monthOption.value == index + 1;
        gregorianMonth, monthIndex := monthOption.value, index;
      }
      ghost var lunar1, gregorian1 := LunarPos(), GregorianPos();
      Render();
      assert LunarPos() == lunar1 && GregorianPos() == gregorian1;
    }

    /** `navigateMonth`: a step in the active view; the other view is kept. */
    method NavigateMonth(direction: int)
      requires StateValid()
      modifies this
      ensures Valid()
      ensures viewMode == old(viewMode)
      ensures viewMode == LunarMode ==>
        LunarPos() == StepLunar(provider, old(LunarPos()), direction) && GregorianPos() == old(GregorianPos())
      ensures viewMode == GregorianMode ==>
        GregorianPos() == StepGregorian(old(GregorianPos()), direction) && LunarPos() == old(LunarPos())
    {
      if viewMode == LunarMode {
        NavigateLunarMonth(direction);
      } else {
        NavigateGregorianMonth(direction);
      }
    }

    /** `navigateLunarMonth`: the step `StepLunar` describes, computed from a
        copy of the state and then committed. */
    method NavigateLunarMonth(direction: int)
      requires StateValid()
      modifies this
      ensures Valid()
      ensures LunarPos() == StepLunar(provider, old(LunarPos()), direction)
      ensures viewMode == old(viewMode) && GregorianPos() == old(GregorianPos())
    {
      ghost var target, gregorian0 := StepLunar(provider, LunarPos(), direction), GregorianPos();
      StepLunarIsPositioned(provider, LunarPos(), direction);
      var year, month, leap := LunarStep(direction);
      lunarYear, lunarMonth, isLeapMonth := year, month, leap;
      assert LunarPos() == target && GregorianPos() == gregorian0;
      Render();
      assert LunarPos() == target && GregorianPos() == gregorian0;
    }

    /** The body of `navigateLunarMonth` up to its `setData`: the neighbouring
        entry in the year's list, or the previous year's last entry, or month
        1 of the next year. */
    method LunarStep(direction: int) returns (year: int, month: int, leap: bool)
      ensures LunarPosition(year, month, leap) == StepLunar(provider, LunarPos(), direction)
    {
      ghost var start := LunarPos();
      ghost var target := StepLunar(provider, start, direction);
      year, month, leap := lunarYear, lunarMonth, isLeapMonth;
      var monthsInYear := GetMonthsInYear(provider, year);
      var currentIndex := FindIndex(monthsInYear, month, leap);
      var newIndex := currentIndex + direction;
      if newIndex < 0 {
        var newYear := year - 1;
        var prevYearMonths := GetMonthsInYear(provider, newYear);
        var lastMonth := prevYearMonths[|prevYearMonths| - 1];
        assert target == LunarPosition(newYear, lastMonth.month, lastMonth.isLeapMonth);
        year, month, leap := newYear, lastMonth.month, lastMonth.isLeapMonth;
      } else if newIndex >= |monthsInYear| {
        assert target == LunarPosition(year + 1, 1, false);
        year, month, leap := year + 1, 1, false;
      } else {
        assert target == LunarPosition(year, monthsInYear[newIndex].month, monthsInYear[newIndex].isLeapMonth);
        month, leap := monthsInYear[newIndex].month, monthsInYear[newIndex].isLeapMonth;
      }
    }

    /** `navigateGregorianMonth`: the step `StepGregorian` describes, computed
        on local copies and then committed. */
    method NavigateGregorianMonth(direction: int)
      requires StateValid()
      modifies this
      ensures Valid()
      ensures GregorianPos() == StepGregorian(old(GregorianPos()), direction)
      ensures viewMode == old(viewMode) && LunarPos() == old(LunarPos())
    {
      var year, month := gregorianYear, gregorianMonth;
      month := month + direction;
      if month < 1 {
        year := year - 1;
        month := 12;
      } else if month > 12 {
        year := year + 1;
        month := 1;
      }
      gregorianYear, gregorianMonth := year, month;
      Render();
    }
  }
}
