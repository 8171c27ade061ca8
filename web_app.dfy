/** The web page's `App` class: the navigation state lives in fields that the
    event handlers update in place. */
module WebApp {
  import opened Wrappers
  import opened Provider
  import opened Service
  import opened OptionValue
  import opened Navigation
  import opened Selects

  class App {
    const provider: Provider
    const tables: Tables
    const todayLunar: CurrentLunar
    const todayGregorian: SolarDate

    var viewMode: ViewMode
    var lunarYear: int
    var lunarMonth: int
    var isLeapMonth: bool
    var gregorianYear: int
    var gregorianMonth: int

    function LunarPos(): LunarPosition
      reads this`lunarYear, this`lunarMonth, this`isLeapMonth
    {
      LunarPosition(lunarYear, lunarMonth, isLeapMonth)
    }

    function GregorianPos(): GregorianPosition
      reads this`gregorianYear, this`gregorianMonth
    {
      GregorianPosition(gregorianYear, gregorianMonth)
    }

    /** The lunar state is an entry of its year's months, the Gregorian month
        is in 1..12, and today's lunar month is a position too. */
    ghost predicate Valid()
      reads this
    {
      && ValidProvider(provider)
      && ValidSolar(todayGregorian)
      && Positioned(provider, TodayPosition(todayLunar))
      && Positioned(provider, LunarPos())
      && 1 <= gregorianMonth <= 12
    }

    /** The constructor and `init`: both views start at today. */
    constructor (p: Provider, t: Tables, now: SolarDate)
      requires ValidProvider(p) && ValidSolar(now)
      ensures Valid()
      ensures provider == p && tables == t
      ensures todayLunar == CurrentLunarDate(p, now) && todayGregorian == now
      ensures viewMode == LunarMode
      ensures LunarPos() == TodayPosition(CurrentLunarDate(p, now))
      ensures GregorianPos() == GregorianPosition(now.year, now.month)
    {
      provider := p;
      tables := t;
      todayGregorian := now;
      var today := CurrentLunarDate(p, now);
      todayLunar := today;
      viewMode := LunarMode;
      lunarYear := today.year;
      lunarMonth := Abs(today.month);
      isLeapMonth := today.isLeapMonth;
      gregorianYear := now.year;
      gregorianMonth := now.month;
      TodayIsPositioned(p, now);
    }

    /** `isShowingToday`: the active view shows today's month. */
    function IsShowingToday(): (r: bool)
      reads this`viewMode, this`lunarYear, this`lunarMonth, this`isLeapMonth
      reads this`gregorianYear, this`gregorianMonth
      ensures viewMode == LunarMode ==> (r <==> LunarPos() == TodayPosition(todayLunar))
      ensures viewMode == GregorianMode ==>
        (r <==> GregorianPos() == GregorianPosition(todayGregorian.year, todayGregorian.month))
    {
      if viewMode == LunarMode then
        lunarYear == todayLunar.year && lunarMonth == Abs(todayLunar.month)
        && isLeapMonth == todayLunar.isLeapMonth
      else
        gregorianYear == todayGregorian.year && gregorianMonth == todayGregorian.month
    }

    /** `setViewMode`: only the mode changes. */
    method SetViewMode(mode: ViewMode)
      requires Valid()
      modifies this
      ensures Valid()
      ensures viewMode == mode
      ensures LunarPos() == old(LunarPos()) && GregorianPos() == old(GregorianPos())
    {
      if viewMode == mode {
        return;
      }
      viewMode := mode;
    }

    /** `goToToday`: the active view moves to today's month, the other view
        keeps its month, and afterwards `isShowingToday()` holds. */
    method GoToToday()
      requires Valid()
      modifies this
      ensures Valid()
      ensures viewMode == old(viewMode)
      ensures viewMode == LunarMode ==>
        LunarPos() == TodayPosition(todayLunar) && GregorianPos() == old(GregorianPos())
      ensures viewMode == GregorianMode ==>
        GregorianPos() == GregorianPosition(todayGregorian.year, todayGregorian.month)
        && LunarPos() == old(LunarPos())
      ensures IsShowingToday()
    {
      if viewMode == LunarMode {
        lunarYear := todayLunar.year;
        lunarMonth := Abs(todayLunar.month);
        isLeapMonth := todayLunar.isLeapMonth;
      } else {
        gregorianYear := todayGregorian.year;
        gregorianMonth := todayGregorian.month;
      }
    }

    /** `onYearSelect`: the value is one of the year select's options; the
        lunar view changes year as `SelectLunarYear` says, the Gregorian view
        only changes year. */
    method OnYearSelect(value: string)
      requires Valid()
      requires value in YearSelectValues(SelectedYear(viewMode, lunarYear, gregorianYear))
      modifies this
      ensures Valid()
      ensures viewMode == old(viewMode)
      ensures ParseInt(value).Some?
      ensures viewMode == LunarMode ==>
        LunarPos() == SelectLunarYear(provider, old(LunarPos()), ParseInt(value).value)
        && GregorianPos() == old(GregorianPos())
      ensures viewMode == GregorianMode ==>
        GregorianPos() == GregorianPosition(ParseInt(value).value, old(gregorianMonth))
        && LunarPos() == old(LunarPos())
    {
      YearSelectValuesParse(SelectedYear(viewMode, lunarYear, gregorianYear), value);
      var year := ParseInt(value).value;
      if viewMode == LunarMode {
        SelectLunarYearIsPositioned(provider, LunarPos(), year);
        lunarYear := year;
        var monthsInYear := GetMonthsInYear(provider, lunarYear);
        var currentMonthExists := MonthDescriptor(lunarMonth, isLeapMonth) in monthsInYear;
        if !currentMonthExists {
          isLeapMonth := false;
        }
      } else {
        gregorianYear := year;
      }
    }

    /** `onMonthSelect`: the value is one of the month select's options; the
        lunar view takes the month and leap flag it parses to, which is one of
        the year's entries, the Gregorian view the month number. */
    method OnMonthSelect(value: string)
      requires Valid()
      requires value in MonthSelectValues(provider, viewMode, lunarYear)
      modifies this
      ensures Valid()
      ensures viewMode == old(viewMode)
      ensures viewMode == LunarMode ==>
        lunarYear == old(lunarYear)
        && ParseLunarMonthValue(value) == (Some(lunarMonth), isLeapMonth)
        && GregorianPos() == old(GregorianPos())
      ensures viewMode == GregorianMode ==>
        gregorianYear == old(gregorianYear)
        && ParseInt(value) == Some(gregorianMonth)
        && LunarPos() == old(LunarPos())
    {
      MonthSelectValuesParse(provider, lunarYear);
      ghost var lunar0, gregorian0 := LunarPos(), GregorianPos();
      if viewMode == LunarMode {
        var months := YearMonths(provider, lunarYear);
        var i :| 0 <= i < |months| && LunarMonthValues(provider, lunarYear)[i] == value;
        var parsed := ParseLunarMonthValue(value);
        ghost var next := EntryPosition(provider, lunarYear, i);
        assert parsed == (Some(next.month), next.isLeapMonth);
        EntryIsPositioned(provider, lunarYear, i);
        lunarMonth, isLeapMonth := parsed.0.value, parsed.1;
        assert LunarPos() == next && GregorianPos() == gregorian0;
      } else {
        var i :| 0 <= i < 12 && GregorianMonthValues()[i] == value;
        gregorianMonth := ParseInt(value).value;
        assert gregorianMonth == i + 1 && LunarPos() == lunar0;
      }
    }

    /** `navigateMonth`: a step in the active view; the other view is kept. */
    method NavigateMonth(direction: int)
      requires Valid()
      modifies this
      ensures Valid()
      ensures viewMode == old(viewMode)
      ensures viewMode == LunarMode ==>
        LunarPos() == StepLunar(provider, old(LunarPos()), direction) && GregorianPos() == old(GregorianPos())
      ensures viewMode == GregorianMode ==>
        GregorianPos() == StepGregorian(old(GregorianPos()), direction) && LunarPos() == old(LunarPos())
    {
      if viewMode == LunarMode {
        NavigateLunarMonth(direction);
      } else {
        NavigateGregorianMonth(direction);
      }
    }

    /** `navigateLunarMonth`: the lunar state takes the step `StepLunar`
        describes and stays an entry of its year. */
    method NavigateLunarMonth(direction: int)
      requires Valid()
      modifies this
      ensures Valid()
      ensures LunarPos() == StepLunar(provider, old(LunarPos()), direction)
      ensures viewMode == old(viewMode) && GregorianPos() == old(GregorianPos())
    {
      ghost var start := LunarPos();
      ghost var target := StepLunar(provider, start, direction);
      StepLunarIsPositioned(provider, start, direction);
      var monthsInYear := GetMonthsInYear(provider, lunarYear);
      var currentIndex := FindIndex(monthsInYear, lunarMonth, isLeapMonth);
      var newIndex := currentIndex + direction;
      if newIndex < 0 {
        lunarYear := lunarYear - 1;
        var prevYearMonths := GetMonthsInYear(provider, lunarYear);
        var lastMonth := prevYearMonths[|prevYearMonths| - 1];
        assert target == LunarPosition(start.year - 1, lastMonth.month, lastMonth.isLeapMonth);
        lunarMonth := lastMonth.month;
        isLeapMonth := lastMonth.isLeapMonth;
      } else if newIndex >= |monthsInYear| {
        assert target == LunarPosition(start.year + 1, 1, false);
        lunarYear := lunarYear + 1;
        lunarMonth := 1;
        isLeapMonth := false;
      } else {
        assert target == LunarPosition(start.year, monthsInYear[newIndex].month, monthsInYear[newIndex].isLeapMonth);
        lunarMonth := monthsInYear[newIndex].month;
        isLeapMonth := monthsInYear[newIndex].isLeapMonth;
      }
    }

    /** `navigateGregorianMonth`: the Gregorian state takes the step
        `StepGregorian` describes. */
    method NavigateGregorianMonth(direction: int)
      requires Valid()
      modifies this
      ensures Valid()
      ensures GregorianPos() == StepGregorian(old(GregorianPos()), direction)
      ensures viewMode == old(viewMode) && LunarPos() == old(LunarPos())
    {
      gregorianMonth := gregorianMonth + direction;
      if gregorianMonth < 1 {
        gregorianYear := gregorianYear - 1;
        gregorianMonth := 12;
      } else if gregorianMonth > 12 {
        gregorianYear := gregorianYear + 1;
        gregorianMonth := 1;
      }
    }

    /** The `getLunarMonth` / `getGregorianMonth` call of `renderLunar` /
        `renderGregorian`: in a valid state it never fails. */
    method LoadMonth() returns (view: MonthView)
      requires Valid()
      ensures MonthViewOf(provider, tables, viewMode, LunarPos(), GregorianPos()) == Success(view)
      ensures viewMode == LunarMode ==> view.LunarDays? && (|view.days| == 29 || |view.days| == 30)
    {
      ValidStateLoads(provider, tables, viewMode, LunarPos(), GregorianPos());
      if viewMode == LunarMode {
        var days := GetLunarMonth(provider, tables, lunarYear, lunarMonth, isLeapMonth);
        view := LunarDays(days.value);
      } else {
        var days := GetGregorianMonth(provider, tables, gregorianYear, gregorianMonth);
        view := GregorianCells(days);
      }
    }

    /** `render`: the today button is hidden exactly when the view shows
        today's month, both selects are refilled from the state, and the grid
        data is fetched; nothing in the state changes. */
    method Render() returns (todayHidden: bool, years: seq<YearSelectOption>,
                             months: seq<MonthSelectOption>, view: MonthView)
      requires Valid() && ValidTables(tables)
      ensures todayHidden == IsShowingToday()
      ensures YearSelectFor(years, SelectedYear(viewMode, lunarYear, gregorianYear))
      ensures MonthSelectFor(months, provider, tables, viewMode, LunarPos(), gregorianMonth)
      ensures viewMode == LunarMode ==>
        var i := FindIndex(YearMonths(provider, lunarYear), lunarMonth, isLeapMonth);
        0 <= i < |months| && forall j :: 0 <= j < |months| ==> (months[j].selected <==> j == i)
      ensures viewMode == GregorianMode ==>
        forall j :: 0 <= j < |months| ==> (months[j].selected <==> j == gregorianMonth - 1)
      ensures MonthViewOf(provider, tables, viewMode, LunarPos(), GregorianPos()) == Success(view)
    {
      todayHidden := IsShowingToday();
      var currentYear := if viewMode == LunarMode then lunarYear else gregorianYear;
      years := PopulateYearSelect(currentYear);
      months := PopulateMonthSelect(provider, tables, viewMode, LunarPos(), gregorianMonth);
      view := LoadMonth();
    }
  }
}
