/** The year and month `<select>` elements the web page and the popup fill on
    every render (`populateYearSelect`, `populateMonthSelect`); the two shells
    carry the same code, so it is modelled once, on the state's values. */
module Selects {
  import opened Provider
  import opened Service
  import opened OptionValue
  import opened Navigation

  /** One `<option>` of the year select: its value, the Huangdi year its label
      shows, and whether it is selected. */
  datatype YearSelectOption = YearSelectOption(value: string, huangdiYear: int, selected: bool)

  /** One `<option>` of the month select: its value, its label, and whether it
      is selected. */
  datatype MonthSelectOption = MonthSelectOption(value: string, name: string, selected: bool)

  /** The year select around `currentYear`: the values `YearSelectValues`,
      each with its Huangdi year, and the option of the current year selected. */
  ghost predicate YearSelectFor(options: seq<YearSelectOption>, currentYear: int) {
    && |options| == 101
    && forall i :: 0 <= i < 101 ==>
         && options[i].value == YearSelectValues(currentYear)[i]
         && options[i].huangdiYear == HuangdiYearNumber(currentYear - 50 + i)
         && (options[i].selected <==> currentYear - 50 + i == currentYear)
  }

  /** The month select: the values `MonthSelectValues`, labelled with the
      month's name, and selected where the option is the state's month. */
  ghost predicate MonthSelectFor(options: seq<MonthSelectOption>, p: Provider, t: Tables, mode: ViewMode,
                                 lunar: LunarPosition, gregorianMonth: int)
    requires ValidTables(t)
  {
    var values := MonthSelectValues(p, mode, lunar.year);
    && |options| == |values|
    && (forall i :: 0 <= i < |options| ==> options[i].value == values[i])
    && (mode == LunarMode ==>
          var months := YearMonths(p, lunar.year);
          forall i :: 0 <= i < |options| ==>
            && options[i].name == ChineseMonthName(t, months[i].month, months[i].isLeapMonth)
            && (options[i].selected <==> months[i] == MonthDescriptor(lunar.month, lunar.isLeapMonth)))
    && (mode == GregorianMode ==>
          forall i :: 0 <= i < |options| ==>
            options[i].name == t.gregorianMonths[i] && (options[i].selected <==> i + 1 == gregorianMonth))
  }

  /** `populateYearSelect`: 101 options, `currentYear - 50` through
      `currentYear + 50` in order; only the middle one is selected, and it is
      the current year. */
  method PopulateYearSelect(currentYear: int) returns (options: seq<YearSelectOption>)
    ensures YearSelectFor(options, currentYear)
    ensures forall i :: 0 <= i < |options| ==> (options[i].selected <==> i == 50)
    ensures options[50].value == IntToString(currentYear)
  {
    var startYear := currentYear - 50;
    var endYear := currentYear + 50;
    options := [];
    var year := startYear;
    while year <= endYear
      invariant startYear <= year <= endYear + 1
      invariant |options| == year - startYear
      invariant forall i :: 0 <= i < |options| ==>
        options[i] == YearSelectOption(IntToString(startYear + i), startYear + i + 2697, startYear + i == currentYear)
    {
      var huangdi := year + 2697;
      options := options + [YearSelectOption(IntToString(year), huangdi, year == currentYear)];
      year := year + 1;
    }
  }

  /** `populateMonthSelect`: in the lunar view one option per entry of the
      year, valued `${month}-${isLeapMonth}`; in the Gregorian view one per
      month, valued 1..12. In a valid state exactly one option is selected:
      the current entry, or the current Gregorian month. */
  method PopulateMonthSelect(p: Provider, t: Tables, mode: ViewMode, lunar: LunarPosition, gregorianMonth: int)
    returns (options: seq<MonthSelectOption>)
    requires ValidTables(t)
    ensures MonthSelectFor(options, p, t, mode, lunar, gregorianMonth)
    ensures mode == LunarMode && Positioned(p, lunar) ==>
      var i := FindIndex(YearMonths(p, lunar.year), lunar.month, lunar.isLeapMonth);
      0 <= i < |options| && forall j :: 0 <= j < |options| ==> (options[j].selected <==> j == i)
    ensures mode == GregorianMode && 1 <= gregorianMonth <= 12 ==>
      forall j :: 0 <= j < |options| ==> (options[j].selected <==> j == gregorianMonth - 1)
  {
    if mode == LunarMode {
      options := LunarMonthSelect(p, t, lunar);
      if Positioned(p, lunar) {
        SelectedEntryIsUnique(p, lunar);
      }
    } else {
      options := GregorianMonthSelect(t, gregorianMonth);
    }
  }

  /** The lunar branch of `populateMonthSelect`. */
  method LunarMonthSelect(p: Provider, t: Tables, lunar: LunarPosition) returns (options: seq<MonthSelectOption>)
    requires ValidTables(t)
    ensures forall gregorianMonth: int :: MonthSelectFor(options, p, t, LunarMode, lunar, gregorianMonth)
  {
    options := [];
    var monthsInYear := GetMonthsInYear(p, lunar.year);
    var k := 0;
    while k < |monthsInYear|
      invariant 0 <= k <= |monthsInYear|
      invariant |options| == k
      invariant forall i :: 0 <= i < k ==>
        options[i] == MonthSelectOption(
          LunarMonthValue(monthsInYear[i].month, monthsInYear[i].isLeapMonth),
          ChineseMonthName(t, monthsInYear[i].month, monthsInYear[i].isLeapMonth),
          monthsInYear[i] == MonthDescriptor(lunar.month, lunar.isLeapMonth))
    {
      var m := monthsInYear[k];
      var value := LunarMonthValue(m.month, m.isLeapMonth);
      var name := ChineseMonthName(t, m.month, m.isLeapMonth);
      options := options + [MonthSelectOption(value, name, m.month == lunar.month && m.isLeapMonth == lunar.isLeapMonth)];
      k := k + 1;
    }
  }

  /** The Gregorian branch of `populateMonthSelect`. */
  method GregorianMonthSelect(t: Tables, gregorianMonth: int) returns (options: seq<MonthSelectOption>)
    requires ValidTables(t)
    ensures forall p: Provider, lunar: LunarPosition ::
      MonthSelectFor(options, p, t, GregorianMode, lunar, gregorianMonth)
  {
    options := [];
    var k := 0;
    while k < 12
      invariant 0 <= k <= 12
      invariant |options| == k
      invariant forall i :: 0 <= i < k ==>
        options[i] == MonthSelectOption(IntToString(i + 1), t.gregorianMonths[i], i + 1 == gregorianMonth)
    {
      options := options + [MonthSelectOption(IntToString(k + 1), t.gregorianMonths[k], k + 1 == gregorianMonth)];
      k := k + 1;
    }
  }

  /** In a positioned state the current entry is listed once, at the index
      `findIndex` returns. */
  lemma SelectedEntryIsUnique(p: Provider, pos: LunarPosition)
    requires Positioned(p, pos)
    ensures var months := YearMonths(p, pos.year);
      var i := FindIndex(months, pos.month, pos.isLeapMonth);
      && 0 <= i < |months|
      && forall j :: 0 <= j < |months| ==> (months[j] == MonthDescriptor(pos.month, pos.isLeapMonth) <==> j == i)
  {
    PositionIsEntryAtIndex(p, pos);
    EntriesDistinct(LeapMonth(p, pos.year));
  }
}
