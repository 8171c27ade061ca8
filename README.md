# Lunar calendar: service and month navigation, in Dafny

This project models the core of a Chinese lunar calendar that ships as a web page, a browser-extension popup and a mini-program. The core has two parts.

- **The calendar service**, `LunarCalendarService`. It builds the day records of a lunar month and the cells of a Gregorian month grid. It lists the months of a lunar year, 12 entries or 13 with the leap month right after its namesake. It also resolves holiday labels: none in a leap month, New Year's Eve (除夕) on the last day of the twelfth month, otherwise the holiday table. Finally it gives month names and the Huangdi year number (year + 2697). The repository holds two copies of the service, in `core/` and in `chrome-extension/core/`. They differ only in comments, in the import of the constant tables and in the module export. Module `Service` therefore models both, and every operation has the same result for either copy. The copy's spans, which the core's rows below stand for as well, are:

  - `getCurrentLunarDate`: chrome-extension/core/LunarCalendarService.js:9-18;
  - `getLunarMonth`: lines 23-50;
  - `getLunarHoliday`: lines 55-65;
  - `getHuangdiYearNumber`: lines 88-90;
  - `getChineseMonthName`: lines 95-99;
  - `getLeapMonth`: lines 104-107;
  - `getMonthsInYear`: lines 112-123;
  - `getGregorianMonth`: lines 140-181.
- **The month-navigation state machine**, implemented three times: by the web page's `App` class, by the popup's module-level variables and by the mini-program's page data. The lunar view holds (year, month, leap flag). It steps through the entries of `getMonthsInYear` and wraps to the neighbouring year. The Gregorian view holds (year, month) and wraps December to January. The year and month selects, the go-to-today button and the "today" test are built on this state.

## Files

- `wrappers.dfy`: `Option` and `Result`.
- `host_date.dfy`: the host `Date` arithmetic `getGregorianMonth` uses. It covers month length, the weekday of the first, and the constructor's reading of years 0..99 as 1900..1999.
- `provider.dfy`: the lunar-javascript library as a value of total functions (`Provider`). `ValidProvider` states the facts the model assumes of it:
  - the leap month is in 0..12;
  - an existing month has 29 or 30 days;
  - a Gregorian day converts to an existing lunar day and back.

  A stand-in library shows these assumptions can all hold at once.
- `service.dfy`: the calendar service. Each array-building operation is a method with loop invariants, proved equal to a specification function, and the properties are lemmas about that function. `LUNAR_HOLIDAYS`, `MONTH_NAMES` and `GREGORIAN_MONTHS` are a `Tables` parameter.
- `option_value.dfy`: the strings the shells write into `<option>` values and read back: decimal printing, `split('-')` and `parseInt`.
- `navigation.dfy`: the transitions as functions (`StepLunar`, `StepGregorian`, `SelectLunarYear`, `TodayPosition`), with lemmas about them.
  - The shells' invariant is `Positioned`: the month is in 1..12 and is flagged leap only when it is the year's leap month. `PositionedIsEntry` proves this is the same as "(month, leap) is an entry of `getMonthsInYear(year)`".
- `selects.dfy`: `populateYearSelect` and `populateMonthSelect`, shared by the web page and the popup.
- `web_app.dfy`, `popup.dfy`, `mini_program.dfy`: one class per shell, whose fields the handlers update in place.
  - Every handler keeps `Valid()`, and its new state is stated through the `Navigation` functions.
  - The web page and the popup end each handler with `render()`. `render()` changes no state the model keeps: its output is the DOM. It is therefore the separate `Render` method, which returns what is drawn.
  - The mini-program's `render` does write page data. Each `setData` there is modelled as a direct update followed by `Render`.

## Model

| member | source | states |
|---|---|---|
| Service.OrNull | core/LunarCalendarService.js:47 | definition of `s \|\| null` on a string: null exactly for the empty string, otherwise the string itself |
| Service.LeapMonthHasNoHoliday | core/LunarCalendarService.js:57-59 | a day of a leap month never gets a holiday, whatever the month, day and day count |
| Service.EveOverridesTable | core/LunarCalendarService.js:60-63 | the last day of an ordinary twelfth month is 除夕 whatever the table holds for that key, for a 29- or a 30-day month |
| Service.OtherDaysUseTable | core/LunarCalendarService.js:65-66 | every other ordinary day gets the table's non-empty label or null; in a 30-day twelfth month day 29 falls through to the table |
| Service.HolidayLabelOrigin | core/LunarCalendarService.js:57-67 | a reported holiday is never in a leap month, never empty, and is either 除夕 on the twelfth month's last day or the table's label for that (month, day) |
| Service.MonthNameBoundaries | core/LunarCalendarService.js:99-103 | month 1 is named by table entry 0 and month 12 by entry 11; a leap month gets the 闰 prefix before its table entry |
| Service.LeapNameExtendsOrdinaryName | core/LunarCalendarService.js:99-103 | a leap month's name is 闰 followed by its namesake's name, and the month number's sign does not change the name |
| Service.HuangdiIsShift | core/LunarCalendarService.js:92-94 | the Huangdi year number is the year shifted by 2697: it keeps distances between years and is 2697 at year 0 |
| Service.LeapMonth | core/LunarCalendarService.js:108-111 | under a valid library the year's leap month is in 0..12 |
| Service.MonthsUpToAt | core/LunarCalendarService.js:116-127 | after the loop has handled months 1..k, the list has k entries (plus one if the leap month is among them), each at its closed-form place |
| Service.MonthsInYear | core/LunarCalendarService.js:116-127 | a year has 13 entries when its leap month is in 1..12 and 12 otherwise; every entry's month is in 1..12 |
| Service.GetMonthsInYear | core/LunarCalendarService.js:116-127 | the loop's pushes produce exactly `MonthsInYear` of the year's leap month |
| Service.MonthsInYearMembers | core/LunarCalendarService.js:116-127 | (month, leap) is an entry exactly when the month is in 1..12 and, if flagged leap, it is the year's leap month |
| Service.OrdinaryMonthsAscending | core/LunarCalendarService.js:120-121 | the ordinary months 1..12 all appear, in strictly ascending order |
| Service.LeapEntryFollowsNamesake | core/LunarCalendarService.js:120-124 | at most one entry is leap; it is the year's leap month and sits right after the ordinary entry of the same number; it exists exactly when the leap month is in 1..12 |
| Service.EntriesDistinct | core/LunarCalendarService.js:116-127 | no (month, leap) entry is listed twice |
| Service.FirstAndLastEntries | core/LunarCalendarService.js:116-127 | a year starts with ordinary month 1 and ends with month 12, which is leap only when the leap month is 12 |
| Service.GetLunarMonth | core/LunarCalendarService.js:25-52 | the loop builds exactly `LunarMonth`; a month the library does not have is the `InvalidMonth` error |
| Service.LunarMonthShape | core/LunarCalendarService.js:25-52 | the month loads exactly when the library has the signed month `-\|m\|` (leap) or `m` (ordinary); it then has `dayCount` records, record i has lunar day i+1 and the Gregorian date the library gives for that signed month and day |
| Service.ListedMonthsLoad | core/LunarCalendarService.js:26-28 | every entry `getMonthsInYear` lists loads under a valid library, with 29 or 30 records numbered from 1 |
| Service.LunarMonthHolidays | core/LunarCalendarService.js:39 | in a loaded leap month no record has a holiday; in an ordinary twelfth month the last record is 除夕 |
| Service.GetGregorianMonth | core/LunarCalendarService.js:144-190 | the padding loop and the day loop build exactly `GregorianMonth` |
| Service.GregorianMonthShape | core/LunarCalendarService.js:144-190 | the grid has 0..6 padding cells, the weekday of the first, then `daysInMonth` (28..31) day cells with days 1..daysInMonth in order; a day cell is the first of its lunar month exactly when its lunar day is 1, and a day in a leap month (`lunarMonth < 0`, passed with `\|lunarMonth\|`) has no holiday |
| Service.CurrentLunarDate | core/LunarCalendarService.js:11-20 | the leap flag is exactly the sign of the library's month; under a valid library today is an entry of its year with a day in 1..30 |
| Service.CrossCalendarRoundTrip | core/LunarCalendarService.js:25-52 | for any Gregorian day, the lunar month it falls in loads, and its record for that day gives back the same Gregorian date, lunar day and holiday as the Gregorian cell `GregorianDayOf` builds for it; when the day exists in the month of the year the host's `Date` reads, that cell is the one at index weekday-of-the-1st + day − 1 of the `getGregorianMonth` grid (lines 144-190) |
| HostDate.ConstructorYear | core/LunarCalendarService.js:145-146 | definition: `new Date(year, …)` reads a year in 0..99 as 1900..1999 and keeps any other year |
| HostDate.DaysInMonth | core/LunarCalendarService.js:146-147 | `new Date(year, month, 0).getDate()`: 31 for months 1, 3, 5, 7, 8, 10, 12, 30 for months 4, 6, 9, 11, and 29 for February exactly in a leap year |
| HostDate.Weekday | core/LunarCalendarService.js:148 | `getDay()` is in 0..6 |
| HostDate.MonthStarts | core/LunarCalendarService.js:144-148 | month lengths add up: each month starts one month length after the one before, and a year has 365 or 366 days |
| HostDate.NextYearStart | core/LunarCalendarService.js:144-148 | the day count from the epoch to a year's first day grows by that year's length |
| HostDate.WeekdayOfNextMonth | core/LunarCalendarService.js:144-148 | the first of a month falls on the weekday after the last day of the month before, across year ends too |
| HostDate.NewYear2024IsMonday | core/LunarCalendarService.js:148 | the weekday arithmetic agrees with the calendar: 2024-01-01 is a Monday |
| HostDate.UnixEpochIsThursday | core/LunarCalendarService.js:148 | and the Unix epoch, 1970-01-01, is a Thursday (`getDay()` 4) |
| Provider.ConsistentAssumptions | core/LunarCalendarService.js:25-52 | the assumptions made of the library (leap month 0..12, 29/30-day months, conversion there and back) hold together for a concrete library |
| OptionValue.NatToString | chrome-extension/popup.js:209 | a printed number is a non-empty run of digits |
| OptionValue.LeadingDigits | chrome-extension/popup.js:154 | `parseInt` reads the longest prefix of digits, and stops at the first non-digit |
| OptionValue.Split | chrome-extension/popup.js:153 | `split` returns at least one piece |
| OptionValue.ParseIntOfIntToString | chrome-extension/popup.js:130 | `parseInt` reads back every integer the shells print as an option value |
| OptionValue.SplitWithoutSeparator | chrome-extension/popup.js:153 | a string without the separator splits into itself alone |
| OptionValue.SplitAtFirstSeparator | chrome-extension/popup.js:153 | splitting `a-b`, where `a` has no separator, gives `a` and then the pieces of `b` |
| OptionValue.LunarMonthValueRoundTrip | chrome-extension/popup.js:209 | the value `${month}-${isLeapMonth}` of a month option parses back through split/parseInt to the same month and leap flag (lines 153-155; the web page builds and reads it the same way, web/js/app.js:183 and 117-119) |
| OptionValue.LunarMonthValueInjective | web/js/app.js:183 | distinct (month, leap) pairs get distinct option values |
| Navigation.FindIndex | web/js/app.js:281-283 | `findIndex`: -1 exactly when the entry is absent, otherwise the first index holding it |
| Navigation.PositionedIsEntry | web/js/app.js:277-283 | the invariant's closed form is the same as "(month, leap) is an entry of `getMonthsInYear(year)`" |
| Navigation.FindIndexOfEntry | web/js/app.js:281-283 | `findIndex` finds every entry of a year at its own index |
| Navigation.StepLunarIsPositioned | web/js/app.js:277-307 | every lunar step, from any position and by any direction, lands on an entry of the new year |
| Navigation.EntryIsPositioned | web/js/app.js:117-119 | every entry of a year's list is a valid position |
| Navigation.StepFromEntry | web/js/app.js:286-304 | from entry i of a year, a step goes to entry i + direction, or below 0 to the last entry of the year before, or past the end to the first entry of the next year |
| Navigation.PositionIsEntryAtIndex | web/js/app.js:281-283 | a valid position is the entry at the index `findIndex` returns |
| Navigation.StepWithinYear | web/js/app.js:277-286 | inside the year a step keeps the year and moves to `monthsInYear[currentIndex ± 1]` (lines 300-304) |
| Navigation.StepBackFromFirstMonth | web/js/app.js:288-294 | back from ordinary month 1 goes to year − 1 and its last entry: month 12, leap only when that year's leap month is 12 |
| Navigation.StepForwardFromLastMonth | web/js/app.js:295-299 | forward from a year's last entry goes to year + 1, ordinary month 1 |
| Navigation.NextThenPrevious | web/js/app.js:277-307 | from a valid position, next then previous returns to the starting position |
| Navigation.PreviousThenNext | web/js/app.js:277-307 | from a valid position, previous then next returns to the starting position |
| Navigation.StepGregorianMonthInRange | web/js/app.js:309-321 | a Gregorian step always leaves the month in 1..12 |
| Navigation.StepGregorianYearChange | web/js/app.js:309-321 | a step of ±1 changes the year by exactly one, and only on the 12→1 or 1→12 wrap; otherwise the month moves by one |
| Navigation.GregorianStepsCancel | web/js/app.js:309-321 | next then previous, and previous then next, return to the starting Gregorian position |
| Navigation.SelectLunarYearIsPositioned | web/js/app.js:95-111 | year selection keeps the month, lands on an entry of the new year, and keeps the leap flag exactly when it was off or the new year has that leap month |
| Navigation.TodayIsPositioned | web/js/app.js:27-35 | today's lunar month (sign dropped, leap flag kept) is a valid position |
| Navigation.PositionedMonthLoads | web/js/app.js:228-233 | a valid lunar position always loads its month, with 29 or 30 days: the library's error cannot occur |
| Navigation.MonthSelectValuesParse | web/js/app.js:113-124 | every lunar month option value parses to the entry it was built from, and every Gregorian value to its month number |
| Navigation.YearSelectValuesParse | web/js/app.js:95-96 | every year option value parses to its year, and any option's value is within 50 years of the centre |
| Navigation.ValidStateLoads | web/js/app.js:203-267 | in a valid state the grid data always loads; the lunar view gets 29 or 30 records |
| Selects.PopulateYearSelect | chrome-extension/popup.js:174-200 | 101 options, the years currentYear − 50 through currentYear + 50 in order; each has Huangdi year year + 2697; exactly option 50 is selected, and its value is the current year; the web page's `populateYearSelect` (web/js/app.js:150-173) is the same code |
| Selects.PopulateMonthSelect | chrome-extension/popup.js:202-231 | one option per entry of the year (lunar) or per month (Gregorian), valued and named from it; in a valid state exactly one option is selected, the current entry or month; the web page's `populateMonthSelect` (web/js/app.js:175-201) is the same code |
| Selects.LunarMonthSelect | chrome-extension/popup.js:205-217 | the lunar options mirror `getMonthsInYear`, valued `${month}-${isLeapMonth}` and named by `getChineseMonthName`; an option is selected exactly when it is the current entry |
| Selects.GregorianMonthSelect | chrome-extension/popup.js:218-230 | twelve options valued 1..12 and named from the month table; an option is selected exactly when it is the current month |
| Selects.SelectedEntryIsUnique | chrome-extension/popup.js:212-214 | the current entry matches exactly one option, the one at `findIndex`'s index |
| WebApp.App.constructor | web/js/app.js:6-61 | both views start at today: the lunar view at today's month with its sign dropped, the Gregorian view at today's month; the state is valid |
| WebApp.App.IsShowingToday | web/js/app.js:126-139 | true exactly when the active view's position is today's |
| WebApp.App.SetViewMode | web/js/app.js:71-81 | only the mode changes; both positions are kept |
| WebApp.App.GoToToday | web/js/app.js:83-93 | the active view moves to today, the other view is kept, the state stays valid, and afterwards `isShowingToday()` holds |
| WebApp.App.OnYearSelect | web/js/app.js:95-111 | for any value from the year select, the lunar view moves as `SelectLunarYear` says and the Gregorian view only changes year; the state stays valid |
| WebApp.App.OnMonthSelect | web/js/app.js:113-124 | for any value from the month select, the state takes the (month, leap) or month number the value parses to, which is an entry of the year; the year and the other view are kept |
| WebApp.App.NavigateMonth | web/js/app.js:269-275 | the active view takes one step; the other view is kept |
| WebApp.App.NavigateLunarMonth | web/js/app.js:277-307 | the lunar state becomes `StepLunar` of the old one, the state stays valid, and the Gregorian view is kept |
| WebApp.App.NavigateGregorianMonth | web/js/app.js:309-321 | the Gregorian state becomes `StepGregorian` of the old one, with its month in 1..12; the lunar view is kept |
| WebApp.App.LoadMonth | web/js/app.js:218-267 | the `getLunarMonth`/`getGregorianMonth` call of the render functions succeeds in a valid state, with 29 or 30 lunar records |
| WebApp.App.Render | web/js/app.js:141-216 | the today button is hidden exactly when `isShowingToday()`; both selects are rebuilt from the state with exactly the current month selected; the grid data loads |
| Popup.State.constructor | chrome-extension/popup.js:28-47 | both views start at today and the state is valid |
| Popup.State.IsShowingToday | chrome-extension/popup.js:163-172 | true exactly when the active view's position is today's, compared against `\|todayLunar.month\|` and `todayLunar.isLeapMonth` |
| Popup.State.SwitchView | chrome-extension/popup.js:59-67 | only the mode changes; both positions are kept |
| Popup.State.GoToToday | chrome-extension/popup.js:117-127 | the active view moves to today, the other is kept, and afterwards `isShowingToday()` holds |
| Popup.State.OnYearChange | chrome-extension/popup.js:129-147 | checks the new year's months before moving; the lunar view changes year as `SelectLunarYear` says, resetting only the leap flag and only when the entry is missing; the Gregorian view only changes year |
| Popup.State.OnMonthChange | chrome-extension/popup.js:149-161 | the state takes the (month, leap) or month number the chosen value parses to, which is an entry of the year; the state stays valid |
| Popup.State.NavigateMonth | chrome-extension/popup.js:69-75 | the active view takes one step; the other view is kept |
| Popup.State.NavigateLunarMonth | chrome-extension/popup.js:77-101 | the three cases of `StepLunar`: the neighbouring entry, the previous year's last entry, or month 1 of the next year; the state stays valid |
| Popup.State.NavigateGregorianMonth | chrome-extension/popup.js:103-115 | the Gregorian state becomes `StepGregorian` of the old one: 12↔1 wrap with a ±1 year change |
| Popup.State.LoadMonth | chrome-extension/popup.js:248-379 | the grid data of the render functions loads in a valid state, with 29 or 30 lunar records |
| Popup.State.Render | chrome-extension/popup.js:233-246 | the today button is hidden exactly when `isShowingToday()`; both selects are rebuilt with exactly the current month selected; the grid data loads |
| MiniProgram.YearOptionsCentred | miniprogram/pages/index/index.js:229-257 | the year options are 101 consecutive years, from currentYear − 50, with the current year at index 50 and Huangdi year value + 2697 |
| MiniProgram.MonthOptionsMirrorMonths | miniprogram/pages/index/index.js:260-285 | lunar options mirror `getMonthsInYear` in order, and in a valid state the picked index holds the current entry; Gregorian options have values index + 1, and the picked one is the current month |
| MiniProgram.IndexPage.constructor | miniprogram/pages/index/index.js:56-75 | `onLoad`: both views start at today and the rendered page data is consistent with the state |
| MiniProgram.IndexPage.IsShowingToday | miniprogram/pages/index/index.js:215-226 | true exactly when the active view's position is today's |
| MiniProgram.IndexPage.PopulateYearOptions | miniprogram/pages/index/index.js:229-257 | the loop builds `YearOptionsFor(currentYear)` and `yearIndex` is 50, the current year's index |
| MiniProgram.IndexPage.PopulateMonthOptions | miniprogram/pages/index/index.js:260-285 | the loop builds the options of the view, and `monthIndex` is the index of the matching entry (0 if none) or `gregorianMonth − 1` |
| MiniProgram.IndexPage.LoadMonth | miniprogram/pages/index/index.js:305-367 | the grid data of the render functions loads from a valid navigation state |
| MiniProgram.IndexPage.Render | miniprogram/pages/index/index.js:288-303 | rebuilds the today button, both pickers, their indices and the grid data from the state, which is left unchanged |
| MiniProgram.IndexPage.OnViewToggle | miniprogram/pages/index/index.js:78-85 | only the mode changes, and the page is re-rendered |
| MiniProgram.IndexPage.OnTodayTap | miniprogram/pages/index/index.js:88-103 | the active view moves to today, the other is kept; afterwards `isShowingToday()` holds and the today button is hidden |
| MiniProgram.IndexPage.OnYearChange | miniprogram/pages/index/index.js:106-128 | picker index i chooses year currentYear − 50 + i; the lunar view keeps its month and keeps the leap flag only when that entry exists in the new year |
| MiniProgram.IndexPage.ChangeYear | miniprogram/pages/index/index.js:110-127 | the state change once the year is read: `SelectLunarYear` in the lunar view, a year change in the Gregorian view; the page stays valid |
| MiniProgram.IndexPage.OnMonthChange | miniprogram/pages/index/index.js:131-147 | the state copies the chosen option, so the lunar state is entry `index` of its year and the Gregorian month is `index + 1`; the page stays valid |
| MiniProgram.IndexPage.NavigateMonth | miniprogram/pages/index/index.js:158-164 | the active view takes one step; the other view is kept |
| MiniProgram.IndexPage.NavigateLunarMonth | miniprogram/pages/index/index.js:166-197 | the lunar state becomes `StepLunar` of the old one and the page stays valid |
| MiniProgram.IndexPage.LunarStep | miniprogram/pages/index/index.js:167-196 | computed on copies of the state: the neighbouring entry, the previous year's last entry, or month 1 of the next year, as `StepLunar` says |
| MiniProgram.IndexPage.NavigateGregorianMonth | miniprogram/pages/index/index.js:199-212 | the Gregorian state becomes `StepGregorian` of the old one: month in 1..12, year changed by one only at the wrap |

## Left out

- The lunar-javascript library's internals (the astronomy, solar terms, Chinese numerals, Gan-Zhi and zodiac) are a foreign library. They are the uninterpreted `Provider` fields, and the model assumes only what `ValidProvider` states of them. The library's supported year range is not modelled: every year is accepted.
- The clock reads `new Date()` in `getCurrentLunarDate` and `getCurrentGregorianDate` are replaced by a `now: SolarDate` parameter. `getCurrentGregorianDate` itself is only that clock read and has no member.
- `getChineseYearName`, the `getHuangdiYear` string, `getGanZhiYear` and the year options' label text are thin formatting over library output, and are not modelled. A year option keeps only the Huangdi year its label shows.
- The DOM work is not modelled:
  - element creation, `innerHTML`, `classList`, event listeners;
  - `web/js/CalendarGrid.js`, the mini-program's calendar-grid component, the day cells' "today" highlight;
  - the tip modal, the QR-code error handler, and the `onPrevMonth`/`onNextMonth` button wrappers.

  `Render` returns what would be drawn: the today button's visibility, the selects' options and the grid data.
- The mini-program's `setData` callbacks are asynchronous. Each is modelled as a direct field update followed by `Render`, so no interleaving of two updates is modelled.
- `parseInt` is modelled for strings without leading whitespace and in base 10. Only the shells' own option values reach it.
- The handlers' preconditions say that a select's value, or a picker's index, is one of the options the last render built. No other value can reach them from the page.
- MiniProgram.IndexPage.OnYearChange and the other mini-program handlers except `OnViewToggle` require only the navigation invariant `StateValid`, not the full `Valid`. Each of them ends in `render`, which rebuilds the rest, so the rendered data before the event is not needed except the picker's option list itself. `OnViewToggle` returns without `render` when the mode is unchanged (miniprogram/pages/index/index.js:80), so it requires the full `Valid`.
- The `getLunarMonth` error case: in the source, `LunarMonth.fromYm` returns null for a month that does not exist, and reading its day count then throws. The model returns `Failure(InvalidMonth(...))` instead of an exception. `PositionedMonthLoads` shows that no shell reaches this case.
- The same throw in `getGregorianMonth`: it reads the day count of what `LunarMonth.fromYm` returns for each day's lunar month (core/LunarCalendarService.js:168-169), and would throw on null. That month comes from the library's own conversion of a valid date, so under `ValidProvider` it always exists. The model has no failure path for it: `GregorianDayOf` reads `dayCount` directly.
- OptionValue.LunarMonthValueRoundTrip is stated for months 0 or above. A negative month's minus sign is the value's separator, so the round trip fails there. The shells only build values from `getMonthsInYear` entries, whose months are 1..12.
