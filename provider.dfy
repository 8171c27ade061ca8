/** The lunar/Gregorian conversion library (lunar-javascript) the calendar
    service delegates to. Its astronomy is not modelled: the library is a value
    of total functions, and `ValidProvider` collects the facts about it that
    the service and the page shells rely on. */
module Provider {
  import opened HostDate

  /** A Gregorian date as the library's `Solar` holds it (month 1..12). */
  datatype SolarDate = SolarDate(year: int, month: int, day: int)

  /** A lunar date as the library's `Lunar` holds it: `month` is signed, and
      -m encodes the leap month that follows month m. */
  datatype LunarDate = LunarDate(year: int, month: int, day: int)

  datatype Provider = Provider(
    /** `LunarYear.fromYear(year).getLeapMonth()`: 0 when the year has no leap month. */
    leapMonth: int -> int,
    /** `LunarMonth.fromYm(year, month).getDayCount()` for a month that exists. */
    dayCount: (int, int) -> int,
    /** `Lunar.fromYmd(year, month, day).getSolar()`. */
    toSolar: LunarDate -> SolarDate,
    /** `Solar.fromYmd(year, month, day).getLunar()`. */
    toLunar: SolarDate -> LunarDate,
    /** `getJieQi()`: the solar term starting that day, or "" when there is none. */
    jieQi: LunarDate -> string,
    /** `getDayInChinese()` and `getMonthInChinese()`. */
    dayInChinese: LunarDate -> string,
    monthInChinese: LunarDate -> string
  )

  /** `LunarMonth.fromYm(year, month)` finds a month: an ordinary month 1..12,
      or the leap month of the year given as its negated number. For any other
      signed month the library returns null. */
  predicate MonthExists(p: Provider, year: int, month: int) {
    1 <= month <= 12 || (month < 0 && p.leapMonth(year) == -month)
  }

  predicate ValidSolar(s: SolarDate) {
    1 <= s.month <= 12 && 1 <= s.day <= DaysInMonth(s.year, s.month)
  }

  predicate ValidLunar(p: Provider, l: LunarDate) {
    MonthExists(p, l.year, l.month) && 1 <= l.day <= p.dayCount(l.year, l.month)
  }

  /** What the model assumes of the library. */
  ghost predicate ValidProvider(p: Provider) {
    && (forall year :: 0 <= p.leapMonth(year) <= 12)
    && (forall year, month :: MonthExists(p, year, month) ==>
          p.dayCount(year, month) == 29 || p.dayCount(year, month) == 30)
    && (forall s {:trigger p.toLunar(s)} :: ValidSolar(s) ==>
          ValidLunar(p, p.toLunar(s)) && p.toSolar(p.toLunar(s)) == s)
  }

  /** A stand-in library, numbering every Gregorian day as the first day of
      month 1 of its own "year", and the proof that it meets `ValidProvider`:
      the assumptions above can all hold at once. */
  function Encode(s: SolarDate): int {
    s.year * 512 + s.month * 32 + s.day
  }

  function Decode(code: int): SolarDate {
    SolarDate(code / 512, (code % 512) / 32, code % 32)
  }

  lemma DecodeEncode(s: SolarDate)
    requires 1 <= s.month <= 12 && 1 <= s.day <= 31
    ensures Decode(Encode(s)) == s
  {
    var low := s.month * 32 + s.day;
    DivMod512(Encode(s), s.year, low);
    DivMod32(low, s.month, s.day);
    DivMod32(Encode(s), 16 * s.year + s.month, s.day);
  }

  /** Division by 512 is determined by a quotient and a remainder in range. */
  lemma DivMod512(a: int, q: int, r: int)
    requires 0 <= r < 512 && a == 512 * q + r
    ensures a / 512 == q && a % 512 == r
  {
  }

  /** Division by 32 is determined by a quotient and a remainder in range. */
  lemma DivMod32(a: int, q: int, r: int)
    requires 0 <= r < 32 && a == 32 * q + r
    ensures a / 32 == q && a % 32 == r
  {
  }

  function StandIn(): Provider {
    Provider(
      (year: int) => 0, (year: int, month: int) => 30,
      (l: LunarDate) => Decode(l.year), (s: SolarDate) => LunarDate(Encode(s), 1, 1),
      (l: LunarDate) => "", (l: LunarDate) => "", (l: LunarDate) => "")
  }

  lemma ConsistentAssumptions()
    ensures ValidProvider(StandIn())
  {
    var p := StandIn();
    forall s: SolarDate | ValidSolar(s) ensures p.toSolar(p.toLunar(s)) == s {
      DecodeEncode(s);
    }
  }
}
