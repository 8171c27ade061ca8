/** The strings the page shells store as `<option>` values and read back:
    number formatting, `String.prototype.split` on one separator character and
    `parseInt`. */
module OptionValue {
  import opened Wrappers

  predicate IsDigit(c: char) {
    '0' <= c <= '9'
  }

  function DigitChar(d: int): char
    requires 0 <= d <= 9
  {
    "0123456789"[d]
  }

  function DigitValue(c: char): int
    requires IsDigit(c)
  {
    c as int - '0' as int
  }

  /** Decimal notation of a non-negative number, as template literals print it. */
  function NatToString(n: nat): (s: string)
    ensures |s| > 0 && forall i :: 0 <= i < |s| ==> IsDigit(s[i])
  {
    if n < 10 then [DigitChar(n)] else NatToString(n / 10) + [DigitChar(n % 10)]
  }

  /** Decimal notation of any integer. */
  function IntToString(n: int): string {
    if n < 0 then "-" + NatToString(-n) else NatToString(n)
  }

  /** The value of a run of digits. */
  function DigitsValue(s: string): nat
    requires forall i :: 0 <= i < |s| ==> IsDigit(s[i])
  {
    if |s| == 0 then 0 else DigitsValue(s[..|s| - 1]) * 10 + DigitValue(s[|s| - 1])
  }

  /** The longest prefix of `s` made of digits. */
  function LeadingDigits(s: string): (d: string)
    ensures |d| <= |s| && d == s[..|d|]
    ensures forall i :: 0 <= i < |d| ==> IsDigit(d[i])
    ensures |d| < |s| ==> !IsDigit(s[|d|])
  {
    if |s| == 0 || !IsDigit(s[0]) then [] else [s[0]] + LeadingDigits(s[1..])
  }

  /** `parseInt(s)` on a string without leading blanks: an optional sign, then
      the leading digits; `None` is NaN, when there is no digit. */
  function ParseInt(s: string): Option<int> {
    var negative := |s| > 0 && s[0] == '-';
    var body := if |s| > 0 && (s[0] == '-' || s[0] == '+') then s[1..] else s;
    var digits := LeadingDigits(body);
    if digits == [] then None
    else Some(if negative then -(DigitsValue(digits) as int) else DigitsValue(digits))
  }

  /** `s.split(sep)`: the pieces between occurrences of `sep`, at least one. */
  function Split(s: string, sep: char): (parts: seq<string>)
    ensures |parts| >= 1
  {
    if |s| == 0 then [""]
    else if s[0] == sep then [""] + Split(s[1..], sep)
    else var rest := Split(s[1..], sep); [[s[0]] + rest[0]] + rest[1..]
  }

  lemma {:induction false} LeadingDigitsOfDigits(s: string)
    requires forall i :: 0 <= i < |s| ==> IsDigit(s[i])
    ensures LeadingDigits(s) == s
  {
    if |s| > 0 {
      LeadingDigitsOfDigits(s[1..]);
    }
  }

  lemma {:induction false} DigitsValueOfNat(n: nat)
    ensures DigitsValue(NatToString(n)) == n
  {
    var s := NatToString(n);
    if n >= 10 {
      DigitsValueOfNat(n / 10);
      assert s[..|s| - 1] == NatToString(n / 10);
    }
  }

  /** `parseInt` reads back every number the shells print. */
  lemma ParseIntOfIntToString(n: int)
    ensures ParseInt(IntToString(n)) == Some(n)
  {
    var digits := NatToString(if n < 0 then -n else n);
    LeadingDigitsOfDigits(digits);
    DigitsValueOfNat(if n < 0 then -n else n);
    if n < 0 {
      assert IntToString(n)[1..] == digits;
    } else {
      assert IntToString(n)[0] != '-' && IntToString(n)[0] != '+' by {
        assert IsDigit(digits[0]);
      }
    }
  }

  lemma {:induction false} SplitWithoutSeparator(s: string, sep: char)
    requires forall i :: 0 <= i < |s| ==> s[i] != sep
    ensures Split(s, sep) == [s]
  {
    if |s| > 0 {
      SplitWithoutSeparator(s[1..], sep);
      assert [s[0]] + s[1..] == s;
    }
  }

  lemma {:induction false} SplitAtFirstSeparator(a: string, sep: char, b: string)
    requires forall i :: 0 <= i < |a| ==> a[i] != sep
    ensures Split(a + [sep] + b, sep) == [a] + Split(b, sep)
  {
    if |a| == 0 {
      assert a + [sep] + b == [sep] + b;
      assert ([sep] + b)[1..] == b;
    } else {
      SplitAtFirstSeparator(a[1..], sep, b);
      assert (a + [sep] + b)[1..] == a[1..] + [sep] + b;
      assert [a[0]] + a[1..] == a;
    }
  }

  /** The value `${month}-${isLeapMonth}` of a lunar month option. */
  function LunarMonthValue(month: int, isLeapMonth: bool): string {
    IntToString(month) + "-" + (if isLeapMonth then "true" else "false")
  }

  /** What `onMonthChange` makes of an option value:
      `const [month, leap] = value.split('-')`, then `parseInt(month)` and
      `leap === 'true'` (false when there is no second piece). */
  function ParseLunarMonthValue(value: string): (Option<int>, bool) {
    var parts := Split(value, '-');
    (ParseInt(parts[0]), |parts| >= 2 && parts[1] == "true")
  }

  /** An option value built from a month number 0 or more parses back to the
      same month and leap flag. (A negative number would not: its sign is the
      separator.) */
  lemma LunarMonthValueRoundTrip(month: int, isLeapMonth: bool)
    requires month >= 0
    ensures ParseLunarMonthValue(LunarMonthValue(month, isLeapMonth)) == (Some(month), isLeapMonth)
  {
    var digits := IntToString(month);
    var flag := if isLeapMonth then "true" else "false";
    forall i | 0 <= i < |digits| ensures digits[i] != '-' {
      assert IsDigit(digits[i]);
    }
    SplitAtFirstSeparator(digits, '-', flag);
    SplitWithoutSeparator(flag, '-');
    assert LunarMonthValue(month, isLeapMonth) == digits + ['-'] + flag;
    ParseIntOfIntToString(month);
  }

  /** Distinct (month, leap) pairs give distinct option values. */
  lemma LunarMonthValueInjective(m1: int, l1: bool, m2: int, l2: bool)
    requires m1 >= 0 && m2 >= 0
    requires LunarMonthValue(m1, l1) == LunarMonthValue(m2, l2)
    ensures m1 == m2 && l1 == l2
  {
    LunarMonthValueRoundTrip(m1, l1);
    LunarMonthValueRoundTrip(m2, l2);
  }
}
