/**
 * Day strings: the `${year}-${month}-${day}` text built in utils.ts, with the
 * month and day zero-padded to two characters and the year printed as
 * `String(year)` (no padding). `ParseDayString` is its inverse, used to prove
 * that distinct days never share a string.
 */
module DayString {
  import opened Options
  import opened Calendar

  predicate IsDigit(c: char) {
    '0' <= c <= '9'
  }

  predicate AllDigits(s: string) {
    forall i :: 0 <= i < |s| ==> IsDigit(s[i])
  }

  function DigitChar(k: int): (c: char)
    requires 0 <= k < 10
    ensures IsDigit(c)
  {
    (48 + k) as char
  }

  /** The value of a string of decimal digits. */
  function DigitsValue(s: string): nat
    requires AllDigits(s)
  {
    if s == [] then 0
    else DigitsValue(s[..|s| - 1]) * 10 + (s[|s| - 1] as int - 48)
  }

  /** `String(n)` for a non-negative integer: decimal, no leading zeros. */
  function NatToString(n: nat): (s: string)
    ensures |s| >= 1 && AllDigits(s)
    ensures |s| == 1 <==> n < 10
    ensures s[0] == '0' ==> n == 0
    decreases n
  {
    if n < 10 then [DigitChar(n)]
    else NatToString(n / 10) + [DigitChar(n % 10)]
  }

  /** `String(y)` for any integer: a minus sign before negative values. */
  function IntToString(y: int): (s: string)
    ensures |s| >= 1 && (s[0] == '-' <==> y < 0)
  {
    if y < 0 then "-" + NatToString(-y) else NatToString(y)
  }

  /** `n` copies of `c`. */
  function Repeat(c: char, n: nat): (r: string)
    ensures |r| == n && forall i :: 0 <= i < n ==> r[i] == c
  {
    if n == 0 then [] else Repeat(c, n - 1) + [c]
  }

  /** `s.padStart(width, fill)` for a one-character fill. */
  function PadStart(s: string, width: nat, fill: char): (r: string)
    ensures r == if |s| >= width then s else Repeat(fill, width - |s|) + s
    decreases width - |s|
  {
    if |s| >= width then s
    else
      assert Repeat(fill, width - |s| - 1) + ([fill] + s) == Repeat(fill, width - |s|) + s;
      PadStart([fill] + s, width, fill)
  }

  /** `String(n).padStart(2, '0')`. */
  function TwoDigits(n: nat): string {
    PadStart(NatToString(n), 2, '0')
  }

  /** The day string of `d`, as utils.ts:1-6 and utils.ts:12-15 build it. */
  function Format(d: Date): (s: string)
    requires Valid(d)
    ensures |s| >= 7
  {
    IntToString(d.year) + "-" + TwoDigits(d.month) + "-" + TwoDigits(d.day)
  }

  function ParseYear(s: string): Option<int> {
    if |s| > 1 && s[0] == '-' && AllDigits(s[1..]) then Some(0 - DigitsValue(s[1..]) as int)
    else if |s| > 0 && AllDigits(s) then Some(DigitsValue(s))
    else None
  }

  /** Reads `<year>-MM-DD` back into a valid day, or `None`. */
  function ParseDayString(s: string): (r: Option<Date>)
    ensures r.Some? ==> Valid(r.value)
  {
    if |s| < 7 then None
    else
      var n := |s|;
      var ys, ms, ds := s[..n - 6], s[n - 5..n - 3], s[n - 2..];
      if s[n - 6] == '-' && s[n - 3] == '-' && AllDigits(ms) && AllDigits(ds) && ParseYear(ys).Some? then
        var d := Date(ParseYear(ys).value, DigitsValue(ms), DigitsValue(ds));
        if Valid(d) then Some(d) else None
      else None
  }

  /** The `full-date` production of section 5.6 of RFC 3339. */
  predicate IsFullDate(s: string) {
    && |s| == 10
    && s[4] == '-' && s[7] == '-'
    && AllDigits(s[..4]) && AllDigits(s[5..7]) && AllDigits(s[8..])
    && 1 <= DigitsValue(s[5..7]) <= 12
    && 1 <= DigitsValue(s[8..]) <= DaysInMonth(DigitsValue(s[..4]), DigitsValue(s[5..7]))
  }

  lemma {:induction false} NatToStringRoundTrip(n: nat)
    ensures DigitsValue(NatToString(n)) == n
    decreases n
  {
    if n >= 10 {
      NatToStringRoundTrip(n / 10);
      var s := NatToString(n);
      assert s[..|s| - 1] == NatToString(n / 10);
    }
  }

  lemma NatToStringFourDigits(n: nat)
    requires 1000 <= n <= 9999
    ensures |NatToString(n)| == 4
  {
    assert |NatToString(n)| == |NatToString(n / 10)| + 1;
    assert |NatToString(n / 10)| == |NatToString(n / 10 / 10)| + 1;
    assert |NatToString(n / 10 / 10)| == |NatToString(n / 10 / 10 / 10)| + 1;
  }

  /** Month and day fields are always exactly two digits holding the value. */
  lemma TwoDigitsFacts(n: nat)
    requires n <= 99
    ensures |TwoDigits(n)| == 2 && AllDigits(TwoDigits(n))
    ensures DigitsValue(TwoDigits(n)) == n
  {
    var s := NatToString(n);
    NatToStringRoundTrip(n);
    if n < 10 {
      assert TwoDigits(n) == "0" + s;
      assert (("0" + s)[..1]) == "0";
    } else {
      assert |NatToString(n / 10)| == 1;
      assert TwoDigits(n) == s;
    }
  }

  /** Where the three fields sit in `ys + "-" + ms + "-" + ds`. */
  lemma FieldSlices(ys: string, ms: string, ds: string)
    requires |ms| == 2 && |ds| == 2
    ensures var s := ys + "-" + ms + "-" + ds;
      && |s| == |ys| + 6
      && s[..|s| - 6] == ys && s[|s| - 6] == '-'
      && s[|s| - 5..|s| - 3] == ms && s[|s| - 3] == '-'
      && s[|s| - 2..] == ds
  {
  }

  lemma ParseYearRoundTrip(y: int)
    ensures ParseYear(IntToString(y)) == Some(y)
  {
    var s := IntToString(y);
    if y < 0 {
      assert s[1..] == NatToString(-y);
      NatToStringRoundTrip(-y);
    } else {
      NatToStringRoundTrip(y);
    }
  }

  lemma ParseFields(ys: string, ms: string, ds: string)
    requires |ms| == 2 && |ds| == 2 && AllDigits(ms) && AllDigits(ds)
    requires ParseYear(ys).Some?
    requires Valid(Date(ParseYear(ys).value, DigitsValue(ms), DigitsValue(ds)))
    ensures ParseDayString(ys + "-" + ms + "-" + ds)
         == Some(Date(ParseYear(ys).value, DigitsValue(ms), DigitsValue(ds)))
  {
    FieldSlices(ys, ms, ds);
  }

  /** Parsing a formatted day gives the day back. */
  lemma ParseFormatRoundTrip(d: Date)
    requires Valid(d)
    ensures ParseDayString(Format(d)) == Some(d)
  {
    var ys, ms, ds := IntToString(d.year), TwoDigits(d.month), TwoDigits(d.day);
    TwoDigitsFacts(d.month);
    TwoDigitsFacts(d.day);
    ParseYearRoundTrip(d.year);
    ParseFields(ys, ms, ds);
  }

  /** Distinct days have distinct strings. */
  lemma FormatInjective(a: Date, b: Date)
    requires Valid(a) && Valid(b)
    ensures Format(a) == Format(b) <==> a == b
  {
    ParseFormatRoundTrip(a);
    ParseFormatRoundTrip(b);
  }

  /** A day of a four-digit year formats as an RFC 3339 full-date. */
  lemma FormatIsFullDate(d: Date)
    requires Valid(d) && 1000 <= d.year <= 9999
    ensures IsFullDate(Format(d))
    ensures DigitsValue(Format(d)[..4]) == d.year
    ensures DigitsValue(Format(d)[5..7]) == d.month
    ensures DigitsValue(Format(d)[8..]) == d.day
  {
    var ys, ms, ds := IntToString(d.year), TwoDigits(d.month), TwoDigits(d.day);
    TwoDigitsFacts(d.month);
    TwoDigitsFacts(d.day);
    NatToStringFourDigits(d.year);
    NatToStringRoundTrip(d.year);
    FieldSlices(ys, ms, ds);
    assert Format(d) == ys + "-" + ms + "-" + ds;
  }

  /** Concrete day strings, zero-padding month and day. */
  lemma FormatExample()
    ensures Format(Date(2024, 1, 9)) == "2024-01-09"
    ensures Format(Date(2024, 1, 10)) == "2024-01-10"
  {
    assert IntToString(2024) == "2024" by {}
    assert TwoDigits(1) == "01" by {}
    assert TwoDigits(9) == "09" by {}
    assert TwoDigits(10) == "10" by {}
    assert "2024" + "-" + "01" + "-" + "09" == "2024-01-09" by {}
    assert "2024" + "-" + "01" + "-" + "10" == "2024-01-10" by {}
  }
}
