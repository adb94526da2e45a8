/** The string primitives the view-models rely on: the whitespace test behind
    `string.IsNullOrWhiteSpace`, the rendering of a nullable string inside an
    interpolated string, and the decimal rendering of an `int` hole. */
module Text {
  import opened Wrappers

  /** The characters `System.Char.IsWhiteSpace` accepts: the control
      characters U+0009..U+000D, U+0085, and the Unicode space, line and
      paragraph separators. */
  predicate IsWhiteSpace(c: char) {
    || ('\t' <= c <= '\r')
    || c == ' '
    || c == '\U{0085}'
    || c == '\U{00A0}'
    || c == '\U{1680}'
    || ('\U{2000}' <= c <= '\U{200A}')
    || c == '\U{2028}'
    || c == '\U{2029}'
    || c == '\U{202F}'
    || c == '\U{205F}'
    || c == '\U{3000}'
  }

  /** True when every character of `s` is whitespace (so also for ""). */
  function AllWhiteSpace(s: string): (b: bool)
    ensures b <==> forall i :: 0 <= i < |s| ==> IsWhiteSpace(s[i])
  {
    |s| == 0 || (IsWhiteSpace(s[0]) && AllWhiteSpace(s[1..]))
  }

  /** `string.IsNullOrWhiteSpace`: null, empty, or whitespace only. */
  function IsNullOrWhiteSpace(s: Option<string>): (b: bool)
    ensures b <==> s.None? || forall i :: 0 <= i < |s.value| ==> IsWhiteSpace(s.value[i])
  {
    match s
    case None => true
    case Some(t) => AllWhiteSpace(t)
  }

  /** `string.TrimStart()`: drops the leading whitespace. */
  function TrimStart(s: string): (r: string)
    ensures |r| <= |s| && r == s[|s| - |r|..]
    ensures forall i :: 0 <= i < |s| - |r| ==> IsWhiteSpace(s[i])
    ensures |r| > 0 ==> !IsWhiteSpace(r[0])
  {
    if |s| > 0 && IsWhiteSpace(s[0]) then TrimStart(s[1..]) else s
  }

  /** `string.TrimEnd()`: drops the trailing whitespace. */
  function TrimEnd(s: string): (r: string)
    ensures |r| <= |s| && r == s[..|r|]
    ensures forall i :: |r| <= i < |s| ==> IsWhiteSpace(s[i])
    ensures |r| > 0 ==> !IsWhiteSpace(r[|r| - 1])
    ensures |s| > 0 && !IsWhiteSpace(s[0]) ==> |r| > 0
  {
    if |s| > 0 && IsWhiteSpace(s[|s| - 1]) then TrimEnd(s[..|s| - 1]) else s
  }

  /** `string.Trim()`. */
  function Trim(s: string): string {
    TrimEnd(TrimStart(s))
  }

  /** A non-null string is rejected by `IsNullOrWhiteSpace` exactly when
      trimming it leaves nothing: the validation "non-empty after trimming". */
  lemma BlankIffTrimsToEmpty(s: string)
    ensures IsNullOrWhiteSpace(Some(s)) <==> Trim(s) == ""
  {
    var t := TrimStart(s);
    if |t| > 0 {
      assert !IsWhiteSpace(t[0]);
      assert s[|s| - |t|] == t[0];
    } else {
      assert s[..|s|] == s;
    }
  }

  /** The same for a possibly-null name: it is rejected exactly when it is
      null or trims to nothing. */
  lemma NullOrTrimsToEmpty(s: Option<string>)
    ensures IsNullOrWhiteSpace(s) <==> s.None? || Trim(s.value) == ""
  {
    if s.Some? {
      BlankIffTrimsToEmpty(s.value);
    }
  }

  /** How an interpolated string renders a `string?` hole: null becomes "". */
  function Render(s: Option<string>): string {
    s.GetOr("")
  }

  predicate IsDigit(c: char) {
    '0' <= c <= '9'
  }

  predicate AllDigits(s: string) {
    forall i :: 0 <= i < |s| ==> IsDigit(s[i])
  }

  function DigitChar(d: nat): (c: char)
    requires d < 10
    ensures IsDigit(c)
  {
    (48 + d) as char
  }

  function DigitValue(c: char): (d: nat)
    requires IsDigit(c)
    ensures d < 10
  {
    (c as int) - 48
  }

  /** The decimal digits of a natural number, most significant first, without
      leading zeros. */
  function NatToDecimal(n: nat): (r: string)
    ensures |r| > 0 && AllDigits(r)
    ensures r[0] == '0' ==> n == 0 && |r| == 1
    decreases n
  {
    if n < 10 then [DigitChar(n)] else NatToDecimal(n / 10) + [DigitChar(n % 10)]
  }

  /** The shape `int.ToString()` gives a number: an optional '-' and then
      digits with no leading zero, where "0" itself is the only digit string
      starting with '0' and is never signed. */
  predicate Canonical(s: string) {
    if |s| > 0 && s[0] == '-' then |s| > 1 && AllDigits(s[1..]) && s[1] != '0'
    else |s| > 0 && AllDigits(s) && (s[0] == '0' ==> |s| == 1)
  }

  /** `int.ToString()` with the invariant culture: an optional '-' followed by
      the digits of the magnitude, without leading zeros. */
  function IntToDecimal(n: int): (r: string)
    ensures Canonical(r)
    ensures r[0] == '-' <==> n < 0
    ensures r == "0" <==> n == 0
  {
    if n < 0 then "-" + NatToDecimal(-n) else NatToDecimal(n)
  }

  /** A non-negative number below one hundred and at least ten prints as
      its two digits. */
  lemma TwoDigitDecimal(n: int)
    requires 10 <= n < 100
    ensures IntToDecimal(n) == [DigitChar(n / 10), DigitChar(n % 10)]
  {
    assert NatToDecimal(n / 10) == [DigitChar(n / 10)];
  }

  /** The value of a string of decimal digits. */
  function DecimalValue(s: string): nat
    requires AllDigits(s)
  {
    if |s| == 0 then 0 else DecimalValue(s[..|s| - 1]) * 10 + DigitValue(s[|s| - 1])
  }

  /** Reads back a rendering of `IntToDecimal`; `None` for anything else. */
  function ParseInt(s: string): Option<int> {
    if |s| > 0 && s[0] == '-' then
      if |s| > 1 && AllDigits(s[1..]) then Some(-(DecimalValue(s[1..]) as int)) else None
    else if |s| > 0 && AllDigits(s) then Some(DecimalValue(s))
    else None
  }

  lemma {:induction false} NatToDecimalValue(n: nat)
    ensures DecimalValue(NatToDecimal(n)) == n
    decreases n
  {
    var r := NatToDecimal(n);
    if n >= 10 {
      NatToDecimalValue(n / 10);
      assert r[..|r| - 1] == NatToDecimal(n / 10);
    }
  }

  lemma DigitRoundTrip(c: char)
    requires IsDigit(c)
    ensures DigitChar(DigitValue(c)) == c
  {
  }

  /** A digit string that starts with a non-zero digit has a positive value. */
  lemma {:induction false} LeadingDigitPositive(d: string)
    requires |d| > 0 && AllDigits(d) && d[0] != '0'
    ensures DecimalValue(d) > 0
    decreases |d|
  {
    if |d| > 1 {
      LeadingDigitPositive(d[..|d| - 1]);
    }
  }

  /** A digit string without leading zeros is the rendering of its value. */
  lemma {:induction false} CanonicalDigits(d: string)
    requires |d| > 0 && AllDigits(d) && (d[0] == '0' ==> |d| == 1)
    ensures NatToDecimal(DecimalValue(d)) == d
    decreases |d|
  {
    var v := DecimalValue(d);
    var last := d[|d| - 1];
    DigitRoundTrip(last);
    if |d| == 1 {
      assert d == [last];
    } else {
      var p := d[..|d| - 1];
      LeadingDigitPositive(p);
      CanonicalDigits(p);
      var q := DecimalValue(p);
      assert v == q * 10 + DigitValue(last);
      assert v / 10 == q && v % 10 == DigitValue(last);
      assert d == p + [last];
    }
  }

  /** `IntToDecimal` is the only canonical text that reads back as `n`:
      so it is exactly what `int.ToString()` prints. */
  lemma DecimalUnique(s: string, n: int)
    requires Canonical(s) && ParseInt(s) == Some(n)
    ensures s == IntToDecimal(n)
  {
    if s[0] == '-' {
      CanonicalDigits(s[1..]);
      LeadingDigitPositive(s[1..]);
      assert s == "-" + s[1..];
    } else {
      CanonicalDigits(s);
    }
  }

  /** Rendering an integer and reading it back gives the same integer. */
  lemma DecimalRoundTrip(n: int)
    ensures ParseInt(IntToDecimal(n)) == Some(n)
  {
    if n < 0 {
      NegativeRoundTrip(n);
    } else {
      NatToDecimalValue(n);
    }
  }

  lemma NegativeRoundTrip(n: int)
    requires n < 0
    ensures ParseInt(IntToDecimal(n)) == Some(n)
  {
    var digits := NatToDecimal(-n);
    assert IntToDecimal(n) == "-" + digits;
    assert ("-" + digits)[1..] == digits;
    NatToDecimalValue(-n);
  }
}
