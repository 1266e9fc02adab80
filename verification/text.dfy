/** The .NET string primitives the contact book relies on: white-space tests,
    trimming, ASCII case folding, substring search and Int32 parsing. */
module Text {
  import opened Options

  /** `char.IsWhiteSpace`: the Unicode space, line and paragraph separators,
      the control characters U+0009 to U+000D, and U+0085. */
  predicate IsWhiteSpace(c: char) {
    || c == ' '
    || ('\t' <= c <= '\r')
    || c == '\U{85}'
    || c == '\U{A0}'
    || c == '\U{1680}'
    || ('\U{2000}' <= c <= '\U{200A}')
    || c == '\U{2028}'
    || c == '\U{2029}'
    || c == '\U{202F}'
    || c == '\U{205F}'
    || c == '\U{3000}'
  }

  /** `string.IsNullOrWhiteSpace`, with a null string modelled as the empty one. */
  predicate IsBlank(s: string) {
    forall i :: 0 <= i < |s| ==> IsWhiteSpace(s[i])
  }

  function TrimStart(s: string): (r: string)
    ensures |r| <= |s| && r == s[|s| - |r|..]
    ensures forall i :: 0 <= i < |s| - |r| ==> IsWhiteSpace(s[i])
    ensures r == [] || !IsWhiteSpace(r[0])
  {
    if |s| > 0 && IsWhiteSpace(s[0]) then TrimStart(s[1..]) else s
  }

  function TrimEnd(s: string): (r: string)
    ensures |r| <= |s| && r == s[..|r|]
    ensures forall i :: |r| <= i < |s| ==> IsWhiteSpace(s[i])
    ensures r == [] || !IsWhiteSpace(r[|r| - 1])
  {
    if |s| > 0 && IsWhiteSpace(s[|s| - 1]) then TrimEnd(s[..|s| - 1]) else s
  }

  /** `string.Trim`: the longest slice of `s` that neither starts nor ends with
      white space, obtained by dropping only white space on either side. */
  function Trim(s: string): (r: string)
    ensures r == [] || (!IsWhiteSpace(r[0]) && !IsWhiteSpace(r[|r| - 1]))
    ensures r == [] <==> IsBlank(s)
  {
    TrimStart(TrimEnd(s))
  }

  /** What `Trim` drops is white space on either side, and nothing else. */
  lemma TrimDropsOnlyOuterWhiteSpace(s: string)
    ensures exists i :: SliceBetweenWhiteSpace(s, i, Trim(s))
  {
    var e := TrimEnd(s);
    var r := TrimStart(e);
    assert r == Trim(s);
    assert r == s[|e| - |r|..|e|];
    assert SliceBetweenWhiteSpace(s, |e| - |r|, r);
  }

  /** `r` sits in `s` at offset `i` with only white space before and after it. */
  predicate SliceBetweenWhiteSpace(s: string, i: int, r: string) {
    && 0 <= i <= |s| - |r|
    && r == s[i..i + |r|]
    && (forall k :: 0 <= k < i ==> IsWhiteSpace(s[k]))
    && (forall k :: i + |r| <= k < |s| ==> IsWhiteSpace(s[k]))
  }

  /** ASCII lower-casing of one character; every other character is kept. */
  function Lower(c: char): char {
    if 'A' <= c <= 'Z' then (c as int + 32) as char else c
  }

  /** ASCII upper-casing of one character; every other character is kept. */
  function Upper(c: char): char {
    if 'a' <= c <= 'z' then (c as int - 32) as char else c
  }

  /** `string.ToLower`, approximated by ASCII folding. */
  function ToLower(s: string): (r: string)
    ensures |r| == |s|
    ensures forall i :: 0 <= i < |s| ==> r[i] == Lower(s[i])
  {
    seq(|s|, i requires 0 <= i < |s| => Lower(s[i]))
  }

  /** `string.ToUpper`, approximated by ASCII folding. */
  function ToUpper(s: string): (r: string)
    ensures |r| == |s|
    ensures forall i :: 0 <= i < |s| ==> r[i] == Upper(s[i])
  {
    seq(|s|, i requires 0 <= i < |s| => Upper(s[i]))
  }

  /** `StringComparison.OrdinalIgnoreCase` equality, approximated by ASCII folding. */
  predicate EqualsIgnoreCase(a: string, b: string) {
    ToLower(a) == ToLower(b)
  }

  /** `string.Contains`: `t` occurs as a contiguous slice of `s`. */
  predicate Contains(s: string, t: string) {
    exists i | 0 <= i <= |s| - |t| :: OccursAt(s, t, i)
  }

  predicate OccursAt(s: string, t: string, i: int) {
    0 <= i <= |s| - |t| && s[i..i + |t|] == t
  }

  lemma LowerKeepsWhiteSpace(c: char)
    ensures IsWhiteSpace(Lower(c)) <==> IsWhiteSpace(c)
  {
  }

  /** Case-insensitive equality with a string that is not blank forces the
      other string to be not blank either: folding never turns a visible
      character into white space. */
  lemma EqualsIgnoreCaseKeepsNonBlank(a: string, b: string)
    requires EqualsIgnoreCase(a, b)
    requires !IsBlank(a)
    ensures !IsBlank(b)
  {
    var k :| 0 <= k < |a| && !IsWhiteSpace(a[k]);
    assert ToLower(a)[k] == ToLower(b)[k];
    LowerKeepsWhiteSpace(a[k]);
    LowerKeepsWhiteSpace(b[k]);
  }

  // ---------------------------------------------------------------------
  // Decimal integers, as read by `int.TryParse` and written by `ToString`.

  predicate IsDigit(c: char) {
    '0' <= c <= '9'
  }

  predicate AllDigits(s: string) {
    forall i :: 0 <= i < |s| ==> IsDigit(s[i])
  }

  function DigitValue(c: char): (r: nat)
    requires IsDigit(c)
    ensures r < 10
  {
    c as int - '0' as int
  }

  function DigitChar(d: nat): (c: char)
    requires d < 10
    ensures IsDigit(c) && DigitValue(c) == d
  {
    ('0' as int + d) as char
  }

  /** The value of a non-empty run of decimal digits, most significant first. */
  function DigitsValue(s: string): nat
    requires AllDigits(s)
  {
    if |s| == 0 then 0 else DigitsValue(s[..|s| - 1]) * 10 + DigitValue(s[|s| - 1])
  }

  const MinInt32: int := -0x8000_0000
  const MaxInt32: int := 0x7FFF_FFFF

  /** `int.TryParse` on an already trimmed string: an optional sign, at least one
      ASCII digit, and a value that fits in 32 bits; `None` when it returns false. */
  function ParseInt32(s: string): (r: Option<int>)
    ensures r.Some? ==> MinInt32 <= r.value <= MaxInt32
    ensures r.Some? ==> |s| > 0 && (AllDigits(s) || ((s[0] == '-' || s[0] == '+') && AllDigits(s[1..])))
  {
    if |s| == 0 then None
    else
      var digits := if s[0] == '-' || s[0] == '+' then s[1..] else s;
      if |digits| == 0 || !AllDigits(digits) then None
      else
        var v: int := if s[0] == '-' then -(DigitsValue(digits) as int) else DigitsValue(digits);
        if MinInt32 <= v <= MaxInt32 then Some(v) else None
  }

  /** `ToString()` of a natural number: its shortest decimal rendering. */
  function Decimal(n: nat): (r: string)
    ensures |r| > 0 && AllDigits(r)
    ensures DigitsValue(r) == n
    decreases n
  {
    if n < 10 then [DigitChar(n)]
    else
      var prefix := Decimal(n / 10);
      var r := prefix + [DigitChar(n % 10)];
      assert r[..|r| - 1] == prefix;
      r
  }

  /** `ToString()` of a signed integer. */
  function FormatInt(n: int): string {
    if n < 0 then "-" + Decimal(-n) else Decimal(n)
  }

  /** Parsing what `ToString()` wrote gives the number back. */
  lemma ParseFormatRoundTrip(n: int)
    requires MinInt32 <= n <= MaxInt32
    ensures ParseInt32(FormatInt(n)) == Some(n)
  {
    var s := FormatInt(n);
    if n < 0 {
      assert s[1..] == Decimal(-n);
    } else {
      assert IsDigit(s[0]);
    }
  }

  /** `int.TryParse` accepts every run of digits with an optional sign,
      leading zeros included ("007", "+5", "-0"), exactly when its value fits
      in 32 bits, and reads its decimal value. */
  lemma ParseSignedDigits(d: string)
    requires |d| > 0 && AllDigits(d)
    ensures DigitsValue(d) <= MaxInt32 ==> ParseInt32(d) == Some(DigitsValue(d))
    ensures DigitsValue(d) <= MaxInt32 ==> ParseInt32("+" + d) == Some(DigitsValue(d))
    ensures DigitsValue(d) > MaxInt32 ==> ParseInt32(d).None? && ParseInt32("+" + d).None?
    ensures DigitsValue(d) <= -MinInt32 ==> ParseInt32("-" + d) == Some(0 - DigitsValue(d))
    ensures DigitsValue(d) > -MinInt32 ==> ParseInt32("-" + d).None?
  {
    ParseUnsigned(d);
    ParseWithSign(d, '+');
    ParseWithSign(d, '-');
  }

  lemma ParseUnsigned(d: string)
    requires |d| > 0 && AllDigits(d)
    ensures ParseInt32(d) == if DigitsValue(d) <= MaxInt32 then Some(DigitsValue(d)) else None
  {
    assert IsDigit(d[0]);
  }

  lemma ParseWithSign(d: string, sign: char)
    requires |d| > 0 && AllDigits(d)
    requires sign == '+' || sign == '-'
    ensures var v := if sign == '-' then 0 - DigitsValue(d) else DigitsValue(d);
            ParseInt32([sign] + d) == if MinInt32 <= v <= MaxInt32 then Some(v) else None
  {
    assert ([sign] + d)[0] == sign;
    assert ([sign] + d)[1..] == d;
  }
}
