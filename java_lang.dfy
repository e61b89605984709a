/**
 * The few pieces of java.lang that the validators rely on: nullable values,
 * Character.isWhitespace, String.trim / String.isBlank and Integer.parseInt.
 * Java strings are modelled as sequences of characters.
 */
module JavaLang {

  /** A Java reference that may be null. */
  datatype Option<+T> = None | Some(value: T)

  const IntMin: int := -0x8000_0000
  const IntMax: int := 0x7FFF_FFFF

  /** The range of a Java `int`. */
  predicate InInt32(n: int) {
    IntMin <= n <= IntMax
  }

  /** Character.isWhitespace: the Unicode space, line and paragraph separators except
      the non-breaking ones (U+00A0, U+2007, U+202F), plus the ASCII controls
      TAB, LF, VT, FF, CR and FS, GS, RS, US. */
  predicate IsWhitespace(c: char) {
    || c == '\t' || c == '\n' || c == '\U{000B}' || c == '\U{000C}' || c == '\r'
    || ('\U{001C}' <= c <= '\U{001F}')
    || c == ' ' || c == '\U{1680}'
    || ('\U{2000}' <= c <= '\U{200A}' && c != '\U{2007}')
    || c == '\U{2028}' || c == '\U{2029}' || c == '\U{205F}' || c == '\U{3000}'
  }

  /** StringUtils.isBlank / String.isBlank on a non-null string. */
  predicate IsBlank(s: string) {
    forall i :: 0 <= i < |s| ==> IsWhitespace(s[i])
  }

  /** String.trim removes every leading and trailing character up to U+0020. */
  predicate Trimmed(c: char) {
    c <= ' '
  }

  function TrimStart(s: string): (r: string)
    ensures |r| <= |s| && r == s[|s| - |r|..]
    ensures r == [] || !Trimmed(r[0])
    ensures forall k :: 0 <= k < |s| - |r| ==> Trimmed(s[k])
  {
    if s != [] && Trimmed(s[0]) then TrimStart(s[1..]) else s
  }

  function TrimEnd(s: string): (r: string)
    ensures |r| <= |s| && r == s[..|r|]
    ensures r == [] || !Trimmed(r[|r| - 1])
    ensures forall k :: |r| <= k < |s| ==> Trimmed(s[k])
  {
    if s != [] && Trimmed(s[|s| - 1]) then TrimEnd(s[..|s| - 1]) else s
  }

  /** String.trim. */
  function Trim(s: string): string {
    TrimEnd(TrimStart(s))
  }

  predicate AllSpaces(p: string) {
    forall i :: 0 <= i < |p| ==> p[i] == ' '
  }

  lemma {:induction false} TrimStartSkipsSpaces(p: string, s: string)
    requires AllSpaces(p)
    ensures TrimStart(p + s) == TrimStart(s)
  {
    if p != [] {
      assert (p + s)[1..] == p[1..] + s;
      TrimStartSkipsSpaces(p[1..], s);
    } else {
      assert p + s == s;
    }
  }

  lemma {:induction false} TrimEndSkipsSpaces(s: string, q: string)
    requires AllSpaces(q)
    ensures TrimEnd(s + q) == TrimEnd(s)
  {
    if q != [] {
      assert (s + q)[..|s + q| - 1] == s + q[..|q| - 1];
      TrimEndSkipsSpaces(s, q[..|q| - 1]);
    } else {
      assert s + q == s;
    }
  }

  /** Spaces around a value whose first and last characters are above U+0020 are
      exactly what trim removes. */
  lemma TrimPadded(p: string, s: string, q: string)
    requires AllSpaces(p) && AllSpaces(q)
    requires s != [] && !Trimmed(s[0]) && !Trimmed(s[|s| - 1])
    ensures Trim(p + s + q) == s
  {
    assert p + s + q == p + (s + q);
    TrimStartSkipsSpaces(p, s + q);
    assert TrimStart(s + q) == s + q;
    TrimEndSkipsSpaces(s, q);
    assert TrimEnd(s) == s;
  }

  /** Trimming twice is trimming once. */
  lemma TrimIdempotent(s: string)
    ensures Trim(Trim(s)) == Trim(s)
  {
    var r := Trim(s);
    assert TrimStart(r) == r;
    assert TrimEnd(r) == r;
  }

  predicate IsDigit(c: char) {
    '0' <= c <= '9'
  }

  predicate AllDigits(s: string) {
    forall i :: 0 <= i < |s| ==> IsDigit(s[i])
  }

  function DigitValue(c: char): (d: nat)
    requires IsDigit(c)
    ensures d < 10
  {
    (c as int) - ('0' as int)
  }

  function DigitChar(d: nat): (c: char)
    requires d < 10
    ensures IsDigit(c) && DigitValue(c) == d
  {
    (('0' as int) + d) as char
  }

  /** The value of a string of decimal digits, most significant first. */
  function DigitsValue(s: string): nat
    requires AllDigits(s)
  {
    if s == [] then 0 else DigitsValue(s[..|s| - 1]) * 10 + DigitValue(s[|s| - 1])
  }

  /** Integer.parseInt(s) in radix 10: an optional '-' or '+' followed by at least one
      digit, whose value must fit in an `int`; anything else is a NumberFormatException
      (None). */
  function ParseInt(s: string): (r: Option<int>)
    ensures r.Some? ==> InInt32(r.value)
    ensures r.Some? ==> s != [] && (IsDigit(s[0]) || s[0] == '-' || s[0] == '+')
  {
    if s == [] then None
    else
      var body := if s[0] == '-' || s[0] == '+' then s[1..] else s;
      if body == [] || !AllDigits(body) then None
      else
        var magnitude: int := DigitsValue(body);
        var v := if s[0] == '-' then -magnitude else magnitude;
        if InInt32(v) then Some(v) else None
  }

  /** Integer.toString for a non-negative value. */
  function FormatNat(n: nat): (s: string)
    ensures s != [] && AllDigits(s)
  {
    if n < 10 then [DigitChar(n)] else FormatNat(n / 10) + [DigitChar(n % 10)]
  }

  /** Integer.toString. */
  function FormatInt(n: int): string {
    if n < 0 then "-" + FormatNat(-n) else FormatNat(n)
  }

  lemma {:induction false} FormatNatValue(n: nat)
    ensures DigitsValue(FormatNat(n)) == n
  {
    if n >= 10 {
      var s := FormatNat(n);
      assert s[..|s| - 1] == FormatNat(n / 10);
      FormatNatValue(n / 10);
    }
  }

  /** Every `int`, written in decimal the way Java prints it, parses back to itself. */
  lemma ParseFormatRoundTrip(n: int)
    requires InInt32(n)
    ensures ParseInt(FormatInt(n)) == Some(n)
  {
    var f := FormatInt(n);
    if n < 0 {
      var d := FormatNat(-n);
      assert f == "-" + d;
      assert f[0] == '-' && f[1..] == d;
      FormatNatValue(-n);
    } else {
      var d := FormatNat(n);
      assert f == d && IsDigit(f[0]);
      FormatNatValue(n);
    }
  }

  function Pow10(k: nat): (r: nat)
    ensures r >= 1
  {
    if k == 0 then 1 else 10 * Pow10(k - 1)
  }

  /** A string of k digits is worth less than 10^k. */
  lemma {:induction false} DigitsValueBound(s: string)
    requires AllDigits(s)
    ensures DigitsValue(s) < Pow10(|s|)
  {
    if s != [] {
      DigitsValueBound(s[..|s| - 1]);
    }
  }

  /** Leading zeros do not change the value of a digit string. */
  lemma {:induction false} LeadingZeroValue(s: string)
    requires AllDigits(s)
    ensures AllDigits("0" + s) && DigitsValue("0" + s) == DigitsValue(s)
  {
    var z := "0" + s;
    if s != [] {
      assert z[..|z| - 1] == "0" + s[..|s| - 1];
      LeadingZeroValue(s[..|s| - 1]);
    }
  }

  /** A leading zero after the sign is accepted and ignored by parseInt. */
  lemma ParseIntLeadingZero(sign: string, digits: string)
    requires sign == "" || sign == "-" || sign == "+"
    requires digits != [] && AllDigits(digits)
    ensures ParseInt(sign + "0" + digits) == ParseInt(sign + digits)
  {
    LeadingZeroValue(digits);
    if sign == "" {
      assert (sign + "0" + digits) == "0" + digits;
      assert sign + digits == digits;
    } else {
      assert (sign + "0" + digits)[1..] == "0" + digits;
      assert (sign + digits)[1..] == digits;
    }
  }
}
