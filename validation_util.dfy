/**
 * Form validation shared by the configuration pages: the result kinds of
 * FormValidation and ValidationUtil.doCheckInteger.
 */
module ValidationUtil {
  import opened JavaLang

  /** The message keys the validators use (their localised texts are not modelled). */
  datatype Message =
    | IntegerRequired
    | IntegerInvalid
    | NumberOfBuildsRequired
    | NumberOfBuildsInvalid
    | LabelExpressionRequired
    | LabelExpressionInvalid
    | LabelExpressionEmpty

  /** FormValidation, reduced to its kind and message key. */
  datatype FormValidation = Ok | Warning(warning: Message) | Error(error: Message)

  /** Trimming a blank string leaves a blank string. */
  lemma TrimBlank(s: string)
    requires IsBlank(s)
    ensures IsBlank(Trim(s))
  {
    var t := TrimStart(s);
    assert IsBlank(t) by {
      forall i | 0 <= i < |t| ensures IsWhitespace(t[i]) {
        assert t[i] == s[|s| - |t| + i];
      }
    }
  }

  /** A blank string never parses as an integer, trimmed or not. */
  lemma BlankDoesNotParse(s: string)
    requires IsBlank(s)
    ensures ParseInt(Trim(s)).None?
  {
    TrimBlank(s);
  }

  /** doCheckInteger: a missing or blank value is "required"; otherwise the value,
      trimmed, must parse as a 32-bit decimal integer. */
  function DoCheckInteger(value: Option<string>): (r: FormValidation)
    ensures r == Error(IntegerRequired) <==> value.None? || IsBlank(value.value)
    ensures r == Ok <==> value.Some? && ParseInt(Trim(value.value)).Some?
    ensures r == Ok || r == Error(IntegerRequired) || r == Error(IntegerInvalid)
  {
    if value.None? then Error(IntegerRequired)
    else if IsBlank(value.value) then
      BlankDoesNotParse(value.value);
      Error(IntegerRequired)
    else if ParseInt(Trim(value.value)).None? then Error(IntegerInvalid)
    else Ok
  }

  /** A string that starts with a digit or '-' and ends with a digit is neither blank
      nor changed by trimming. */
  lemma NumeralUntrimmed(s: string)
    requires s != [] && (IsDigit(s[0]) || s[0] == '-') && IsDigit(s[|s| - 1])
    ensures !IsBlank(s) && Trim(s) == s
  {
    assert !IsWhitespace(s[0]);
    assert TrimStart(s) == s;
    assert TrimEnd(s) == s;
  }

  /** Every `int`, printed in decimal, is accepted. */
  lemma DoCheckIntegerAcceptsEveryInt(n: int)
    requires InInt32(n)
    ensures DoCheckInteger(Some(FormatInt(n))) == Ok
  {
    var f := FormatInt(n);
    assert IsDigit(f[0]) || f[0] == '-';
    NumeralUntrimmed(f);
    ParseFormatRoundTrip(n);
  }

  /** Every number outside the `int` range, printed in decimal, is rejected as invalid:
      for instance Integer.MAX_VALUE + 1 and Integer.MIN_VALUE - 1. */
  lemma DoCheckIntegerRejectsEveryOtherNumber(n: int)
    requires !InInt32(n)
    ensures DoCheckInteger(Some(FormatInt(n))) == Error(IntegerInvalid)
  {
    var f := FormatInt(n);
    assert IsDigit(f[0]) || f[0] == '-';
    NumeralUntrimmed(f);
    if n < 0 {
      FormatNatValue(-n);
      assert f[1..] == FormatNat(-n);
    } else {
      FormatNatValue(n);
    }
  }

  /** A value that starts with a digit, ends with a character above U+0020 and
      contains a non-digit is rejected as invalid. */
  lemma DoCheckIntegerRejectsNonDigit(s: string, k: nat)
    requires s != [] && IsDigit(s[0]) && !Trimmed(s[|s| - 1])
    requires k < |s| && !IsDigit(s[k])
    ensures DoCheckInteger(Some(s)) == Error(IntegerInvalid)
  {
    assert !IsWhitespace(s[0]) && !Trimmed(s[0]);
    assert TrimStart(s) == s;
    assert TrimEnd(s) == s;
    assert Trim(s) == s;
    assert !IsBlank(s);
    assert ParseInt(s).None? by {
      assert s[0] != '-' && s[0] != '+';
      assert !AllDigits(s) by { assert !IsDigit(s[k]); }
    }
  }

  /** Up to nine digits, optionally signed and surrounded by spaces, are always
      accepted (they cannot leave the `int` range). */
  lemma DoCheckIntegerAcceptsShortNumerals(p: string, sign: string, digits: string, q: string)
    requires AllSpaces(p) && AllSpaces(q)
    requires sign == "" || sign == "-" || sign == "+"
    requires 1 <= |digits| <= 9 && AllDigits(digits)
    ensures DoCheckInteger(Some(p + sign + digits + q)) == Ok
  {
    var s := sign + digits;
    assert ParseInt(s).Some? by {
      DigitsValueBound(digits);
      Pow10Monotone(|digits|, 9);
      assert Pow10(9) == 1000000000;
      if sign != "" {
        assert s[1..] == digits;
      } else {
        assert s == digits;
      }
    }
    assert p + sign + digits + q == p + s + q;
    AcceptedWhenPadded(p, s, q);
  }

  /** Spaces around an accepted numeral do not change the verdict. */
  lemma AcceptedWhenPadded(p: string, s: string, q: string)
    requires AllSpaces(p) && AllSpaces(q)
    requires s != [] && !Trimmed(s[0]) && !Trimmed(s[|s| - 1]) && !IsWhitespace(s[0])
    requires ParseInt(s).Some?
    ensures DoCheckInteger(Some(p + s + q)) == Ok
  {
    var v := p + s + q;
    TrimPadded(p, s, q);
    assert !IsBlank(v) by {
      assert v[|p|] == s[0];
    }
  }

  lemma {:induction false} Pow10Monotone(i: nat, j: nat)
    requires i <= j
    ensures Pow10(i) <= Pow10(j)
  {
    if i < j {
      Pow10Monotone(i, j - 1);
    }
  }

  /** An accepted case of the plug-in's own unit tests: a sign and leading zeros. */
  lemma DoCheckIntegerAcceptsLeadingZeros()
    ensures DoCheckInteger(Some("-099")) == Ok
  {
    DoCheckIntegerAcceptsShortNumerals("", "-", "099", "");
    assert "" + "-" + "099" + "" == "-099";
  }

  /** The cases of the plug-in's own unit tests that are rejected as missing. */
  lemma DoCheckIntegerRequiredExamples()
    ensures DoCheckInteger(None) == Error(IntegerRequired)
    ensures DoCheckInteger(Some("")) == Error(IntegerRequired)
    ensures DoCheckInteger(Some("   ")) == Error(IntegerRequired)
  {
    assert IsBlank("   ") by {
      forall i | 0 <= i < 3 ensures IsWhitespace("   "[i]) {}
    }
  }

  /** The cases of the plug-in's own unit tests that are rejected as invalid. */
  lemma DoCheckIntegerInvalidExamples()
    ensures DoCheckInteger(Some("1f")) == Error(IntegerInvalid)
    ensures DoCheckInteger(Some("1.2")) == Error(IntegerInvalid)
    ensures DoCheckInteger(Some("0.0")) == Error(IntegerInvalid)
    ensures DoCheckInteger(Some(FormatInt(IntMax + 1))) == Error(IntegerInvalid)
    ensures DoCheckInteger(Some(FormatInt(IntMin - 1))) == Error(IntegerInvalid)
  {
    DoCheckIntegerRejectsNonDigit("1f", 1);
    DoCheckIntegerRejectsNonDigit("1.2", 1);
    DoCheckIntegerRejectsNonDigit("0.0", 1);
    DoCheckIntegerRejectsEveryOtherNumber(IntMax + 1);
    DoCheckIntegerRejectsEveryOtherNumber(IntMin - 1);
  }
}
