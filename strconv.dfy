/**
 * Decimal integer parsing as Go's `strconv.Atoi` does it on a 64-bit
 * platform, which both controllers use for query parameters: an optional
 * sign, then one or more ASCII digits (no spaces, no underscores), and a
 * value that fits in an int64. Anything else is an error.
 */
module StrConv {
  import opened Common

  predicate IsDigit(c: char) {
    '0' <= c <= '9'
  }

  predicate AllDigits(s: string) {
    forall i :: 0 <= i < |s| ==> IsDigit(s[i])
  }

  function DigitValue(c: char): nat
    requires IsDigit(c)
  {
    (c as int) - ('0' as int)
  }

  /** The value of a string of decimal digits, most significant first. */
  function DecimalValue(s: string): nat
    requires AllDigits(s)
  {
    if |s| == 0 then 0
    else DecimalValue(s[..|s| - 1]) * 10 + DigitValue(s[|s| - 1])
  }

  /** `strconv.Atoi`: `None` stands for the syntax and range errors. */
  function Atoi(s: string): (r: Option<int>)
    ensures r.Some? ==> IsInt64(r.value)
  {
    if |s| == 0 then None
    else
      var digits := if s[0] == '-' || s[0] == '+' then s[1..] else s;
      if |digits| == 0 || !AllDigits(digits) then None
      else
        var magnitude: int := DecimalValue(digits);
        var n := if s[0] == '-' then -magnitude else magnitude;
        if IsInt64(n) then Some(n) else None
  }

  /**
   * `s` is the sign `sign` (none, "+" or "-") followed by the non-empty
   * run of ASCII digits `digits`: the only shape `Atoi` accepts.
   */
  ghost predicate SignedDigits(s: string, sign: string, digits: string) {
    && s == sign + digits
    && (sign == "" || sign == "+" || sign == "-")
    && |digits| > 0 && AllDigits(digits)
  }

  /** The integer a sign and a run of digits denote. */
  ghost function SignedValue(sign: string, digits: string): int
    requires AllDigits(digits)
  {
    var magnitude: int := DecimalValue(digits);
    if sign == "-" then -magnitude else magnitude
  }

  /** A string has at most one split into a sign and a run of digits. */
  lemma SignedDigitsUnique(s: string, sign: string, digits: string)
    requires SignedDigits(s, sign, digits)
    ensures sign == (if s[0] == '-' || s[0] == '+' then [s[0]] else "")
    ensures digits == s[|sign|..]
  {
    if sign == "" {
      assert s[0] == digits[0];
    } else {
      assert s[0] == sign[0];
    }
  }

  /**
   * Which strings `Atoi` accepts and what it reads them as: exactly an
   * optional sign and one or more ASCII digits whose value fits in an
   * int64, read as that value. Everything else (the empty string, a lone
   * sign, spaces, underscores, a `0x` prefix, an out-of-range value) is
   * rejected.
   */
  lemma AtoiSyntax(s: string)
    ensures Atoi(s).Some? <==> exists sign, digits :: SignedDigits(s, sign, digits) && IsInt64(SignedValue(sign, digits))
    ensures forall sign, digits :: SignedDigits(s, sign, digits) ==>
      Atoi(s) == (if IsInt64(SignedValue(sign, digits)) then Some(SignedValue(sign, digits)) else None)
  {
    forall sign, digits | SignedDigits(s, sign, digits)
      ensures Atoi(s) == (if IsInt64(SignedValue(sign, digits)) then Some(SignedValue(sign, digits)) else None)
    {
      SignedDigitsUnique(s, sign, digits);
    }
    if Atoi(s).Some? {
      var sign := if s[0] == '-' || s[0] == '+' then [s[0]] else "";
      var digits := s[|sign|..];
      assert s == sign + digits;
      assert SignedDigits(s, sign, digits);
    }
  }

  /** Some strings `Atoi` rejects: no digits, surrounding spaces, digit separators and hexadecimal. */
  lemma AtoiRejects()
    ensures Atoi("") == None && Atoi("-") == None && Atoi("+") == None
    ensures Atoi(" 7") == None && Atoi("7 ") == None
    ensures Atoi("1_000") == None && Atoi("0x1F") == None && Atoi("--1") == None
  {
    assert !AllDigits(" 7") by { assert !IsDigit(" 7"[0]); }
    assert !AllDigits("7 ") by { assert !IsDigit("7 "[1]); }
    assert !AllDigits("1_000") by { assert !IsDigit("1_000"[1]); }
    assert !AllDigits("0x1F") by { assert !IsDigit("0x1F"[1]); }
    assert !AllDigits("--1"[1..]) by { assert !IsDigit("--1"[1..][0]); }
  }

  function DigitChar(d: nat): char
    requires d < 10
  {
    ('0' as int + d) as char
  }

  /** The shortest decimal rendering of a natural number. */
  function NatToDecimal(n: nat): string
    decreases n
  {
    if n < 10 then [DigitChar(n)]
    else NatToDecimal(n / 10) + [DigitChar(n % 10)]
  }

  /** `strconv.Itoa`: a minus sign for negative numbers, then the digits. */
  function Itoa(n: int): string {
    if n < 0 then "-" + NatToDecimal(-n) else NatToDecimal(n)
  }

  /** Rendering a natural number and reading it back gives the number. */
  lemma {:induction false} NatToDecimalValue(n: nat)
    ensures |NatToDecimal(n)| > 0 && AllDigits(NatToDecimal(n))
    ensures NatToDecimal(n)[0] != '-' && NatToDecimal(n)[0] != '+'
    ensures DecimalValue(NatToDecimal(n)) == n
    decreases n
  {
    if n >= 10 {
      NatToDecimalValue(n / 10);
      var s := NatToDecimal(n);
      assert s[..|s| - 1] == NatToDecimal(n / 10);
      assert s[0] == NatToDecimal(n / 10)[0];
    }
  }

  /** Every int64 survives `Itoa` followed by `Atoi`. */
  lemma AtoiItoa(n: int)
    requires IsInt64(n)
    ensures Atoi(Itoa(n)) == Some(n)
  {
    if n < 0 {
      NatToDecimalValue(-n);
      assert Itoa(n)[1..] == NatToDecimal(-n);
    } else {
      NatToDecimalValue(n);
    }
  }

  /** A leading plus sign changes nothing. */
  lemma AtoiPlusSign(digits: string)
    requires |digits| > 0 && AllDigits(digits)
    ensures Atoi("+" + digits) == Atoi(digits)
  {
    assert ("+" + digits)[1..] == digits;
  }

  /** Leading zeros do not change the value of a digit string. */
  lemma {:induction false} LeadingZero(s: string)
    requires AllDigits(s)
    ensures AllDigits("0" + s) && DecimalValue("0" + s) == DecimalValue(s)
    decreases |s|
  {
    if |s| > 0 {
      LeadingZero(s[..|s| - 1]);
      assert ("0" + s)[..|s|] == "0" + s[..|s| - 1];
    }
  }
}
