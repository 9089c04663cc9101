/**
 * The parts of Go's `strconv` package that the Rancher client uses to turn
 * values into text: `FormatBool`, and `Itoa` for array indices (also used
 * here to render JSON numbers, which the model keeps integral).
 * `ParseDecimal` reads decimal text back and serves as `Itoa`'s partner.
 */
module Strconv {
  import opened Outcomes

  /** strconv.FormatBool: "true" or "false". */
  function FormatBool(b: bool): (s: string)
    ensures b <==> s == "true"
    ensures !b <==> s == "false"
  {
    if b then "true" else "false"
  }

  predicate IsDigit(c: char) {
    '0' <= c <= '9'
  }

  /** A non-empty run of decimal digits. */
  predicate IsDecimal(s: string) {
    |s| > 0 && forall i | 0 <= i < |s| :: IsDigit(s[i])
  }

  /** The decimal digits of `n`, most significant first, without leading zeros. */
  function Digits(n: nat): (s: string)
    ensures IsDecimal(s)
    ensures s[0] == '0' ==> n == 0 && |s| == 1
    decreases n
  {
    if n < 10 then [('0' as int + n) as char]
    else Digits(n / 10) + [('0' as int + n % 10) as char]
  }

  /** The number a run of decimal digits denotes. */
  function DigitsValue(s: string): nat
    requires IsDecimal(s)
    decreases |s|
  {
    var d := s[|s| - 1] as int - '0' as int;
    if |s| == 1 then d else 10 * DigitsValue(s[..|s| - 1]) + d
  }

  /**
   * The text `strconv.Itoa` can produce: "0", a digit string without a
   * leading zero, or '-' followed by such a digit string.
   */
  predicate IsCanonical(s: string) {
    (IsDecimal(s) && (s[0] == '0' ==> |s| == 1))
    || (|s| > 1 && s[0] == '-' && IsDecimal(s[1..]) && s[1] != '0')
  }

  /** strconv.Itoa: decimal rendering, with a leading '-' for negative numbers. */
  function Itoa(n: int): (s: string)
    ensures '/' !in s
    ensures n >= 0 <==> IsDecimal(s)
    ensures IsCanonical(s)
  {
    if n < 0 then
      var s := "-" + Digits(-n);
      assert !IsDigit(s[0]);
      s
    else Digits(n)
  }

  /**
   * Decimal text to a number: an optional '-' then one or more digits.
   * Leading zeros are accepted; a '+' sign, spaces and anything else give None.
   */
  function ParseDecimal(s: string): Option<int> {
    if IsDecimal(s) then Some(DigitsValue(s))
    else if |s| > 1 && s[0] == '-' && IsDecimal(s[1..]) then Some(0 - DigitsValue(s[1..]) as int)
    else None
  }

  lemma {:induction false} DigitsRoundTrip(n: nat)
    ensures DigitsValue(Digits(n)) == n
    decreases n
  {
    if n >= 10 {
      var p := Digits(n / 10);
      var s := Digits(n);
      assert s == p + [('0' as int + n % 10) as char];
      assert s[..|s| - 1] == p;
      DigitsRoundTrip(n / 10);
    }
  }

  /** Reading back what Itoa wrote gives the number again. */
  lemma ItoaRoundTrip(n: int)
    ensures ParseDecimal(Itoa(n)) == Some(n)
  {
    if n < 0 {
      var s := Itoa(n);
      assert s[1..] == Digits(-n);
      assert !IsDecimal(s) by { assert !IsDigit(s[0]); }
      DigitsRoundTrip(-n);
    } else {
      DigitsRoundTrip(n);
    }
  }

  /** Distinct numbers have distinct decimal renderings. */
  lemma ItoaInjective(a: int, b: int)
    ensures Itoa(a) == Itoa(b) ==> a == b
  {
    ItoaRoundTrip(a);
    ItoaRoundTrip(b);
  }

  /** A digit string without a leading zero has a positive value. */
  lemma {:induction false} LeadingDigitPositive(s: string)
    requires IsDecimal(s) && s[0] != '0'
    ensures DigitsValue(s) >= 1
    decreases |s|
  {
    if |s| > 1 {
      var p := s[..|s| - 1];
      assert IsDecimal(p) && p[0] == s[0];
      LeadingDigitPositive(p);
    }
  }

  /** Rendering the value of a canonical digit string gives the string back. */
  lemma {:induction false} DigitsOfValue(s: string)
    requires IsDecimal(s) && (s[0] == '0' ==> |s| == 1)
    ensures Digits(DigitsValue(s)) == s
    decreases |s|
  {
    if |s| > 1 {
      var p := s[..|s| - 1];
      var d := s[|s| - 1] as int - '0' as int;
      assert IsDecimal(p) && p[0] == s[0];
      LeadingDigitPositive(p);
      DigitsOfValue(p);
      var n := DigitsValue(s);
      assert n == 10 * DigitsValue(p) + d;
      assert n / 10 == DigitsValue(p) && n % 10 == d;
      assert s == p + [s[|s| - 1]];
    }
  }

  /**
   * The other direction of the round trip: canonical text is exactly what
   * Itoa renders for the number it denotes.
   */
  lemma CanonicalRoundTrip(s: string, n: int)
    requires IsCanonical(s) && ParseDecimal(s) == Some(n)
    ensures Itoa(n) == s
  {
    if IsDecimal(s) {
      DigitsOfValue(s);
    } else {
      var t := s[1..];
      LeadingDigitPositive(t);
      DigitsOfValue(t);
      assert s == "-" + t;
    }
  }
}
