/**
 * The decimal rendering of integers that fmt.Sprint produces for an int64
 * argument: an optional '-' followed by the digits of the magnitude, most
 * significant first, with no leading zeros. ReadDecimal reads such a
 * rendering back; it is the inverse used to prove the rendering injective.
 */
module Decimal {
  import opened Wrappers

  const MIN_INT64: int := -0x8000_0000_0000_0000
  const MAX_INT64: int := 0x7FFF_FFFF_FFFF_FFFF
  const MIN_INT32: int := -0x8000_0000
  const MAX_INT32: int := 0x7FFF_FFFF

  /** Go's int64. */
  type Int64 = g: int | MIN_INT64 <= g <= MAX_INT64

  /** Go's int32. */
  type Int32 = n: int | MIN_INT32 <= n <= MAX_INT32

  predicate IsDigit(c: char) {
    '0' <= c <= '9'
  }

  predicate AllDigits(s: string) {
    forall i :: 0 <= i < |s| ==> IsDigit(s[i])
  }

  function DigitValue(c: char): (d: int)
    requires IsDigit(c)
    ensures 0 <= d < 10
  {
    c as int - '0' as int
  }

  function DigitChar(d: int): (c: char)
    requires 0 <= d < 10
    ensures IsDigit(c) && DigitValue(c) == d
  {
    ('0' as int + d) as char
  }

  /** The digits of n, most significant first. */
  function NaturalDigits(n: nat): (s: string)
    ensures |s| >= 1 && AllDigits(s)
    ensures s[0] == '0' ==> n == 0 && s == "0"
    decreases n
  {
    if n < 10 then [DigitChar(n)] else NaturalDigits(n / 10) + [DigitChar(n % 10)]
  }

  /** The number a run of decimal digits denotes (leading zeros allowed). */
  function DigitsValue(s: string): nat
    requires AllDigits(s)
    decreases |s|
  {
    if s == [] then 0 else 10 * DigitsValue(s[..|s| - 1]) + DigitValue(s[|s| - 1])
  }

  lemma {:induction false} DigitsValueOfNaturalDigits(n: nat)
    ensures DigitsValue(NaturalDigits(n)) == n
    decreases n
  {
    if n >= 10 {
      var s := NaturalDigits(n);
      assert s[..|s| - 1] == NaturalDigits(n / 10);
      DigitsValueOfNaturalDigits(n / 10);
    }
  }

  /** fmt.Sprint of an integer. */
  function Sprint(g: int): (s: string)
    ensures |s| >= 1
    ensures s[0] == '-' <==> g < 0
    ensures AllDigits(s[1..]) && (g >= 0 ==> AllDigits(s))
    ensures s[0] == '0' ==> g == 0 && s == "0"
    ensures g < 0 ==> |s| >= 2 && s[1] != '0'
  {
    if g < 0 then "-" + NaturalDigits(-g) else NaturalDigits(g)
  }

  /** A leading zero does not change the number a run of digits denotes. */
  lemma {:induction false} DigitsValueLeadingZero(d: string)
    requires AllDigits(d)
    ensures AllDigits("0" + d) && DigitsValue("0" + d) == DigitsValue(d)
    decreases |d|
  {
    var z := "0" + d;
    assert AllDigits(z) by {
      forall i | 0 <= i < |z| ensures IsDigit(z[i]) {
        if i > 0 { assert z[i] == d[i - 1]; }
      }
    }
    if d == [] {
      assert z[..0] == "";
    } else {
      assert z[..|z| - 1] == "0" + d[..|d| - 1];
      assert z[|z| - 1] == d[|d| - 1];
      DigitsValueLeadingZero(d[..|d| - 1]);
    }
  }

  /** Reads an optionally negative run of decimal digits; None for anything else. */
  function ReadDecimal(s: string): Option<int> {
    if |s| >= 2 && s[0] == '-' && AllDigits(s[1..]) then Some(-(DigitsValue(s[1..]) as int))
    else if |s| >= 1 && AllDigits(s) then Some(DigitsValue(s))
    else None
  }

  /** Reading a rendering back gives the integer that was rendered. */
  lemma ReadSprint(g: int)
    ensures ReadDecimal(Sprint(g)) == Some(g)
  {
    if g < 0 {
      var d := NaturalDigits(-g);
      assert Sprint(g) == "-" + d;
      ReadNegative(d);
      DigitsValueOfNaturalDigits(-g);
    } else {
      var d := NaturalDigits(g);
      assert Sprint(g) == d;
      ReadNatural(d);
      DigitsValueOfNaturalDigits(g);
    }
  }

  lemma ReadNegative(d: string)
    requires |d| >= 1 && AllDigits(d)
    ensures ReadDecimal("-" + d) == Some(-(DigitsValue(d) as int))
  {
    assert ("-" + d)[0] == '-' && ("-" + d)[1..] == d;
  }

  lemma ReadNatural(d: string)
    requires |d| >= 1 && AllDigits(d)
    ensures ReadDecimal(d) == Some(DigitsValue(d) as int)
  {
    assert IsDigit(d[0]);
  }

  /** Two integers render alike exactly when they are equal. */
  lemma SprintInjective(a: int, b: int)
    ensures Sprint(a) == Sprint(b) <==> a == b
  {
    ReadSprint(a);
    ReadSprint(b);
  }

  lemma SprintExamples()
    ensures Sprint(0) == "0" && Sprint(3) == "3" && Sprint(-3) == "-3" && Sprint(42) == "42"
  {
    assert NaturalDigits(42) == NaturalDigits(4) + [DigitChar(2)];
  }
}
