/**
 * Decimal rendering of integers (JavaScript's `String(n)` on integral numbers)
 * and the digit arithmetic `parseInt` performs, for radix 10 and 16.
 */
module Numerals {

  import opened Strings

  function DigitChar(d: nat): (c: char)
    requires d < 10
    ensures IsDigit(c)
  {
    ('0' as int + d) as char
  }

  /** Value of a hexadecimal digit character; 16 for any other character. */
  function HexValue(c: char): (v: nat)
    ensures v <= 16
    ensures IsDigit(c) ==> v < 10
  {
    if '0' <= c <= '9' then c as int - '0' as int
    else if 'a' <= c <= 'f' then c as int - 'a' as int + 10
    else if 'A' <= c <= 'F' then c as int - 'A' as int + 10
    else 16
  }

  /** `c` is a digit of base `radix` (10 or 16 in this program). */
  predicate IsRadixDigit(c: char, radix: nat)
  {
    HexValue(c) < radix
  }

  lemma DecimalDigitIsDigit(c: char)
    ensures IsRadixDigit(c, 10) <==> IsDigit(c)
  {
  }

  lemma DecimalDigitsAreRadixDigits(s: string)
    requires forall i :: 0 <= i < |s| ==> IsDigit(s[i])
    ensures forall i :: 0 <= i < |s| ==> IsRadixDigit(s[i], 10)
  {
    forall i | 0 <= i < |s| ensures IsRadixDigit(s[i], 10) {
      DecimalDigitIsDigit(s[i]);
    }
  }

  /** Decimal representation of `n`, without leading zeros. */
  function FromNat(n: nat): (r: string)
    ensures |r| >= 1
    ensures forall i :: 0 <= i < |r| ==> IsDigit(r[i])
    decreases n
  {
    if n < 10 then [DigitChar(n)] else FromNat(n / 10) + [DigitChar(n % 10)]
  }

  /** `String(n)` for an integral number. */
  function FromInt(n: int): (r: string)
    ensures |r| >= 1
  {
    if n < 0 then "-" + FromNat(-n) else FromNat(n)
  }

  lemma ProductNonNegative(a: nat, b: nat)
    ensures a * b >= 0
  {
  }

  /** Value of a string of digits of base `radix`, most significant first. */
  function Value(s: string, radix: nat): nat
    requires forall i :: 0 <= i < |s| ==> IsRadixDigit(s[i], radix)
  {
    if s == [] then 0
    else
      var init := s[..|s| - 1];
      assert forall i :: 0 <= i < |init| ==> init[i] == s[i];
      var high := Value(init, radix);
      ProductNonNegative(high, radix);
      high * radix + HexValue(s[|s| - 1])
  }

  /** The longest prefix of `s` made of digits of base `radix`. */
  function DigitPrefix(s: string, radix: nat): (r: string)
    ensures |r| <= |s| && r == s[..|r|]
    ensures forall i :: 0 <= i < |r| ==> IsRadixDigit(r[i], radix)
    ensures |r| < |s| ==> !IsRadixDigit(s[|r|], radix)
  {
    if s == [] || !IsRadixDigit(s[0], radix) then []
    else [s[0]] + DigitPrefix(s[1..], radix)
  }

  lemma {:induction false} DigitPrefixOfDigits(s: string, t: string, radix: nat)
    requires forall i :: 0 <= i < |s| ==> IsRadixDigit(s[i], radix)
    requires t == [] || !IsRadixDigit(t[0], radix)
    ensures DigitPrefix(s + t, radix) == s
    decreases |s|
  {
    if s != [] {
      assert (s + t)[1..] == s[1..] + t;
      DigitPrefixOfDigits(s[1..], t, radix);
    } else {
      assert s + t == t;
    }
  }

  /** Reading back the decimal rendering gives the number. */
  lemma {:induction false} ValueOfFromNat(n: nat)
    ensures forall i :: 0 <= i < |FromNat(n)| ==> IsRadixDigit(FromNat(n)[i], 10)
    ensures Value(FromNat(n), 10) == n
    decreases n
  {
    var r := FromNat(n);
    forall i | 0 <= i < |r|
      ensures IsRadixDigit(r[i], 10)
    {
      DecimalDigitIsDigit(r[i]);
    }
    if n >= 10 {
      ValueOfFromNat(n / 10);
      assert r[..|r| - 1] == FromNat(n / 10);
    }
  }

  /** Distinct numbers have distinct decimal renderings. */
  lemma FromNatInjective(m: nat, n: nat)
    requires FromNat(m) == FromNat(n)
    ensures m == n
  {
    ValueOfFromNat(m);
    ValueOfFromNat(n);
  }
}
