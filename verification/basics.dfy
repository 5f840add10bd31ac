/** Small building blocks shared by the vDC-API model: an optional value,
    bytes, the fixed-width integer conversions of the C++ source, decimal
    rendering (`%d`) and the ASCII lower-casing used for object keys. */
module Basics {

  datatype Option<T> = None | Some(value: T)

  /** One octet of a byte stream. */
  type byte = b: int | 0 <= b < 256

  const TWO32: int := 0x1_0000_0000
  const TWO31: int := 0x8000_0000
  const TWO64: int := 0x1_0000_0000_0000_0000
  const TWO63: int := 0x8000_0000_0000_0000

  type int32 = x: int | -TWO31 <= x < TWO31
  type uint32 = x: int | 0 <= x < TWO32
  type int64 = x: int | -TWO63 <= x < TWO63
  type uint64 = x: int | 0 <= x < TWO64

  /** Storing an integer into a C `uint32_t`: reduction modulo 2^32. */
  function Uint32Of(n: int): (r: uint32)
    ensures (r - n) % TWO32 == 0
    ensures 0 <= n < TWO32 ==> r == n
  {
    n % TWO32
  }

  /** Storing an integer into a C `int32_t` (two's complement wrap-around). */
  function Int32Of(n: int): (r: int32)
    ensures (r - n) % TWO32 == 0
    ensures -TWO31 <= n < TWO31 ==> r == n
  {
    (n + TWO31) % TWO32 - TWO31
  }

  /** Storing an integer into a C `uint64_t`. */
  function Uint64Of(n: int): (r: uint64)
    ensures (r - n) % TWO64 == 0
    ensures 0 <= n < TWO64 ==> r == n
  {
    n % TWO64
  }

  /** Storing an integer into a C `int64_t`. */
  function Int64Of(n: int): (r: int64)
    ensures (r - n) % TWO64 == 0
    ensures -TWO63 <= n < TWO63 ==> r == n
  {
    (n + TWO63) % TWO64 - TWO63
  }

  // ---------------------------------------------------------------------
  // Decimal rendering, as produced by printf's "%d"
  // ---------------------------------------------------------------------

  predicate IsDigit(c: char) {
    '0' <= c <= '9'
  }

  function DigitChar(d: int): (c: char)
    requires 0 <= d < 10
    ensures IsDigit(c)
  {
    ['0', '1', '2', '3', '4', '5', '6', '7', '8', '9'][d]
  }

  function DigitValue(c: char): int
    requires IsDigit(c)
  {
    c as int - '0' as int
  }

  /** Decimal digits of a natural number, most significant first, no leading zeros. */
  function NatToDecimal(n: nat): (s: string)
    decreases n
  {
    if n < 10 then [DigitChar(n)] else NatToDecimal(n / 10) + [DigitChar(n % 10)]
  }

  /** `%d` of a signed integer: a minus sign followed by the digits of |n|. */
  function IntToDecimal(n: int): string
  {
    if n < 0 then "-" + NatToDecimal(-n) else NatToDecimal(n)
  }

  /** Reference reading of a string of digits as a number. */
  function DecimalValue(s: string): nat
    requires forall i :: 0 <= i < |s| ==> IsDigit(s[i])
  {
    if |s| == 0 then 0 else DecimalValue(s[..|s| - 1]) * 10 + DigitValue(s[|s| - 1])
  }

  lemma {:induction false} NatToDecimalDigits(n: nat)
    ensures |NatToDecimal(n)| >= 1
    ensures forall i :: 0 <= i < |NatToDecimal(n)| ==> IsDigit(NatToDecimal(n)[i])
    decreases n
  {
    if n >= 10 {
      NatToDecimalDigits(n / 10);
    }
  }

  /** Reading the rendered digits back yields the number: the rendering is injective. */
  lemma {:induction false} NatToDecimalRoundTrip(n: nat)
    ensures forall i :: 0 <= i < |NatToDecimal(n)| ==> IsDigit(NatToDecimal(n)[i])
    ensures DecimalValue(NatToDecimal(n)) == n
    decreases n
  {
    NatToDecimalDigits(n);
    if n >= 10 {
      NatToDecimalRoundTrip(n / 10);
      var s := NatToDecimal(n);
      assert s[..|s| - 1] == NatToDecimal(n / 10);
    } else {
      var s := NatToDecimal(n);
      assert s[..|s| - 1] == [];
    }
  }

  /** The rendering starts with a minus sign exactly for negative numbers. */
  lemma IntToDecimalSign(n: int)
    ensures |IntToDecimal(n)| >= 1
    ensures IntToDecimal(n)[0] == '-' <==> n < 0
  {
    NatToDecimalDigits(if n < 0 then -n else n);
  }

  /** Distinct naturals render to distinct decimal strings. */
  lemma NatToDecimalInjective(a: nat, b: nat)
    requires NatToDecimal(a) == NatToDecimal(b)
    ensures a == b
  {
    NatToDecimalRoundTrip(a);
    NatToDecimalRoundTrip(b);
  }

  /** Distinct integers render to distinct decimal strings. */
  lemma IntToDecimalInjective(a: int, b: int)
    requires IntToDecimal(a) == IntToDecimal(b)
    ensures a == b
  {
    IntToDecimalSign(a);
    IntToDecimalSign(b);
    if a < 0 {
      NegativeRendering(a);
      NegativeRendering(b);
      NatToDecimalInjective(-a, -b);
    } else {
      NatToDecimalInjective(a, b);
    }
  }

  /** A negative number renders as a minus sign followed by its magnitude. */
  lemma NegativeRendering(n: int)
    requires n < 0
    ensures IntToDecimal(n)[1..] == NatToDecimal(-n)
  {
    assert IntToDecimal(n) == "-" + NatToDecimal(-n);
  }

  // ---------------------------------------------------------------------
  // ASCII lower-casing (the C library's tolower in the "C" locale)
  // ---------------------------------------------------------------------

  function LowerChar(c: char): char
  {
    if 'A' <= c <= 'Z' then (c as int - 'A' as int + 'a' as int) as char else c
  }

  function LowerCase(s: string): (r: string)
    ensures |r| == |s|
    ensures forall i :: 0 <= i < |s| ==> r[i] == LowerChar(s[i])
  {
    if |s| == 0 then "" else [LowerChar(s[0])] + LowerCase(s[1..])
  }

  /** Lower-casing twice is lower-casing once. */
  lemma LowerCaseIdempotent(s: string)
    ensures LowerCase(LowerCase(s)) == LowerCase(s)
  {
  }

  /** Strings without upper-case letters (decimal renderings, for one) are their own lower case. */
  lemma LowerCaseOfDecimal(n: int)
    ensures LowerCase(IntToDecimal(n)) == IntToDecimal(n)
  {
    NatToDecimalDigits(if n < 0 then -n else n);
    var s := IntToDecimal(n);
    assert forall i :: 0 <= i < |s| ==> LowerChar(s[i]) == s[i];
  }
}
