/**
 Digit strings as .NET's invariant-culture number parsing reads them: ASCII
 hexadecimal and decimal digit sequences, their values, the canonical
 renderings `uint.ToString("X")` and `uint.ToString()`, and the 32-bit
 two's-complement reinterpretation performed by `unchecked((int)u)`.
 */
module Numerals {

  /** 2^32, one past the largest `uint`. */
  const TWO_32: nat := 0x1_0000_0000

  /** 2^31, one past the largest `int`. */
  const TWO_31: nat := 0x8000_0000

  /** The values of .NET's `uint` (System.UInt32). */
  type uint32 = n: nat | n < TWO_32

  predicate IsDecDigit(c: char) {
    '0' <= c <= '9'
  }

  /** The characters `NumberStyles.AllowHexSpecifier` accepts as digits (either case). */
  predicate IsHexDigit(c: char) {
    IsDecDigit(c) || 'a' <= c <= 'f' || 'A' <= c <= 'F'
  }

  predicate AllDecDigits(s: string) {
    forall i :: 0 <= i < |s| ==> IsDecDigit(s[i])
  }

  predicate AllHexDigits(s: string) {
    forall i :: 0 <= i < |s| ==> IsHexDigit(s[i])
  }

  function DecDigitValue(c: char): (d: nat)
    requires IsDecDigit(c)
    ensures d < 10
  {
    c as int - '0' as int
  }

  function HexDigitValue(c: char): (d: nat)
    requires IsHexDigit(c)
    ensures d < 16
    ensures IsDecDigit(c) ==> d == DecDigitValue(c)
  {
    if IsDecDigit(c) then c as int - '0' as int
    else if 'a' <= c <= 'f' then c as int - 'a' as int + 10
    else c as int - 'A' as int + 10
  }

  /** The number a hexadecimal digit string denotes, most significant digit first. */
  function HexValue(s: string): nat
    requires AllHexDigits(s)
  {
    if |s| == 0 then 0 else HexValue(s[..|s| - 1]) * 16 + HexDigitValue(s[|s| - 1])
  }

  /** The number a decimal digit string denotes, most significant digit first. */
  function DecValue(s: string): nat
    requires AllDecDigits(s)
  {
    if |s| == 0 then 0 else DecValue(s[..|s| - 1]) * 10 + DecDigitValue(s[|s| - 1])
  }

  /** The upper-case digit `ToString("X")` writes for d. */
  function HexDigitChar(d: nat): (c: char)
    requires d < 16
    ensures IsHexDigit(c) && HexDigitValue(c) == d
  {
    if d < 10 then ('0' as int + d) as char else ('A' as int + d - 10) as char
  }

  function DecDigitChar(d: nat): (c: char)
    requires d < 10
    ensures IsDecDigit(c) && DecDigitValue(c) == d
  {
    ('0' as int + d) as char
  }

  /** `v.ToString("X")`: the shortest upper-case hexadecimal numeral of v. */
  function HexString(v: nat): (s: string)
    ensures |s| >= 1 && AllHexDigits(s)
    ensures |s| == 1 || s[0] != '0'
  {
    if v < 16 then [HexDigitChar(v)] else HexString(v / 16) + [HexDigitChar(v % 16)]
  }

  /** `v.ToString()`: the shortest decimal numeral of v. */
  function DecimalString(v: nat): (s: string)
    ensures |s| >= 1 && AllDecDigits(s)
    ensures |s| == 1 || s[0] != '0'
  {
    if v < 10 then [DecDigitChar(v)] else DecimalString(v / 10) + [DecDigitChar(v % 10)]
  }

  /** Reading back the rendered hexadecimal numeral gives the number rendered. */
  lemma {:induction false} HexRoundTrip(v: nat)
    ensures HexValue(HexString(v)) == v
  {
    var s := HexString(v);
    if v >= 16 {
      HexRoundTrip(v / 16);
      assert s[..|s| - 1] == HexString(v / 16);
    }
  }

  /** Reading back the rendered decimal numeral gives the number rendered. */
  lemma {:induction false} DecimalRoundTrip(v: nat)
    ensures DecValue(DecimalString(v)) == v
  {
    var s := DecimalString(v);
    if v >= 10 {
      DecimalRoundTrip(v / 10);
      assert s[..|s| - 1] == DecimalString(v / 10);
    }
  }

  /** Leading zeros do not change the value of a hexadecimal numeral. */
  lemma {:induction false} HexLeadingZero(s: string)
    requires AllHexDigits(s)
    ensures AllHexDigits("0" + s) && HexValue("0" + s) == HexValue(s)
  {
    var t := "0" + s;
    assert AllHexDigits(t) by {
      forall i | 0 <= i < |t| ensures IsHexDigit(t[i]) {
        if i > 0 { assert t[i] == s[i - 1]; }
      }
    }
    if |s| > 0 {
      var p := s[..|s| - 1];
      HexLeadingZero(p);
      assert t[..|t| - 1] == "0" + p;
    }
  }

  /** Appending a digit to a hexadecimal numeral shifts its value one digit up and adds the digit. */
  lemma HexValueAppend(p: string, c: char)
    requires AllHexDigits(p) && IsHexDigit(c)
    ensures AllHexDigits(p + [c])
    ensures HexValue(p + [c]) == HexValue(p) * 16 + HexDigitValue(c)
  {
  }

  /** `unchecked((int)u)`: the `int` with the same 32-bit pattern as the `uint` u. */
  function ToSigned32(u: uint32): (r: int)
    ensures -(TWO_31 as int) <= r < TWO_31
    ensures (r - u) % TWO_32 == 0
  {
    if u < TWO_31 then u else u - TWO_32
  }
}
