/**
 The .NET parsing and conversion primitives the converter calls, restricted
 to integer and enum targets and to invariant-culture rules:
 `uint.Parse`/`uint.TryParse` with `NumberStyles.AllowHexSpecifier`, integer
 parsing with `NumberStyles.Integer` (what `Convert.ChangeType(string, T)`
 and `uint.TryParse(string)` do), the checked `Convert.ChangeType(uint, T)`,
 and `Enum.Parse`.
 */
module LiteralParsing {
  import opened Numerals
  import opened VaultTypes

  /** `str.StartsWith("0x")`: only a lower-case `x` is recognised. */
  function HasHexPrefix(s: string): (b: bool)
    ensures b <==> "0x" <= s
  {
    |s| >= 2 && s[0] == '0' && s[1] == 'x'
  }

  /**
   `uint.Parse(s, NumberStyles.AllowHexSpecifier)`: one or more hexadecimal
   digits of either case, leading zeros allowed, no sign, prefix or
   whitespace. A malformed string is a format error before it is an overflow.
   */
  function ParseHexUInt32(s: string): (r: Result<uint32>)
    ensures r.Success? ==> AllHexDigits(s) && r.value == HexValue(s)
    ensures r.Failure? && r.error == FormatError <==> |s| == 0 || !AllHexDigits(s)
    ensures r.Failure? ==> r.error == FormatError || r.error == OverflowError
    ensures |s| > 0 && AllHexDigits(s) && HexValue(s) < TWO_32 ==> r == Success(HexValue(s))
  {
    if |s| == 0 || !AllHexDigits(s) then Failure(FormatError)
    else if HexValue(s) < TWO_32 then Success(HexValue(s))
    else Failure(OverflowError)
  }

  /** `uint.TryParse(s, NumberStyles.AllowHexSpecifier, …, out val)`. */
  function TryParseHexUInt32(s: string): (b: bool)
    ensures b <==> |s| > 0 && AllHexDigits(s) && HexValue(s) < TWO_32
  {
    ParseHexUInt32(s).Success?
  }

  /**
   The hexadecimal parse as the runtime performs it: one left-to-right pass
   over the digits with a 32-bit accumulator, which refuses to shift once
   its top hexadecimal digit is occupied and keeps scanning so that a bad
   digit after an overflow is still reported as a format error.
   */
  method ScanHexUInt32(s: string) returns (r: Result<uint32>)
    ensures r == ParseHexUInt32(s)
  {
    if |s| == 0 {
      return Failure(FormatError);
    }
    var acc: uint32 := 0;
    var overflow := false;
    var i := 0;
    while i < |s|
      invariant 0 <= i <= |s|
      invariant AllHexDigits(s[..i])
      invariant !overflow ==> acc == HexValue(s[..i])
      invariant overflow ==> HexValue(s[..i]) >= TWO_32
    {
      if !IsHexDigit(s[i]) {
        return Failure(FormatError);
      }
      assert s[..i + 1] == s[..i] + [s[i]];
      HexValueAppend(s[..i], s[i]);
      if !overflow {
        if acc > 0x0FFF_FFFF {
          overflow := true;
        } else {
          acc := acc * 16 + HexDigitValue(s[i]);
        }
      }
      i := i + 1;
    }
    assert s[..i] == s;
    if overflow {
      return Failure(OverflowError);
    }
    return Success(acc);
  }

  /**
   An integer literal under `NumberStyles.Integer` in the invariant culture:
   an optional `+` or `-` followed by one or more decimal digits.
   */
  function SignedDecimal(s: string): Option<int> {
    if |s| > 0 && (s[0] == '+' || s[0] == '-') then
      var digits := s[1..];
      if |digits| > 0 && AllDecDigits(digits) then
        var magnitude: int := DecValue(digits);
        Some(if s[0] == '-' then -magnitude else magnitude)
      else None
    else if |s| > 0 && AllDecDigits(s) then Some(DecValue(s))
    else None
  }

  /**
   `T.Parse(s, NumberStyles.Integer, CultureInfo.InvariantCulture)` for the
   integer primitive k: the literal's value, an overflow when k cannot hold
   it, a format error when it is not an integer literal.
   */
  function ParseInteger(s: string, k: IntKind): (r: Result<int>)
    ensures r.Success? ==> k.InRange(r.value) && SignedDecimal(s) == Some(r.value)
    ensures r.Failure? ==> (r.error == FormatError <==> SignedDecimal(s).None?)
    ensures r.Failure? ==> r.error == FormatError || r.error == OverflowError
    ensures SignedDecimal(s).Some? && k.InRange(SignedDecimal(s).value) ==> r == Success(SignedDecimal(s).value)
  {
    match SignedDecimal(s)
    case None => Failure(FormatError)
    case Some(n) => if k.InRange(n) then Success(n) else Failure(OverflowError)
  }

  /** `uint.TryParse(s, out _)`. */
  function TryParseUInt32(s: string): (b: bool)
    ensures b <==> SignedDecimal(s).Some? && 0 <= SignedDecimal(s).value < TWO_32
  {
    ParseInteger(s, UInt32).Success?
  }

  /** `Convert.ChangeType(s, k, CultureInfo.InvariantCulture)` for an integer target. */
  function ChangeTypeFromString(s: string, k: IntKind): (r: Result<Value>)
    ensures r.Success? <==> ParseInteger(s, k).Success?
    ensures r.Success? ==> r.value == IntValue(k, ParseInteger(s, k).value) && k.InRange(r.value.n)
    ensures r.Failure? ==> r.error == ParseInteger(s, k).error
  {
    var n :- ParseInteger(s, k);
    Success(IntValue(k, n))
  }

  /**
   `Convert.ChangeType(v, k)` for a boxed `uint` v: a checked conversion that
   keeps the number and raises an overflow instead of truncating.
   */
  function ChangeTypeFromUInt32(v: uint32, k: IntKind): (r: Result<Value>)
    ensures r.Success? <==> k.InRange(v)
    ensures r.Success? ==> r.value == IntValue(k, v)
    ensures r.Failure? ==> r.error == OverflowError
  {
    if k.InRange(v) then Success(IntValue(k, v)) else Failure(OverflowError)
  }

  /** The number of the first member of `members` called `name`, if any. */
  function LookupMember(members: seq<EnumMember>, name: string): (r: Option<int>)
    ensures r.None? <==> forall i :: 0 <= i < |members| ==> members[i].name != name
    ensures r.Some? ==> exists i :: 0 <= i < |members| && members[i] == EnumMember(name, r.value)
    ensures r.Some? ==>
      exists i :: 0 <= i < |members| && members[i] == EnumMember(name, r.value) &&
        forall j :: 0 <= j < i ==> members[j].name != name
  {
    if |members| == 0 then None
    else if members[0].name == name then Some(members[0].number)
    else
      var rest := LookupMember(members[1..], name);
      assert forall i :: 1 <= i < |members| ==> members[i] == members[1..][i - 1];
      rest
  }

  /** `Enum.Parse` by name: exact, case-sensitive member lookup. */
  function EnumByName(e: EnumType, s: string): (r: Result<Value>)
    ensures r.Success? <==> exists i :: 0 <= i < |e.members| && e.members[i].name == s
    ensures r.Success? ==> r.value.EnumValue? && r.value.enumType == e
    ensures r.Success? ==> exists i :: 0 <= i < |e.members| && e.members[i] == EnumMember(s, r.value.n)
    ensures r.Failure? ==> r.error == EnumError
  {
    match LookupMember(e.members, s)
    case Some(n) => Success(EnumValue(e, n))
    case None => Failure(EnumError)
  }

  /** The literals `Enum.Parse` first tries to read as a number. */
  predicate LooksNumeric(s: string) {
    |s| > 0 && (IsDecDigit(s[0]) || s[0] == '-' || s[0] == '+')
  }

  /**
   `Enum.Parse(e, s)`: an empty literal is an argument error; a literal that
   starts with a digit or sign is read as an integer of the underlying type
   (any such number is accepted, named or not; a number the underlying type
   cannot hold is an overflow; a literal that is not a number falls back to
   the name lookup); any other literal is looked up by name.
   */
  function EnumParse(e: EnumType, s: string): (r: Result<Value>)
    ensures r.Success? ==> r.value.EnumValue? && r.value.enumType == e
    ensures r.Failure? ==> r.error == EnumError || r.error == OverflowError
  {
    if |s| == 0 then Failure(EnumError)
    else if LooksNumeric(s) then
      match ParseInteger(s, e.underlying)
      case Success(n) => Success(EnumValue(e, n))
      case Failure(err) => if err == OverflowError then Failure(OverflowError) else EnumByName(e, s)
    else EnumByName(e, s)
  }

  /**
   `Enum.Parse` of an empty literal is an argument error, and a literal that
   does not start with a digit or sign is matched by member name only.
   */
  lemma EnumParseByName(e: EnumType, s: string)
    ensures EnumParse(e, "") == Failure(EnumError)
    ensures |s| > 0 && !LooksNumeric(s) ==> EnumParse(e, s) == EnumByName(e, s)
  {
  }

  /** Leading zeros do not change what a hexadecimal literal parses to. */
  lemma {:induction false} ParseHexLeadingZero(s: string)
    ensures |s| > 0 ==> ParseHexUInt32("0" + s) == ParseHexUInt32(s)
    ensures ParseHexUInt32("0") == Success(0)
  {
    if AllHexDigits(s) {
      HexLeadingZero(s);
    } else {
      var i :| 0 <= i < |s| && !IsHexDigit(s[i]);
      assert ("0" + s)[i + 1] == s[i];
    }
  }

  /** A rendered `uint` reads back as itself: the partner of `ToString("X")`. */
  lemma {:induction false} ParseHexRoundTrip(v: uint32)
    ensures ParseHexUInt32(HexString(v)) == Success(v)
  {
    HexRoundTrip(v);
  }

  /**
   A rendered decimal numeral reads back as its number in every integer
   primitive that can hold it, and as an overflow in every other.
   */
  lemma {:induction false} ParseIntegerRoundTrip(v: nat, k: IntKind)
    ensures k.InRange(v) ==> ParseInteger(DecimalString(v), k) == Success(v)
    ensures !k.InRange(v) ==> ParseInteger(DecimalString(v), k) == Failure(OverflowError)
  {
    DecimalRoundTrip(v);
  }

  /** A negated rendered numeral reads back as the negative number. */
  lemma {:induction false} ParseNegativeRoundTrip(v: nat, k: IntKind)
    ensures SignedDecimal("-" + DecimalString(v)) == Some(-(v as int))
    ensures k.InRange(-(v as int)) ==> ParseInteger("-" + DecimalString(v), k) == Success(-(v as int))
  {
    DecimalRoundTrip(v);
    assert ("-" + DecimalString(v))[1..] == DecimalString(v);
  }

  /** No `0x`-prefixed literal is an integer literal: the `x` is not a digit. */
  lemma HexPrefixIsNotDecimal(s: string, k: IntKind)
    requires HasHexPrefix(s)
    ensures SignedDecimal(s).None?
    ensures ParseInteger(s, k) == Failure(FormatError)
  {
  }

  /**
   `Enum.Parse(e, v.ToString())` selects the enum value by number: the value
   numbered v whether or not a member carries that number, or an overflow
   when the underlying type cannot hold v.
   */
  lemma {:induction false} EnumParseByNumber(e: EnumType, v: nat)
    ensures e.underlying.InRange(v) ==> EnumParse(e, DecimalString(v)) == Success(EnumValue(e, v))
    ensures !e.underlying.InRange(v) ==> EnumParse(e, DecimalString(v)) == Failure(OverflowError)
  {
    ParseIntegerRoundTrip(v, e.underlying);
  }

  /**
   A `0x`-prefixed literal given to `Enum.Parse` is never read as a number:
   it succeeds exactly when a member has that very name.
   */
  lemma EnumParseHexPrefixIsByName(e: EnumType, s: string)
    requires HasHexPrefix(s)
    ensures EnumParse(e, s) == EnumByName(e, s)
  {
  }
}
