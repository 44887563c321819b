/**
 The three `DoPrimitiveConversion` overloads of `ValueConversionUtils`: the
 entry point that resolves a wrapper's primitive type through the cache,
 the conversion of a literal to a resolved primitive type, and the
 conversion guided by an example value's runtime type. `VLT32Hasher.Hash`
 is the parameter `hash`, of which only its value at the literal is used.
 */
module ValueConversion {
  import opened Numerals
  import opened VaultTypes
  import opened LiteralParsing
  import opened TypeResolver

  /** A literal the attribute-typed path reads as hexadecimal: `0x` and a valid `uint`. */
  function IsHexLiteral(s: string): (b: bool)
    ensures b <==> "0x" <= s && |s| > 2 && AllHexDigits(s[2..]) && HexValue(s[2..]) < TWO_32
  {
    HasHexPrefix(s) && TryParseHexUInt32(s[2..])
  }

  function HexLiteralValue(s: string): uint32
    requires IsHexLiteral(s)
  {
    ParseHexUInt32(s[2..]).value
  }

  /** v is a value of the primitive type p. */
  predicate HasType(v: Value, p: Prim) {
    match p
    case IntPrim(k) => v.IntValue? && v.kind == k && k.InRange(v.n)
    case EnumPrim(e) => v.EnumValue? && v.enumType == e
  }

  /** a and b are boxed values of the same runtime type. */
  predicate SameRuntimeType(a: Value, b: Value) {
    match a
    case IntValue(k, _) => b.IntValue? && b.kind == k
    case EnumValue(e, _) => b.EnumValue? && b.enumType == e
    case StringValue(_) => b.StringValue?
  }

  /**
   The conversion of a literal to a resolved primitive type. A `0x` literal
   whose rest is a valid `uint` is taken by number: an enum value is chosen
   through `Enum.Parse` of the number's decimal rendering, an integer is
   converted with overflow checking. Any other literal, including a `0x`
   literal whose rest is not a valid `uint`, is given whole to `Enum.Parse`
   or to the integer parse. On success the same wrapper is returned, now
   holding a value of the target type.
   */
  function ConvertToType(w: Wrapper, s: string, target: Prim): (r: Result<Wrapper>)
    ensures r.Success? ==> r.value.wrapperType == w.wrapperType && HasType(r.value.value, target)
    ensures r.Failure? ==> r.error != SchemaError
  {
    var v :- match target
      case EnumPrim(e) =>
        if IsHexLiteral(s) then EnumParse(e, DecimalString(HexLiteralValue(s))) else EnumParse(e, s)
      case IntPrim(k) =>
        if IsHexLiteral(s) then ChangeTypeFromUInt32(HexLiteralValue(s), k) else ChangeTypeFromString(s, k);
    Success(w.(value := v))
  }

  /** The cache after an entry-point conversion, and the converted wrapper or the error raised. */
  datatype Conversion = Conversion(cache: TypeCache, result: Result<Wrapper>)

  /**
   The entry point: resolve the wrapper's primitive type through the cache,
   then convert. The cache entry is written before the literal is converted,
   so it survives a conversion that fails.
   */
  function DoPrimitiveConversion(cache: TypeCache, w: Wrapper, s: string): (r: Conversion)
    ensures forall id :: id in cache ==> id in r.cache && r.cache[id] == cache[id]
    ensures r.cache.Keys <= cache.Keys + {w.wrapperType.id}
    ensures r.result.Failure? && r.result.error == SchemaError ==> r.cache == cache
    ensures r.result == Failure(SchemaError) <==> Resolve(cache, w.wrapperType).result.Failure?
    ensures r.result.Success? ==>
      && w.wrapperType.id in r.cache
      && r.result.value.wrapperType == w.wrapperType
      && HasType(r.result.value.value, r.cache[w.wrapperType.id])
  {
    var res := Resolve(cache, w.wrapperType);
    match res.result
    case Failure(err) => Conversion(res.cache, Failure(err))
    case Success(p) => Conversion(res.cache, ConvertToType(w, s, p))
  }

  /**
   The conversion guided by an example value. Without an example the literal
   is returned as a string. For a `uint` example a `0x` literal is parsed
   strictly as hexadecimal, a literal that is not a `uint` is hashed, and any
   other is parsed as a `uint`. An `int` example is treated alike, except that
   the hexadecimal number and the hash are reinterpreted as signed, and the
   gate before hashing is still the `uint` parse. An enum example parses the
   literal with `Enum.Parse`; any other integer example parses it as that
   integer type; a string example yields the literal itself.
   */
  function ConvertByExample(example: Option<Value>, s: string, hash: string -> uint32): (r: Result<Value>)
    ensures example.None? ==> r == Success(StringValue(s))
    ensures example.Some? && r.Success? ==> SameRuntimeType(example.value, r.value)
    ensures r.Success? && r.value.IntValue? ==> r.value.kind.InRange(r.value.n)
    ensures r.Failure? ==> r.error != SchemaError
  {
    match example
    case None => Success(StringValue(s))
    case Some(IntValue(UInt32, _)) =>
      if HasHexPrefix(s) then
        var n :- ParseHexUInt32(s[2..]);
        Success(IntValue(UInt32, n))
      else if !TryParseUInt32(s) then Success(IntValue(UInt32, hash(s)))
      else ChangeTypeFromString(s, UInt32)
    case Some(IntValue(Int32, _)) =>
      if HasHexPrefix(s) then
        var n :- ParseHexUInt32(s[2..]);
        Success(IntValue(Int32, ToSigned32(n)))
      else if !TryParseUInt32(s) then Success(IntValue(Int32, ToSigned32(hash(s))))
      else ChangeTypeFromString(s, Int32)
    case Some(IntValue(k, _)) => ChangeTypeFromString(s, k)
    case Some(EnumValue(e, _)) => EnumParse(e, s)
    case Some(StringValue(_)) => Success(StringValue(s))
  }

  // ----- The attribute-typed path -----

  /**
   Hexadecimal round trip: `"0x" + hex(v)` stores exactly v in every integer
   primitive that can hold it, `uint` among them, and raises an overflow
   instead of truncating in every narrower one.
   */
  lemma {:induction false} HexLiteralToInteger(w: Wrapper, v: uint32, k: IntKind)
    ensures k.InRange(v) ==> ConvertToType(w, "0x" + HexString(v), IntPrim(k)) == Success(w.(value := IntValue(k, v)))
    ensures !k.InRange(v) ==> ConvertToType(w, "0x" + HexString(v), IntPrim(k)) == Failure(OverflowError)
  {
    HexLiteralReadsBack(v);
  }

  /**
   A hexadecimal literal on an enum target selects the value with that
   number, whether or not a member carries it, or overflows when the
   underlying type cannot hold the number.
   */
  lemma {:induction false} HexLiteralToEnum(w: Wrapper, v: uint32, e: EnumType)
    ensures e.underlying.InRange(v) ==>
      ConvertToType(w, "0x" + HexString(v), EnumPrim(e)) == Success(w.(value := EnumValue(e, v)))
    ensures !e.underlying.InRange(v) ==>
      ConvertToType(w, "0x" + HexString(v), EnumPrim(e)) == Failure(OverflowError)
  {
    HexLiteralReadsBack(v);
    EnumParseByNumber(e, v);
  }

  /** `"0x" + hex(v)` is a hexadecimal literal whose value is v. */
  lemma {:induction false} HexLiteralReadsBack(v: uint32)
    ensures IsHexLiteral("0x" + HexString(v)) && HexLiteralValue("0x" + HexString(v)) == v
  {
    assert ("0x" + HexString(v))[2..] == HexString(v);
    ParseHexRoundTrip(v);
  }

  /**
   Any literal that is not a hexadecimal `uint` literal is converted whole: by
   the integer parse of the target primitive, or by `Enum.Parse`, and the
   result is stored in the same wrapper.
   */
  lemma PlainLiteral(w: Wrapper, s: string, p: Prim)
    requires !IsHexLiteral(s)
    ensures p.IntPrim? ==>
      ConvertToType(w, s, p) ==
        (match ParseInteger(s, p.kind)
         case Success(n) => Success(w.(value := IntValue(p.kind, n)))
         case Failure(err) => Failure(err))
    ensures p.EnumPrim? ==>
      ConvertToType(w, s, p) ==
        (match EnumParse(p.enumType, s)
         case Success(v) => Success(w.(value := v))
         case Failure(err) => Failure(err))
  {
  }

  /**
   A `0x` literal whose rest is a valid `uint`, in any spelling (either case,
   leading zeros), is taken by the number its digits denote: an integer
   target stores it when it fits and overflows otherwise; an enum target
   selects the value with that number, named or not, or overflows the
   underlying type.
   */
  lemma HexLiteral(w: Wrapper, s: string, p: Prim)
    requires IsHexLiteral(s)
    ensures HexLiteralValue(s) == HexValue(s[2..])
    ensures p.IntPrim? && p.kind.InRange(HexValue(s[2..])) ==>
      ConvertToType(w, s, p) == Success(w.(value := IntValue(p.kind, HexValue(s[2..]))))
    ensures p.IntPrim? && !p.kind.InRange(HexValue(s[2..])) ==>
      ConvertToType(w, s, p) == Failure(OverflowError)
    ensures p.EnumPrim? && p.enumType.underlying.InRange(HexValue(s[2..])) ==>
      ConvertToType(w, s, p) == Success(w.(value := EnumValue(p.enumType, HexValue(s[2..]))))
    ensures p.EnumPrim? && !p.enumType.underlying.InRange(HexValue(s[2..])) ==>
      ConvertToType(w, s, p) == Failure(OverflowError)
  {
    if p.EnumPrim? {
      EnumParseByNumber(p.enumType, HexLiteralValue(s));
    }
  }

  /**
   Decimal round trip: a rendered decimal numeral stores its number in every
   integer primitive that can hold it and overflows in every other.
   */
  lemma {:induction false} DecimalLiteralToInteger(w: Wrapper, v: nat, k: IntKind)
    ensures k.InRange(v) ==> ConvertToType(w, DecimalString(v), IntPrim(k)) == Success(w.(value := IntValue(k, v)))
    ensures !k.InRange(v) ==> ConvertToType(w, DecimalString(v), IntPrim(k)) == Failure(OverflowError)
  {
    ParseIntegerRoundTrip(v, k);
    var d := DecimalString(v);
    assert !HasHexPrefix(d) by {
      assert |d| < 2 || IsDecDigit(d[1]);
    }
  }

  /**
   A `0x` literal whose rest is not a valid `uint` is not rejected by the
   hexadecimal branch: it is given whole to the plain integer parse, which
   refuses it as a format error, or to `Enum.Parse`, which can only match it
   as a member name.
   */
  lemma HexPrefixFallsThrough(w: Wrapper, s: string, p: Prim)
    requires HasHexPrefix(s) && !TryParseHexUInt32(s[2..])
    ensures p.IntPrim? ==> ConvertToType(w, s, p) == Failure(FormatError)
    ensures p.EnumPrim? ==>
      ConvertToType(w, s, p) == (if exists i :: 0 <= i < |p.enumType.members| && p.enumType.members[i].name == s
                                 then Success(w.(value := EnumByName(p.enumType, s).value))
                                 else Failure(EnumError))
  {
  }

  /** `"0x"` and `"0xZZ"` fall through to the plain parse of the whole literal. */
  lemma BadHexLiterals(w: Wrapper, k: IntKind)
    ensures ConvertToType(w, "0x", IntPrim(k)) == Failure(FormatError)
    ensures ConvertToType(w, "0xZZ", IntPrim(k)) == Failure(FormatError)
  {
  }

  /**
   For the enum {A = 1, B = 2}: `"0x1"` selects A by number, `"0x3"` yields
   the unnamed value 3 rather than an error, `"A"` selects A by name and
   `"Z"` is an unknown name.
   */
  lemma SmallEnumExamples(w: Wrapper)
    ensures var e := EnumType("E", Int32, [EnumMember("A", 1), EnumMember("B", 2)]);
      && ConvertToType(w, "0x1", EnumPrim(e)) == Success(w.(value := EnumValue(e, 1)))
      && ConvertToType(w, "0x3", EnumPrim(e)) == Success(w.(value := EnumValue(e, 3)))
      && ConvertToType(w, "A", EnumPrim(e)) == Success(w.(value := EnumValue(e, 1)))
      && ConvertToType(w, "Z", EnumPrim(e)) == Failure(EnumError)
  {
  }

  // ----- The entry point and the cache -----

  /**
   With the wrapper's type cached, conversion uses the cached type, ignores
   the wrapper type's metadata, and leaves the cache unchanged.
   */
  lemma ConversionUsesCachedType(cache: TypeCache, w: Wrapper, s: string)
    requires w.wrapperType.id in cache
    ensures DoPrimitiveConversion(cache, w, s) == Conversion(cache, ConvertToType(w, s, cache[w.wrapperType.id]))
  {
  }

  /**
   A cold resolution is recorded before the literal is converted: the cache
   gains the wrapper's entry even when the literal then fails to convert.
   */
  lemma ColdResolutionIsCachedFirst(cache: TypeCache, w: Wrapper, s: string)
    requires w.wrapperType.id !in cache && ColdResolve(w.wrapperType).Success?
    ensures var p := ColdResolve(w.wrapperType).value;
      DoPrimitiveConversion(cache, w, s) == Conversion(cache[w.wrapperType.id := p], ConvertToType(w, s, p))
  {
  }

  // ----- The value-inferred path -----

  /** Only the example's runtime type matters, never the value it holds. */
  lemma ExampleValueIsIgnored(x: Value, y: Value, s: string, hash: string -> uint32)
    requires SameRuntimeType(x, y)
    ensures ConvertByExample(Some(x), s, hash) == ConvertByExample(Some(y), s, hash)
  {
  }

  /**
   The hasher is consulted at the literal only: two hashers that agree on it
   give the same result, so the conversion is deterministic.
   */
  lemma HashIsOnlyAppliedToLiteral(example: Option<Value>, s: string, h1: string -> uint32, h2: string -> uint32)
    requires h1(s) == h2(s)
    ensures ConvertByExample(example, s, h1) == ConvertByExample(example, s, h2)
  {
  }

  /** An enum example reads a `0x` literal by name only, never as a number. */
  lemma EnumExampleIgnoresHex(e: EnumType, x: int, s: string, hash: string -> uint32)
    requires HasHexPrefix(s)
    ensures ConvertByExample(Some(EnumValue(e, x)), s, hash) == EnumByName(e, s)
  {
  }

  /**
   A `uint` example: a `0x` literal is parsed strictly as hexadecimal, a
   failure raised and the hasher never consulted; a decimal `uint` literal
   yields its value and is never hashed; any other literal yields its hash.
   */
  lemma UInt32ExampleRules(x: int, s: string, hash: string -> uint32)
    ensures HasHexPrefix(s) ==>
      ConvertByExample(Some(IntValue(UInt32, x)), s, hash) ==
        (match ParseHexUInt32(s[2..])
         case Success(n) => Success(IntValue(UInt32, n))
         case Failure(err) => Failure(err))
    ensures !HasHexPrefix(s) && TryParseUInt32(s) ==>
      ConvertByExample(Some(IntValue(UInt32, x)), s, hash) == Success(IntValue(UInt32, ParseInteger(s, UInt32).value))
    ensures !HasHexPrefix(s) && !TryParseUInt32(s) ==>
      ConvertByExample(Some(IntValue(UInt32, x)), s, hash) == Success(IntValue(UInt32, hash(s)))
  {
  }

  /** A `uint` example reads back every rendered `uint`, hexadecimal or decimal, and never hashes it. */
  lemma UInt32ExampleRoundTrip(x: int, v: uint32, hash: string -> uint32)
    ensures ConvertByExample(Some(IntValue(UInt32, x)), "0x" + HexString(v), hash) == Success(IntValue(UInt32, v))
    ensures ConvertByExample(Some(IntValue(UInt32, x)), DecimalString(v), hash) == Success(IntValue(UInt32, v))
  {
    HexLiteralReadsBack(v);
    ParseIntegerRoundTrip(v, UInt32);
  }

  /** For an `int` example a hexadecimal literal is its bit pattern read as signed. */
  lemma Int32ExampleHex(x: int, v: uint32, hash: string -> uint32)
    ensures ConvertByExample(Some(IntValue(Int32, x)), "0x" + HexString(v), hash) == Success(IntValue(Int32, ToSigned32(v)))
  {
    HexLiteralReadsBack(v);
  }

  /** The literal `"0xFFFFFFFF"` is the rendering of 2^32 - 1, whose signed reading is -1. */
  lemma AllOnesRendering()
    ensures "0x" + HexString(0xFFFF_FFFF) == "0xFFFFFFFF"
    ensures ToSigned32(0xFFFF_FFFF) == -1
  {
    assert HexString(0xF) == "F";
    assert HexString(0xFF) == "FF";
    assert HexString(0xFFF) == "FFF";
    assert HexString(0xFFFF) == "FFFF";
    assert HexString(0xFFFFF) == "FFFFF";
    assert HexString(0xFFFFFF) == "FFFFFF";
    assert HexString(0xFFFFFFF) == "FFFFFFF";
    assert HexString(0xFFFFFFFF) == "FFFFFFFF";
  }

  /** `"0xFFFFFFFF"` against an `int` example is -1. */
  lemma Int32ExampleAllOnes(x: int, hash: string -> uint32)
    ensures ConvertByExample(Some(IntValue(Int32, x)), "0xFFFFFFFF", hash) == Success(IntValue(Int32, -1))
  {
    AllOnesRendering();
    Int32ExampleHex(x, 0xFFFF_FFFF, hash);
  }

  /**
   An `int` example: a `0x` literal is the strict hexadecimal parse read as
   signed, with failures raised and no hashing; a literal that passes the
   `uint` gate is parsed as `int`; any other literal yields its hash read as
   signed.
   */
  lemma Int32ExampleRules(x: int, s: string, hash: string -> uint32)
    ensures HasHexPrefix(s) ==>
      ConvertByExample(Some(IntValue(Int32, x)), s, hash) ==
        (match ParseHexUInt32(s[2..])
         case Success(n) => Success(IntValue(Int32, ToSigned32(n)))
         case Failure(err) => Failure(err))
    ensures !HasHexPrefix(s) && TryParseUInt32(s) ==>
      ConvertByExample(Some(IntValue(Int32, x)), s, hash) ==
        (match ParseInteger(s, Int32)
         case Success(n) => Success(IntValue(Int32, n))
         case Failure(err) => Failure(err))
    ensures !HasHexPrefix(s) && !TryParseUInt32(s) ==>
      ConvertByExample(Some(IntValue(Int32, x)), s, hash) == Success(IntValue(Int32, ToSigned32(hash(s))))
  {
  }

  /**
   Every other example: an integer example of another width parses the
   literal as that integer type, an enum example uses `Enum.Parse`, and a
   string example yields the literal itself.
   */
  lemma OtherExampleRules(x: Value, s: string, hash: string -> uint32)
    ensures x.IntValue? && x.kind != UInt32 && x.kind != Int32 ==>
      ConvertByExample(Some(x), s, hash) == ChangeTypeFromString(s, x.kind)
    ensures x.EnumValue? ==> ConvertByExample(Some(x), s, hash) == EnumParse(x.enumType, s)
    ensures x.StringValue? ==> ConvertByExample(Some(x), s, hash) == Success(StringValue(s))
  {
  }

  /**
   An `int` example reads a decimal `uint` literal as `int`: the numbers below
   2^31 are read back, the others pass the `uint` gate and then overflow.
   */
  lemma Int32ExampleDecimal(x: int, v: uint32, hash: string -> uint32)
    ensures v < TWO_31 ==>
      ConvertByExample(Some(IntValue(Int32, x)), DecimalString(v), hash) == Success(IntValue(Int32, v))
    ensures v >= TWO_31 ==>
      ConvertByExample(Some(IntValue(Int32, x)), DecimalString(v), hash) == Failure(OverflowError)
  {
    ParseIntegerRoundTrip(v, UInt32);
    ParseIntegerRoundTrip(v, Int32);
  }

  /**
   An `int` example: the gate before hashing is the `uint` parse, so every
   negative decimal literal is hashed and the hash reinterpreted as signed.
   */
  lemma Int32ExampleHashesNegatives(x: int, v: nat, hash: string -> uint32)
    requires v > 0
    ensures var s := "-" + DecimalString(v);
      ConvertByExample(Some(IntValue(Int32, x)), s, hash) == Success(IntValue(Int32, ToSigned32(hash(s))))
  {
    ParseNegativeRoundTrip(v, UInt32);
  }

  /** `"-5"` is hashed against an `int` example. */
  lemma Int32ExampleMinusFive(x: int, hash: string -> uint32)
    ensures ConvertByExample(Some(IntValue(Int32, x)), "-5", hash) == Success(IntValue(Int32, ToSigned32(hash("-5"))))
  {
  }

  /** `"3000000000"` passes the `uint` gate and overflows an `int` example. */
  lemma Int32ExampleThreeBillion(x: int, hash: string -> uint32)
    ensures ConvertByExample(Some(IntValue(Int32, x)), "3000000000", hash) == Failure(OverflowError)
  {
    assert DecimalString(3000000000) == "3000000000";
    Int32ExampleDecimal(x, 3000000000, hash);
  }

  /** `"42"` against a `uint` example is 42, never the hash of `"42"`; `"Foo"` is its hash. */
  lemma UInt32ExampleExamples(x: int, hash: string -> uint32)
    ensures ConvertByExample(Some(IntValue(UInt32, x)), "42", hash) == Success(IntValue(UInt32, 42))
    ensures ConvertByExample(Some(IntValue(UInt32, x)), "Foo", hash) == Success(IntValue(UInt32, hash("Foo")))
  {
    assert DecValue("42") == 42;
    assert !IsDecDigit(("Foo")[0]);
  }
}
