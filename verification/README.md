# ValueConversionUtils: string-to-typed-value coercion, in Dafny

This project models `ValueConversionUtils` of YAMLDatabase's ModScript. That
class turns a literal read from a mod script into a typed VaultLib value.
It has two entry points.

- **The wrapper entry point** works on a `PrimitiveTypeBase` wrapper.
  It first finds the wrapper type's primitive type and remembers it in the
  static `_typeCache`:
  - an explicit `PrimitiveInfoAttribute` wins;
  - a `VLTEnumType<T>` resolves to `T`;
  - any other wrapper type raises `InvalidDataException`.

  It then converts the literal to that type. A `0x` literal whose rest is a
  valid `uint` is taken by number. Any other literal goes to `Enum.Parse` or
  to `Convert.ChangeType`.
- **The example-value entry point** infers the target from the runtime type
  of an example value:
  - with no example, the literal is returned as a string;
  - a `uint` or `int` example gets strict hexadecimal parsing, decimal
    parsing, or a fallback to `VLT32Hasher.Hash`;
  - an enum example gets `Enum.Parse`;
  - any other example gets an invariant-culture conversion.

Modules:

- `Numerals` (`numerals.dfy`): hexadecimal and decimal digit strings and
  their values. It also holds the renderings `ToString("X")` and
  `ToString()`, with round-trip lemmas, and the two's-complement
  reinterpretation `unchecked((int)u)`.
- `VaultTypes` (`vault_types.dfy`) holds the closed data model:
  - the integer primitives `Byte` … `Int64` with their ranges;
  - enum types with an underlying primitive and named members;
  - resolved primitive types `Prim`, and the converted `Value`;
  - wrapper types as reflection sees them
    (`WrapperType(id, attribute, enumArgument)`) and wrapper instances;
  - the error taxonomy `SchemaError | FormatError | OverflowError | EnumError`
    and a `Result` type.
- `LiteralParsing` (`literal_parsing.dfy`) models the .NET primitives the
  class calls:
  - `StartsWith("0x")`;
  - `uint.Parse`/`uint.TryParse` with `AllowHexSpecifier`, as a function and
    as the 32-bit accumulator loop `ScanHexUInt32`, proved equal;
  - integer parsing with `NumberStyles.Integer`;
  - the checked `Convert.ChangeType` of a `uint`;
  - `Enum.Parse`.
- `TypeResolver` (`type_resolver.dfy`): cold resolution, and resolution
  through the cache. The cache is a `map<TypeId, Prim>` passed in and
  returned.
- `ValueConversion` (`value_conversion.dfy`): the three `DoPrimitiveConversion`
  overloads, named `DoPrimitiveConversion`, `ConvertToType` and
  `ConvertByExample`, and the lemmas about them.

`VLT32Hasher.Hash` is the parameter `hash: string -> uint32`. Nothing about it
is assumed beyond being a function. `System.Type` identity is the string
`TypeId`.

Behaviour the code shows, which the model follows:

- **`Enum.Parse` of a numeral.** `Enum.Parse(type, val.ToString())` selects
  the enum value by number without checking that a member has that number.
  For the enum {A = 1, B = 2}, `"0x3"` yields the unnamed value 3, not an
  error (`ValueConversion.SmallEnumExamples`). A number the enum's
  underlying type cannot hold raises an overflow.
- **Overflow on the attribute path.** A numeric target can raise an overflow
  as well as a format error, because `Convert.ChangeType` is checked.
- **The cache is written before the literal is converted** (line 43 before
  line 44). A cold resolution is therefore cached even when the conversion
  then fails.
- **The `int` example's hash gate is the `uint` parse.** A negative decimal
  literal such as `"-5"` is therefore hashed, not parsed. A literal such as
  `"3000000000"` passes the gate and then overflows `int`.

## Model

| member | source | states |
|---|---|---|
| TypeResolver.ColdResolve | YAMLDatabase/ModScript/Utils/ValueConversionUtils.cs:25-40 | resolution succeeds exactly when the wrapper type has an attribute or is a `VLTEnumType<T>`; otherwise it is a schema error |
| TypeResolver.Resolve | YAMLDatabase/ModScript/Utils/ValueConversionUtils.cs:18-43 | the cache is append-only: existing entries are kept, only the wrapper's key can be added, a success leaves the resolved type cached under that key, and a failure leaves the cache unchanged |
| TypeResolver.CacheHitIgnoresMetadata | YAMLDatabase/ModScript/Utils/ValueConversionUtils.cs:18-22 | on a hit the cached type is returned, the cache is unchanged, and two wrapper types with the same identity but different metadata resolve identically |
| TypeResolver.ColdResolutionPrecedence | YAMLDatabase/ModScript/Utils/ValueConversionUtils.cs:25-40 | on a miss the attribute wins; only without one does `VLTEnumType<T>` give T; with neither it is a schema error and the cache is unchanged |
| TypeResolver.ResolveTwice | YAMLDatabase/ModScript/Utils/ValueConversionUtils.cs:42-44 | after a successful resolution the cache differs only at the wrapper's key, and resolving again returns the identical type and leaves the cache as it is |
| TypeResolver.CachingIsTransparent | YAMLDatabase/ModScript/Utils/ValueConversionUtils.cs:14-44 | from a cache filled by earlier resolutions, a resolution returns exactly the uncached result and keeps the cache coherent |
| LiteralParsing.ParseHexUInt32 | YAMLDatabase/ModScript/Utils/ValueConversionUtils.cs:52 | a well-formed hexadecimal string below 2^32 parses to its value; a format error is raised exactly for an empty or non-hexadecimal string; the only other failure is an overflow |
| LiteralParsing.ScanHexUInt32 | YAMLDatabase/ModScript/Utils/ValueConversionUtils.cs:52 | a left-to-right scan with a 32-bit accumulator and an overflow flag gives exactly the result of the hexadecimal parse |
| LiteralParsing.ParseHexRoundTrip | YAMLDatabase/ModScript/Utils/ValueConversionUtils.cs:52 | every `uint` rendered with `ToString("X")` parses back to itself |
| LiteralParsing.ParseInteger | YAMLDatabase/ModScript/Utils/ValueConversionUtils.cs:70-71 | an optional sign followed by digits whose value the target holds parses to that value; a format error is raised exactly when the literal is not of that form; the only other failure is an overflow |
| LiteralParsing.ParseIntegerRoundTrip | YAMLDatabase/ModScript/Utils/ValueConversionUtils.cs:54 | a rendered decimal numeral parses back to its number in every primitive that holds it, and overflows in every other |
| LiteralParsing.ParseNegativeRoundTrip | YAMLDatabase/ModScript/Utils/ValueConversionUtils.cs:99 | a negated rendered numeral parses back to the negative number |
| LiteralParsing.HexPrefixIsNotDecimal | YAMLDatabase/ModScript/Utils/ValueConversionUtils.cs:70-71 | no `0x` literal is an integer literal: the plain parse refuses it as a format error |
| LiteralParsing.ChangeTypeFromUInt32 | YAMLDatabase/ModScript/Utils/ValueConversionUtils.cs:66 | a `uint` converts exactly when the target holds it, keeping the number, and overflows otherwise; it never truncates |
| LiteralParsing.ChangeTypeFromString | YAMLDatabase/ModScript/Utils/ValueConversionUtils.cs:70-71 | the conversion succeeds exactly when the integer parse does, storing the parsed number in the requested primitive, and otherwise raises the parse's error |
| LiteralParsing.LookupMember | YAMLDatabase/ModScript/Utils/ValueConversionUtils.cs:58 | no number is found exactly when no member has the name, and a number found belongs to the first member of that name |
| LiteralParsing.EnumByName | YAMLDatabase/ModScript/Utils/ValueConversionUtils.cs:58 | the name lookup succeeds exactly when some member has exactly that name, and yields the number of a member with that name; otherwise it is an enum error |
| LiteralParsing.EnumParse | YAMLDatabase/ModScript/Utils/ValueConversionUtils.cs:58 | a parsed value belongs to the requested enum type; a failure is an enum error or an overflow |
| LiteralParsing.EnumParseByName | YAMLDatabase/ModScript/Utils/ValueConversionUtils.cs:58 | an empty literal is an enum error, and a literal not starting with a digit or sign is matched by member name only |
| LiteralParsing.HasHexPrefix | YAMLDatabase/ModScript/Utils/ValueConversionUtils.cs:51 | the ordinal `StartsWith("0x")` test of lines 51, 63, 90 and 97: at least two characters, a `0` then a lower-case `x` |
| LiteralParsing.TryParseHexUInt32 | YAMLDatabase/ModScript/Utils/ValueConversionUtils.cs:52 | the hexadecimal `TryParse` of lines 52 and 63-64 succeeds exactly when the hexadecimal parse does |
| LiteralParsing.TryParseUInt32 | YAMLDatabase/ModScript/Utils/ValueConversionUtils.cs:92 | the `uint.TryParse(str, out _)` gate of lines 92 and 99 succeeds exactly when the literal parses as a `uint` |
| LiteralParsing.ParseHexLeadingZero | YAMLDatabase/ModScript/Utils/ValueConversionUtils.cs:52 | a leading zero does not change what a hexadecimal literal parses to and `"0"` alone parses to 0 |
| LiteralParsing.EnumParseByNumber | YAMLDatabase/ModScript/Utils/ValueConversionUtils.cs:54 | parsing a number's decimal rendering selects the value with that number, named or not, or overflows when the underlying type cannot hold it |
| LiteralParsing.EnumParseHexPrefixIsByName | YAMLDatabase/ModScript/Utils/ValueConversionUtils.cs:103 | a `0x` literal given to `Enum.Parse` is only ever matched by name |
| Numerals.HexRoundTrip | YAMLDatabase/ModScript/Utils/ValueConversionUtils.cs:52 | the value of the hexadecimal rendering of v is v |
| Numerals.DecimalRoundTrip | YAMLDatabase/ModScript/Utils/ValueConversionUtils.cs:54 | the value of the decimal rendering `val.ToString()` of v is v |
| Numerals.HexString | YAMLDatabase/ModScript/Utils/ValueConversionUtils.cs:52 | the `ToString("X")` rendering is a non-empty hexadecimal digit string without leading zeros |
| Numerals.DecimalString | YAMLDatabase/ModScript/Utils/ValueConversionUtils.cs:54 | the `val.ToString()` rendering is a non-empty decimal digit string without leading zeros |
| Numerals.HexLeadingZero | YAMLDatabase/ModScript/Utils/ValueConversionUtils.cs:52 | a leading zero does not change the value of a hexadecimal digit string |
| Numerals.ToSigned32 | YAMLDatabase/ModScript/Utils/ValueConversionUtils.cs:100 | the result is an `int` congruent to the `uint` modulo 2^32, i.e. the same 32-bit pattern read as two's complement |
| ValueConversion.ConvertToType | YAMLDatabase/ModScript/Utils/ValueConversionUtils.cs:47-76 | on success the same wrapper is returned, holding a value of the target type; a failure is never a schema error |
| ValueConversion.IsHexLiteral | YAMLDatabase/ModScript/Utils/ValueConversionUtils.cs:51-52 | the condition of lines 51-52 and 63-64: a `0x` prefix whose rest is a valid hexadecimal `uint` |
| ValueConversion.HexLiteral | YAMLDatabase/ModScript/Utils/ValueConversionUtils.cs:51-67 | a `0x` literal whose rest is a valid `uint` in any spelling (either case, leading zeros) is taken by the number its digits denote: stored in an integer target that holds it, or selecting the enum value with that number, named or not; an overflow when the target or the enum's underlying type cannot hold it |
| ValueConversion.PlainLiteral | YAMLDatabase/ModScript/Utils/ValueConversionUtils.cs:56-72 | any literal that is not a hexadecimal `uint` literal is converted whole: by the target's integer parse, or by `Enum.Parse`, into the same wrapper |
| ValueConversion.DecimalLiteralToInteger | YAMLDatabase/ModScript/Utils/ValueConversionUtils.cs:68-72 | a rendered decimal numeral stores its number in every integer target that holds it and overflows in every other |
| ValueConversion.DoPrimitiveConversion | YAMLDatabase/ModScript/Utils/ValueConversionUtils.cs:16-45 | the cache is append-only and gains at most the wrapper's key; the result is a schema error exactly when the wrapper type cannot be resolved, and then the cache is unchanged; on success the returned wrapper holds a value of the type now cached for it |
| ValueConversion.ConvertByExample | YAMLDatabase/ModScript/Utils/ValueConversionUtils.cs:78-104 | no example yields the literal as a string; otherwise a result has the example's runtime type, and integers are within their type's range |
| ValueConversion.HexLiteralToInteger | YAMLDatabase/ModScript/Utils/ValueConversionUtils.cs:63-66 | `"0x" + hex(v)` stores exactly v in every integer target that holds it, `uint` included, and overflows in every narrower one |
| ValueConversion.HexLiteralToEnum | YAMLDatabase/ModScript/Utils/ValueConversionUtils.cs:49-54 | `"0x" + hex(v)` on an enum target stores the value numbered v, with no definedness check, or overflows the underlying type |
| ValueConversion.HexLiteralReadsBack | YAMLDatabase/ModScript/Utils/ValueConversionUtils.cs:51-52 | `"0x" + hex(v)` passes the hexadecimal test with value v |
| ValueConversion.HexPrefixFallsThrough | YAMLDatabase/ModScript/Utils/ValueConversionUtils.cs:51-71 | a `0x` literal with an invalid rest is passed whole to the plain parse, which gives a format error on integer targets and a name match or an enum error on enum targets |
| ValueConversion.BadHexLiterals | YAMLDatabase/ModScript/Utils/ValueConversionUtils.cs:63-71 | `"0x"` and `"0xZZ"` on an integer target are format errors from the plain parse |
| ValueConversion.SmallEnumExamples | YAMLDatabase/ModScript/Utils/ValueConversionUtils.cs:49-59 | for {A = 1, B = 2}: `"0x1"` gives A, `"0x3"` gives the unnamed value 3, `"A"` gives A, `"Z"` is an enum error |
| ValueConversion.ConversionUsesCachedType | YAMLDatabase/ModScript/Utils/ValueConversionUtils.cs:18-22 | with the wrapper type cached, conversion uses the cached type and leaves the cache unchanged |
| ValueConversion.ColdResolutionIsCachedFirst | YAMLDatabase/ModScript/Utils/ValueConversionUtils.cs:42-44 | after a cold resolution the cache holds the new entry whatever the outcome of the conversion that follows |
| ValueConversion.ExampleValueIsIgnored | YAMLDatabase/ModScript/Utils/ValueConversionUtils.cs:86-103 | only the example's runtime type decides the result, never the value it holds |
| ValueConversion.HashIsOnlyAppliedToLiteral | YAMLDatabase/ModScript/Utils/ValueConversionUtils.cs:92-100 | the result depends on the hasher only through its value at the literal, so it is deterministic |
| ValueConversion.EnumExampleIgnoresHex | YAMLDatabase/ModScript/Utils/ValueConversionUtils.cs:103 | an enum example matches a `0x` literal by member name only |
| ValueConversion.UInt32ExampleRules | YAMLDatabase/ModScript/Utils/ValueConversionUtils.cs:88-103 | for a `uint` example: a `0x` literal is the strict hexadecimal parse, with failures raised and no hashing; a decimal `uint` literal is its value; any other literal is its hash |
| ValueConversion.UInt32ExampleRoundTrip | YAMLDatabase/ModScript/Utils/ValueConversionUtils.cs:88-94 | every `uint` rendered in hexadecimal with `0x` or in decimal reads back as itself, never hashed |
| ValueConversion.UInt32ExampleExamples | YAMLDatabase/ModScript/Utils/ValueConversionUtils.cs:92-93 | `"42"` gives 42, not the hash of `"42"`; `"Foo"` gives its hash |
| ValueConversion.Int32ExampleHex | YAMLDatabase/ModScript/Utils/ValueConversionUtils.cs:97-98 | for an `int` example a hexadecimal literal is its bit pattern read as signed |
| ValueConversion.Int32ExampleRules | YAMLDatabase/ModScript/Utils/ValueConversionUtils.cs:95-103 | for an `int` example: a `0x` literal is the strict hexadecimal parse read as signed, with failures raised; a literal passing the `uint` gate is parsed as `int`; any other is its hash read as signed |
| ValueConversion.OtherExampleRules | YAMLDatabase/ModScript/Utils/ValueConversionUtils.cs:103 | another integer example parses the literal as its own type, an enum example uses `Enum.Parse`, and a string example yields the literal |
| ValueConversion.Int32ExampleAllOnes | YAMLDatabase/ModScript/Utils/ValueConversionUtils.cs:97-98 | `"0xFFFFFFFF"` gives -1 |
| ValueConversion.Int32ExampleDecimal | YAMLDatabase/ModScript/Utils/ValueConversionUtils.cs:99-103 | for an `int` example a decimal `uint` literal below 2^31 reads back as itself; larger ones overflow |
| ValueConversion.Int32ExampleHashesNegatives | YAMLDatabase/ModScript/Utils/ValueConversionUtils.cs:99-100 | for an `int` example every negative decimal literal fails the `uint` gate and yields its hash read as signed |
| ValueConversion.Int32ExampleMinusFive | YAMLDatabase/ModScript/Utils/ValueConversionUtils.cs:99-100 | `"-5"` gives the hash of `"-5"` read as signed |
| ValueConversion.Int32ExampleThreeBillion | YAMLDatabase/ModScript/Utils/ValueConversionUtils.cs:99-103 | `"3000000000"` passes the `uint` gate and then overflows `int` |

## Left out

- Reflection (`GetType`, `GetCustomAttribute`, `IsGenericType`, `GetGenericTypeDefinition`, `GetGenericArguments`) is replaced by the `WrapperType` descriptor. The model does not require that a type identity always comes with the same metadata; `TypeResolver.CachingIsTransparent` assumes it explicitly.
- `VLT32Hasher.Hash` is foreign code and enters as a parameter; its algorithm is not modelled.
- Conversion targets and example types other than the integer primitives, enums and strings are not modelled: float, double and decimal are floating or decimal numerics, and bool and char follow .NET-specific rules.
- Culture and number-style details are not modelled. These are whitespace, culture-specific signs and `uint.TryParse` in the current culture; parsing is ASCII and invariant-culture throughout. Culture-sensitive `StartsWith` is modelled as an ordinal prefix test.
- `Enum.Parse` extras are not modelled: whitespace trimming, comma-separated flag lists, and non-ASCII digits in the numeric test.
- The enum model does not check that member numbers fit the underlying type, as the C# compiler guarantees.
- A null literal string, which would raise `NullReferenceException` or `ArgumentNullException`, is not modelled.
- The static dictionary's lack of locking is not modelled; the model is single-threaded, and the cache is passed in and returned.
- The VaultLib object model (`VLTBaseType`, `PrimitiveTypeBase.SetValue`) becomes a `Wrapper` record whose `value` field is replaced.
- Exception classes collapse to the four errors of `ConversionError`.
