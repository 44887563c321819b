/**
 The closed world of types the converter works with: the integer primitives
 a conversion can target, enum types, the resolved primitive type of a
 wrapper, the values a conversion produces, the wrapper types with the
 metadata the resolver inspects, and the error taxonomy.
 */
module VaultTypes {

  /** A type handle; stands for `System.Type` identity (the type's full name). */
  type TypeId = string

  /** The integer primitives of .NET a literal can be converted to. */
  datatype IntKind = Byte | SByte | UInt16 | Int16 | UInt32 | Int32 | UInt64 | Int64 {

    function Min(): int {
      match this
      case Byte => 0
      case SByte => -0x80
      case UInt16 => 0
      case Int16 => -0x8000
      case UInt32 => 0
      case Int32 => -0x8000_0000
      case UInt64 => 0
      case Int64 => -0x8000_0000_0000_0000
    }

    function Max(): int {
      match this
      case Byte => 0xFF
      case SByte => 0x7F
      case UInt16 => 0xFFFF
      case Int16 => 0x7FFF
      case UInt32 => 0xFFFF_FFFF
      case Int32 => 0x7FFF_FFFF
      case UInt64 => 0xFFFF_FFFF_FFFF_FFFF
      case Int64 => 0x7FFF_FFFF_FFFF_FFFF
    }

    /** n is a value of this primitive: a checked conversion to it does not overflow. */
    predicate InRange(n: int) {
      Min() <= n <= Max()
    }
  }

  datatype EnumMember = EnumMember(name: string, number: int)

  /** A .NET enum type: its identity, its underlying integer type and its named members. */
  datatype EnumType = EnumType(id: TypeId, underlying: IntKind, members: seq<EnumMember>)

  /** The primitive type a wrapper converts literals to. */
  datatype Prim = IntPrim(kind: IntKind) | EnumPrim(enumType: EnumType)

  /**
   A converted value: a boxed integer primitive, a boxed enum value (any number
   of the underlying type, named or not) or a string.
   */
  datatype Value =
    | IntValue(kind: IntKind, n: int)
    | EnumValue(enumType: EnumType, n: int)
    | StringValue(s: string)

  datatype Option<+T> = None | Some(value: T)

  /**
   A wrapper type (a subclass of `PrimitiveTypeBase`) as seen through
   reflection: its identity, its `PrimitiveInfoAttribute` if it carries one,
   and, when it is a constructed `VLTEnumType<T>`, the enum type T.
   */
  datatype WrapperType = WrapperType(id: TypeId, attribute: Option<Prim>, enumArgument: Option<EnumType>)

  /** A wrapper instance: its runtime type and the value it currently holds. */
  datatype Wrapper = Wrapper(wrapperType: WrapperType, value: Value)

  /**
   The exceptions a conversion can raise: `InvalidDataException` (no primitive
   type can be determined), `FormatException`, `OverflowException`, and the
   `ArgumentException` of `Enum.Parse` for an unknown name.
   */
  datatype ConversionError = SchemaError | FormatError | OverflowError | EnumError

  /** Either a value or the exception that ended the conversion. */
  datatype Result<+T> = Success(value: T) | Failure(error: ConversionError) {

    predicate IsFailure() {
      Failure?
    }

    function PropagateFailure<U>(): Result<U>
      requires Failure?
    {
      Failure(error)
    }

    function Extract(): T
      requires Success?
    {
      value
    }
  }
}
