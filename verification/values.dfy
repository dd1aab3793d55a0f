/**
 * The runtime values a closed sub-expression of a predicate can evaluate to
 * (the boxed `object` that WhereVisitor's EvaluateExpression returns).
 */
module Values {

  /** System.Int32. */
  newtype Int32 = x: int | -0x8000_0000 <= x < 0x8000_0000

  /** Int32.MinValue and Int32.MaxValue, the sentinels of open integer ranges. */
  const Int32Min: Int32 := -0x8000_0000
  const Int32Max: Int32 := 0x7fff_ffff

  /** System.DateTime, as its tick count (DateTime.MinValue has 0 ticks, DateTime.MaxValue 3155378975999999999). */
  newtype Ticks = t: int | 0 <= t <= 3155378975999999999

  const DateTimeMin: Ticks := 0
  const DateTimeMax: Ticks := 3155378975999999999

  /** A System.Double, carried as its bit pattern: the compiler never computes with it. */
  datatype DoubleBits = DoubleBits(bits: bv64)

  /** A System.Type handle; the compiler only passes it to the naming functions of its context. */
  datatype TypeHandle = TypeHandle(id: nat)

  /** System.StringComparison. */
  datatype StringComparison =
    | CurrentCulture
    | CurrentCultureIgnoreCase
    | InvariantCulture
    | InvariantCultureIgnoreCase
    | Ordinal
    | OrdinalIgnoreCase

  /** A boxed enumeration member: a StringComparison, or a member of some other enum type. */
  datatype EnumMember =
    | Comparison(mode: StringComparison)
    | UserEnumMember(enumType: TypeHandle, name: string)

  /** A boxed runtime value. `OtherObject` is any value of a type the compiler does not recognise (long, decimal, Guid, ...). */
  datatype Value =
    | Null
    | Str(s: string)
    | Int(i: Int32)
    | Double(d: DoubleBits)
    | Bool(b: bool)
    | DateTime(ticks: Ticks)
    | Enum(member: EnumMember)
    | Type(handle: TypeHandle)
    | OtherObject(runtimeType: TypeHandle)
}
