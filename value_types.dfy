/**
 * The value types shared by the classifier, the variant classes, the key and
 * the cache: the type tag, the 32-bit integer range, the symbolic double, the
 * date stamp, the classified variants and the accessor table every variant
 * class exposes.
 */
module ValueTypes {
  import opened Wrappers

  /** The tag returned by `ValueObjectType`, in declaration order. */
  datatype ValueObjectType = TypeEmpty | TypeInt | TypeDouble | TypeDate | TypeString

  const Int32Min: int := -0x8000_0000
  const Int32Max: int := 0x7FFF_FFFF

  /** C#'s `int`. */
  type Int32 = x: int | Int32Min <= x <= Int32Max

  /** C#'s unchecked narrowing `(int)` of a non-negative integer: keep the low 32 bits, read them signed. */
  function Wrap32(v: nat): (r: Int32)
    ensures (r - v) % 0x1_0000_0000 == 0
    ensures v <= Int32Max ==> r == v
  {
    var low := v % 0x1_0000_0000;
    if low <= Int32Max then low else low - 0x1_0000_0000
  }

  /**
   * A double, kept symbolic: either an integer widened to double, or the
   * classifier's `(sign, mantissa, decimal exponent)` triple, standing for
   * `(negative ? -1 : 1) * mantissa * 10^exp10`.
   */
  datatype DoubleVal = Widened(i: int) | Scaled(negative: bool, mantissa: nat, exp10: int)

  /** `DateTime`, kept as an opaque tick count; `MinValue` is tick 0. */
  datatype DateTime = DateTime(ticks: int)
  const DateMinValue: DateTime := DateTime(0)

  /** The exception a typed getter throws on a variant that does not hold that type. */
  datatype CastError = InvalidCast

  /**
   * The classified form of a value: the instance that `ValueObject` memoises.
   * `StringV(false)` is `ValueString.Instance`, `StringV(true)` is
   * `ValueString.InstanceOfDayChecked`, `DateV` a `ValueDateTime`.
   */
  datatype Variant =
    | EmptyV
    | IntegerV(i: Int32)
    | DoubleV(d: DoubleVal)
    | StringV(dayChecked: bool)
    | DateV(date: DateTime)

  /** The properties every value class exposes, as one record. */
  datatype Row = Row(
    kind: ValueObjectType,
    isEmpty: bool,
    isInteger: bool,
    isDouble: bool,
    isString: bool,
    isDate: bool,
    isNumber: bool,
    integerValue: Result<Int32, CastError>,
    doubleValue: Result<DoubleVal, CastError>,
    dateValue: Result<DateTime, CastError>,
    integerValueOrNull: Option<Int32>,
    doubleValueOrNull: Option<DoubleVal>,
    dateValueOrNull: Option<DateTime>)

  /** A nullable accessor never disagrees with its throwing getter. */
  ghost predicate OrNullAgrees(r: Row)
  {
    && (r.integerValueOrNull.Some? ==> r.integerValue == Success(r.integerValueOrNull.value))
    && (r.doubleValueOrNull.Some? ==> r.doubleValue == Success(r.doubleValueOrNull.value))
    && (r.dateValueOrNull.Some? ==> r.dateValue == Success(r.dateValueOrNull.value))
  }

  /** A getter throws only where its nullable twin is null. */
  ghost predicate ThrowsOnlyWhenNull(r: Row)
  {
    && (r.integerValue.Failure? ==> r.integerValueOrNull.None?)
    && (r.doubleValue.Failure? ==> r.doubleValueOrNull.None?)
    && (r.dateValue.Failure? ==> r.dateValueOrNull.None?)
  }
}
