/** `ValueDouble`: a readonly double payload and its fixed accessor table. */
module ValueDouble {
  import opened Wrappers
  import opened ValueTypes

  /** The properties of a `ValueDouble` holding `payload`. */
  function Table(payload: DoubleVal): Row
  {
    Row(TypeDouble,
        false, false, true, true, false, true,
        Failure(InvalidCast), Success(payload), Failure(InvalidCast),
        None, Some(payload), None)
  }

  /**
   * A double is a double and a number but not an integer; the integer and
   * date getters throw, their nullable twins are null, and both double
   * getters give the payload back unchanged.
   */
  lemma TableFacts(payload: DoubleVal)
    ensures var r := Table(payload);
      && r.kind == TypeDouble
      && r.isDouble && r.isString && r.isNumber
      && !r.isInteger && !r.isEmpty && !r.isDate
      && r.integerValue == Failure(InvalidCast) && r.dateValue == Failure(InvalidCast)
      && r.integerValueOrNull.None? && r.dateValueOrNull.None?
      && r.doubleValue == Success(payload) && r.doubleValueOrNull == Some(payload)
    ensures ThrowsOnlyWhenNull(Table(payload)) && OrNullAgrees(Table(payload))
  {
  }
}
