/** `ValueEmpty`: the one shared instance standing for an empty field, and its fixed accessor table. */
module ValueEmpty {
  import opened Wrappers
  import opened ValueTypes

  /** `ValueEmpty.Empty`: the instance the static constructor creates once. */
  const Empty: Variant := EmptyV

  /** The properties of `ValueEmpty`: every predicate true, getters that never throw, nullable getters all null. */
  function Table(): Row
  {
    Row(TypeEmpty,
        true, true, true, true, true, true,
        Success(0), Success(Widened(0)), Success(DateMinValue),
        None, None, None)
  }

  /** `ValueEmpty.StringValue`. */
  function StringValue(): string { "" }

  /**
   * The empty value answers every type question with yes, yet hands out no
   * nullable value: its getters fall back to 0, 0 and `DateTime.MinValue`.
   */
  lemma TableFacts()
    ensures Empty.EmptyV?
    ensures var r := Table();
      && r.kind == TypeEmpty
      && r.isEmpty && r.isInteger && r.isDouble && r.isString && r.isDate && r.isNumber
      && r.integerValue == Success(0) && r.doubleValue == Success(Widened(0))
      && r.dateValue == Success(DateMinValue)
      && r.integerValueOrNull.None? && r.doubleValueOrNull.None? && r.dateValueOrNull.None?
    ensures StringValue() == ""
    ensures ThrowsOnlyWhenNull(Table()) && OrNullAgrees(Table())
  {
  }
}
