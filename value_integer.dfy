/**
 * `ValueInteger`: a readonly 32-bit payload, its fixed accessor table and its
 * decimal rendering, which the classifier reads back as the same integer.
 */
module ValueInteger {
  import opened Wrappers
  import opened ValueTypes
  import opened NumberScan

  /** The properties of a `ValueInteger` holding `value`. */
  function Table(value: Int32): Row
  {
    Row(TypeInt,
        false, true, true, true, false, true,
        Success(value), Success(Widened(value)), Failure(InvalidCast),
        Some(value), Some(Widened(value)), None)
  }

  /**
   * An integer is also a double, a string and a number; both integer getters
   * give the stored value, both double getters give it widened, and only the
   * date getter throws.
   */
  lemma TableFacts(value: Int32)
    ensures var r := Table(value);
      && r.kind == TypeInt
      && r.isInteger && r.isDouble && r.isString && r.isNumber
      && !r.isEmpty && !r.isDate
      && r.integerValue == Success(value) && r.integerValueOrNull == Some(value)
      && r.doubleValue == Success(Widened(value)) && r.doubleValueOrNull == Some(Widened(value))
      && r.dateValue == Failure(InvalidCast) && r.dateValueOrNull.None?
    ensures ThrowsOnlyWhenNull(Table(value)) && OrNullAgrees(Table(value))
  {
  }

  function DigitChar(d: nat): (c: char)
    requires d < 10
    ensures IsDigit(c) && DigitOf(c) == d
  {
    ('0' as int + d) as char
  }

  /** Decimal digits of `n`, most significant first, no leading zero. */
  function NatDigits(n: nat): (t: string)
    ensures |t| > 0 && AllDigits(t)
    decreases n
  {
    if n < 10 then [DigitChar(n)] else NatDigits(n / 10) + [DigitChar(n % 10)]
  }

  /** `ValueInteger.StringValue`: `int.ToString()` with the invariant culture's `-`. */
  function StringValue(value: Int32): string
  {
    if value < 0 then "-" + NatDigits(-(value as int)) else NatDigits(value)
  }

  lemma {:induction false} AccumulateAppend(a: nat, t: string, c: char)
    requires AllDigits(t) && IsDigit(c)
    ensures AllDigits(t + [c])
    ensures Accumulate(a, t + [c]) == Accumulate(a, t) * 10 + DigitOf(c)
    decreases |t|
  {
    assert AllDigits(t + [c]);
    if |t| > 0 {
      assert (t + [c])[1..] == t[1..] + [c];
      AccumulateAppend(a * 10 + DigitOf(t[0]), t[1..], c);
    }
  }

  lemma {:induction false} NatDigitsValue(n: nat)
    ensures DigitsValue(NatDigits(n)) == n
    decreases n
  {
    if n < 10 {
      assert Accumulate(0, NatDigits(n)) == Accumulate(n, NatDigits(n)[1..]);
    } else {
      NatDigitsValue(n / 10);
      AccumulateAppend(0, NatDigits(n / 10), DigitChar(n % 10));
    }
  }

  /** Round trip: the rendering of every 32-bit integer classifies back as that integer. */
  lemma StringValueRoundTrip(value: Int32, strobj: Variant)
    requires !strobj.IntegerV?
    ensures Classified(StringValue(value), strobj) == IntegerV(value)
  {
    var s := StringValue(value);
    var n: nat := if value < 0 then -(value as int) else value;
    NatDigitsValue(n);
    assert Unsigned(s) == NatDigits(n);
    assert IsIntegerText(s);
    IntegerClassification(s, strobj);
  }
}
