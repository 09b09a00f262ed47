/**
 * The hand-written numeric scanner of `ValueObject` (`GetValue`,
 * `ConvertNumber`, `CalcExponentConvert`) as specification functions over the
 * value's text, with an independent definition of "integer text" and the
 * lemmas that connect the two.
 */
module NumberScan {
  import opened ValueTypes

  /** `ulong.MaxValue / 10`: a digit is accepted only while the accumulator is below it. */
  const ULongMaxDiv10: nat := 1844674407370955161
  /** `long.MaxValue`, the bound of the unsigned integer path. */
  const LongMax: nat := 0x7FFF_FFFF_FFFF_FFFF
  /** `(uint)int.MaxValue + 1`, the bound of the negative integer path. */
  const NegativeBound: nat := 0x8000_0000
  /** Exponent magnitude limit of `CalcExponentConvert` and range limit of `exp_v`. */
  const ExponentLimit: int := 308

  predicate IsDigit(c: char) { '0' <= c <= '9' }

  function DigitOf(c: char): (d: nat)
    requires IsDigit(c)
    ensures d < 10
  {
    c as int - '0' as int
  }

  /** The scanner's mantissa state: accumulator `v`, fraction digit count `digit` (-1 before any `.`), `ld_zero`. */
  datatype Mantissa = Mantissa(v: nat, digit: int, ldZero: bool)

  const MantissaStart: Mantissa := Mantissa(0, -1, false)

  /** How the mantissa loop ended: fell back to String, or stopped at index `at` (on `e`/`E` when `useExp`). */
  datatype MantissaScan = Abort | Stopped(m: Mantissa, at: nat, useExp: bool)

  /** The mantissa loop of `ConvertNumber`, from index `i` of `s`. */
  function ScanMantissa(s: string, i: nat, m: Mantissa): (r: MantissaScan)
    requires i <= |s|
    ensures r.Stopped? ==> i <= r.at <= |s| && (r.useExp <==> r.at < |s|)
    ensures r.Stopped? && r.useExp ==> s[r.at] == 'e' || s[r.at] == 'E'
    decreases |s| - i
  {
    if i == |s| then Stopped(m, i, false)
    else if IsDigit(s[i]) then
      if m.v < ULongMaxDiv10 then
        var next := if m.digit >= 0 then m.(v := m.v * 10 + DigitOf(s[i]), digit := m.digit + 1)
                    else m.(v := m.v * 10 + DigitOf(s[i]), ldZero := true);
        ScanMantissa(s, i + 1, next)
      else Abort
    else if s[i] == '.' then
      if m.ldZero && m.digit < 0 then ScanMantissa(s, i + 1, m.(digit := 0)) else Abort
    else if s[i] == 'e' || s[i] == 'E' then Stopped(m, i, true)
    else Abort
  }

  /** `ExpoResult`: whether the exponent was well formed, and its value. */
  datatype ExpoResult = ExpoResult(enable: bool, value: int)

  /** The digit loop of `CalcExponentConvert`, from index `i`, with the magnitude so far. */
  function ExponentDigits(s: string, i: nat, value: nat): (r: ExpoResult)
    requires i <= |s|
    decreases |s| - i
  {
    if i == |s| then ExpoResult(true, value)
    else if IsDigit(s[i]) then
      var next := value * 10 + DigitOf(s[i]);
      if next >= ExponentLimit then ExpoResult(false, next) else ExponentDigits(s, i + 1, next)
    else ExpoResult(false, value)
  }

  /** `CalcExponentConvert` over `s[start..]`: a sign is consumed only when something follows it. */
  function Exponent(s: string, start: nat): (r: ExpoResult)
    requires start <= |s|
  {
    var negative := start < |s| - 1 && s[start] == '-';
    var first := if start < |s| - 1 && (s[start] == '+' || s[start] == '-') then start + 1 else start;
    var digits := ExponentDigits(s, first, 0);
    if digits.enable && negative then ExpoResult(true, -digits.value) else digits
  }

  /** `ConvertNumber` over `s[start..]`, with the sign already stripped. */
  function Converted(s: string, start: nat, negative: bool, strobj: Variant): Variant
    requires start <= |s|
  {
    if start == |s| then EmptyV
    else match ScanMantissa(s, start, MantissaStart)
      case Abort => strobj
      case Stopped(m, at, useExp) =>
        var frac := if m.digit > 0 then m.digit else 0;
        var withExp := at < |s| - 1 && useExp;
        var expo := if withExp then Exponent(s, at + 1) else ExpoResult(false, 0);
        if withExp && expo.enable && (expo.value - frac < -ExponentLimit || expo.value - frac > ExponentLimit) then
          strobj
        else
          var expV := if !withExp then -frac else if expo.enable then expo.value - frac else -1;
          if m.digit < 0 && !useExp then
            if negative then (if m.v <= NegativeBound then IntegerV(-(m.v as int)) else strobj)
            else (if m.v <= LongMax then IntegerV(Wrap32(m.v)) else strobj)
          else DoubleV(Scaled(negative, m.v, expV))
  }

  /** `GetValue`: strip one leading `+` or `-`, then convert. */
  function Classified(chars: string, strobj: Variant): Variant
  {
    if |chars| > 0 && chars[0] == '+' then Converted(chars, 1, false, strobj)
    else if |chars| > 0 && chars[0] == '-' then Converted(chars, 1, true, strobj)
    else Converted(chars, 0, false, strobj)
  }

  // ---------------------------------------------------------------------
  // Reference definition of integer text
  // ---------------------------------------------------------------------

  predicate AllDigits(t: string) { forall k :: 0 <= k < |t| ==> IsDigit(t[k]) }

  /** Decimal value of digits `t` appended to accumulator `a` (the scanner's left fold). */
  function Accumulate(a: nat, t: string): nat
    requires AllDigits(t)
    decreases |t|
  {
    if |t| == 0 then a else Accumulate(a * 10 + DigitOf(t[0]), t[1..])
  }

  function DigitsValue(t: string): nat
    requires AllDigits(t)
  {
    Accumulate(0, t)
  }

  /** The text after an optional leading sign, and whether the sign was `-`. */
  function Unsigned(s: string): string
  {
    if |s| > 0 && (s[0] == '+' || s[0] == '-') then s[1..] else s
  }

  predicate IsNegative(s: string) { |s| > 0 && s[0] == '-' }

  /** Integer text: an optional sign, at least one digit, nothing else, and a magnitude the sign's path admits. */
  predicate IsIntegerText(s: string)
  {
    var t := Unsigned(s);
    && |t| > 0 && AllDigits(t)
    && (if IsNegative(s) then DigitsValue(t) <= NegativeBound else DigitsValue(t) <= LongMax)
  }

  /** The integer an integer text denotes: negated, or narrowed to 32 bits without a check. */
  function IntegerTextValue(s: string): Int32
    requires IsIntegerText(s)
  {
    var t := Unsigned(s);
    if IsNegative(s) then -(DigitsValue(t) as int) else Wrap32(DigitsValue(t))
  }

  /** Scanning only digits from accumulator `a` never overflows as long as the prefixes stay below the bound. */
  predicate NoOverflow(a: nat, t: string)
    requires AllDigits(t)
    decreases |t|
  {
    |t| == 0 || (a < ULongMaxDiv10 && NoOverflow(a * 10 + DigitOf(t[0]), t[1..]))
  }

  lemma {:induction false} AccumulateGrows(a: nat, t: string)
    requires AllDigits(t)
    ensures Accumulate(a, t) >= a
    ensures |t| > 0 ==> Accumulate(a, t) >= a * 10
    decreases |t|
  {
    if |t| > 0 {
      AccumulateGrows(a * 10 + DigitOf(t[0]), t[1..]);
    }
  }

  /** A final value within `long.MaxValue` means no prefix ever reached the overflow guard. */
  lemma {:induction false} SmallValueNoOverflow(a: nat, t: string)
    requires AllDigits(t) && Accumulate(a, t) <= LongMax
    ensures NoOverflow(a, t)
    decreases |t|
  {
    if |t| > 0 {
      AccumulateGrows(a * 10 + DigitOf(t[0]), t[1..]);
      SmallValueNoOverflow(a * 10 + DigitOf(t[0]), t[1..]);
    }
  }

  /**
   * Before any `.`, the mantissa loop runs to the end of the text without
   * meeting `.` or an exponent exactly when the rest is digits that never hit
   * the overflow guard; it then holds their value.
   */
  lemma {:induction false} ScanDigits(s: string, i: nat, m: Mantissa)
    requires i <= |s| && m.digit < 0
    ensures var r := ScanMantissa(s, i, m);
      (r.Stopped? && !r.useExp && r.m.digit < 0) <==> (AllDigits(s[i..]) && NoOverflow(m.v, s[i..]))
    ensures var r := ScanMantissa(s, i, m);
      r.Stopped? && !r.useExp && r.m.digit < 0 ==>
        r.at == |s| && r.m.v == Accumulate(m.v, s[i..])
    decreases |s| - i
  {
    var t := s[i..];
    if i < |s| {
      assert t[0] == s[i] && t[1..] == s[i + 1..];
      if IsDigit(s[i]) && m.v < ULongMaxDiv10 {
        var next := m.(v := m.v * 10 + DigitOf(s[i]), ldZero := true);
        ScanDigits(s, i + 1, next);
        if AllDigits(s[i + 1..]) {
          assert AllDigits(t);
        }
      } else if s[i] == '.' && m.ldZero {
        var r := ScanMantissa(s, i + 1, m.(digit := 0));
        ScanKeepsFraction(s, i + 1, m.(digit := 0));
        assert !AllDigits(t);
      } else {
        assert !AllDigits(t) || !NoOverflow(m.v, t);
      }
    }
  }

  /** Once a `.` has been read the fraction count never goes back below 0. */
  lemma {:induction false} ScanKeepsFraction(s: string, i: nat, m: Mantissa)
    requires i <= |s| && m.digit >= 0
    ensures var r := ScanMantissa(s, i, m); r.Stopped? ==> r.m.digit >= 0
    decreases |s| - i
  {
    if i < |s| && IsDigit(s[i]) && m.v < ULongMaxDiv10 {
      ScanKeepsFraction(s, i + 1, m.(v := m.v * 10 + DigitOf(s[i]), digit := m.digit + 1));
    } else if i < |s| && s[i] == '.' && m.ldZero && m.digit < 0 {
    }
  }

  /**
   * The integer path of `GetValue`: a value classifies as an integer exactly
   * when it is integer text, and then holds the value that text denotes.
   */
  lemma IntegerClassification(s: string, strobj: Variant)
    requires !strobj.IntegerV?
    ensures Classified(s, strobj).IntegerV? <==> IsIntegerText(s)
    ensures IsIntegerText(s) ==> Classified(s, strobj) == IntegerV(IntegerTextValue(s))
  {
    var start := if |s| > 0 && (s[0] == '+' || s[0] == '-') then 1 else 0;
    var t := Unsigned(s);
    assert t == s[start..];
    if start < |s| {
      ScanDigits(s, start, MantissaStart);
      if AllDigits(t) && (DigitsValue(t) <= LongMax) {
        SmallValueNoOverflow(0, t);
      }
    }
  }

  // ---------------------------------------------------------------------
  // Exponent text
  // ---------------------------------------------------------------------

  /** The exponent digits after an optional sign; the sign counts only when something follows it. */
  function ExponentBody(t: string): string
  {
    if |t| > 1 && (t[0] == '+' || t[0] == '-') then t[1..] else t
  }

  /** A well-formed exponent: an optional sign, then at least one digit, with a magnitude below 308. */
  predicate WellFormedExponent(t: string)
  {
    var d := ExponentBody(t);
    |d| > 0 && AllDigits(d) && DigitsValue(d) < ExponentLimit
  }

  /** The signed value a well-formed exponent denotes. */
  function ExponentValue(t: string): int
    requires WellFormedExponent(t)
  {
    var d := DigitsValue(ExponentBody(t));
    if |t| > 1 && t[0] == '-' then -(d as int) else d
  }

  /** The exponent digit loop succeeds exactly on digits whose value stays below 308, and yields that value. */
  lemma {:induction false} ExponentDigitsMeaning(s: string, i: nat, value: nat)
    requires i <= |s| && value < ExponentLimit
    ensures ExponentDigits(s, i, value).enable <==> AllDigits(s[i..]) && Accumulate(value, s[i..]) < ExponentLimit
    ensures ExponentDigits(s, i, value).enable ==> ExponentDigits(s, i, value).value == Accumulate(value, s[i..])
    decreases |s| - i
  {
    var t := s[i..];
    if i < |s| {
      assert t[0] == s[i] && t[1..] == s[i + 1..];
      if IsDigit(s[i]) {
        var next := value * 10 + DigitOf(s[i]);
        if next >= ExponentLimit {
          if AllDigits(t) {
            AccumulateGrows(next, t[1..]);
          }
        } else {
          ExponentDigitsMeaning(s, i + 1, next);
          if AllDigits(s[i + 1..]) {
            assert AllDigits(t);
          }
        }
      }
    }
  }

  /** `CalcExponentConvert` succeeds exactly on a well-formed exponent, and then yields its signed value. */
  lemma ExponentMeaning(s: string, start: nat)
    requires start < |s|
    ensures Exponent(s, start).enable <==> WellFormedExponent(s[start..])
    ensures Exponent(s, start).enable ==> Exponent(s, start).value == ExponentValue(s[start..])
  {
    var t := s[start..];
    var first := if start < |s| - 1 && (s[start] == '+' || s[start] == '-') then start + 1 else start;
    assert ExponentBody(t) == s[first..];
    ExponentDigitsMeaning(s, first, 0);
  }

  /**
   * As written: when the mantissa stops at `e`/`E` with text after it that is
   * not a well-formed exponent, the value is still a Double, scaled by 10^-1.
   */
  lemma MalformedExponentScalesByTenth(s: string, start: nat, negative: bool, strobj: Variant)
    requires start < |s|
    requires ScanMantissa(s, start, MantissaStart).Stopped?
    requires var r := ScanMantissa(s, start, MantissaStart);
      r.useExp && r.at < |s| - 1 && !WellFormedExponent(s[r.at + 1..])
    ensures var r := ScanMantissa(s, start, MantissaStart);
      Converted(s, start, negative, strobj) == DoubleV(Scaled(negative, r.m.v, -1))
  {
    var r := ScanMantissa(s, start, MantissaStart);
    ExponentMeaning(s, r.at + 1);
  }

  /**
   * `ConvertNumber` with the exponent check it evidently intends: text after
   * `e`/`E` that is not a well-formed exponent falls back to String instead
   * of scaling the mantissa by 10^-1. A marker that ends the text keeps its
   * as-written reading, scaled by the fraction digits only.
   */
  function ConvertedStrict(s: string, start: nat, negative: bool, strobj: Variant): Variant
    requires start <= |s|
  {
    if start == |s| then EmptyV
    else match ScanMantissa(s, start, MantissaStart)
      case Abort => strobj
      case Stopped(m, at, useExp) =>
        var frac := if m.digit > 0 then m.digit else 0;
        if useExp then StrictExponent(s, at, negative, strobj, m)
        else if m.digit < 0 then
          if negative then (if m.v <= NegativeBound then IntegerV(-(m.v as int)) else strobj)
          else (if m.v <= LongMax then IntegerV(Wrap32(m.v)) else strobj)
        else DoubleV(Scaled(negative, m.v, -frac))
  }

  /** The checked treatment of a mantissa `m` that stopped at the exponent marker `s[at]`. */
  function StrictExponent(s: string, at: nat, negative: bool, strobj: Variant, m: Mantissa): Variant
  {
    var frac := if m.digit > 0 then m.digit else 0;
    if at < |s| - 1 then
      var expo := Exponent(s, at + 1);
      if !expo.enable || expo.value - frac < -ExponentLimit || expo.value - frac > ExponentLimit then strobj
      else DoubleV(Scaled(negative, m.v, expo.value - frac))
    else DoubleV(Scaled(negative, m.v, -frac))
  }

  /**
   * The checked exponent case: with text after the marker, a Double exactly
   * for a well-formed exponent in range, carrying it; a marker that ends the
   * text scales by the fraction digits only.
   */
  lemma StrictExponentCase(s: string, at: nat, negative: bool, strobj: Variant, m: Mantissa)
    requires at < |s| && !strobj.DoubleV?
    ensures var frac := if m.digit > 0 then m.digit else 0;
      at < |s| - 1 ==>
        (StrictExponent(s, at, negative, strobj, m).DoubleV? <==>
           WellFormedExponent(s[at + 1..]) && -ExponentLimit <= ExponentValue(s[at + 1..]) - frac <= ExponentLimit)
    ensures var frac := if m.digit > 0 then m.digit else 0;
      at < |s| - 1 && StrictExponent(s, at, negative, strobj, m).DoubleV? ==>
        StrictExponent(s, at, negative, strobj, m) == DoubleV(Scaled(negative, m.v, ExponentValue(s[at + 1..]) - frac))
    ensures var frac := if m.digit > 0 then m.digit else 0;
      at == |s| - 1 ==> StrictExponent(s, at, negative, strobj, m) == DoubleV(Scaled(negative, m.v, -frac))
  {
    if at < |s| - 1 {
      ExponentMeaning(s, at + 1);
    }
  }

  /**
   * With the check in place, a mantissa that stops at `e`/`E` with text after
   * it yields a Double exactly when a well-formed exponent follows and the
   * combined exponent is within [-308, 308]; the Double then carries exactly
   * that exponent. A marker that ends the text reads as written.
   */
  lemma StrictExponentMeaning(s: string, start: nat, negative: bool, strobj: Variant, m: Mantissa, at: nat)
    requires start < |s| && !strobj.DoubleV?
    requires ScanMantissa(s, start, MantissaStart) == Stopped(m, at, true)
    ensures var frac := if m.digit > 0 then m.digit else 0;
      at < |s| - 1 ==>
        (ConvertedStrict(s, start, negative, strobj).DoubleV? <==>
           WellFormedExponent(s[at + 1..]) && -ExponentLimit <= ExponentValue(s[at + 1..]) - frac <= ExponentLimit)
    ensures var frac := if m.digit > 0 then m.digit else 0;
      at < |s| - 1 && ConvertedStrict(s, start, negative, strobj).DoubleV? ==>
        ConvertedStrict(s, start, negative, strobj) == DoubleV(Scaled(negative, m.v, ExponentValue(s[at + 1..]) - frac))
    ensures at == |s| - 1 ==> ConvertedStrict(s, start, negative, strobj) == Converted(s, start, negative, strobj)
  {
    assert ConvertedStrict(s, start, negative, strobj) == StrictExponent(s, at, negative, strobj, m);
    StrictExponentCase(s, at, negative, strobj, m);
  }

  /** Without an exponent marker the strict and the as-written conversions agree. */
  lemma StrictAgreesWithoutExponent(s: string, start: nat, negative: bool, strobj: Variant)
    requires start <= |s|
    requires start == |s| || !ScanMantissa(s, start, MantissaStart).Stopped? || !ScanMantissa(s, start, MantissaStart).useExp
    ensures ConvertedStrict(s, start, negative, strobj) == Converted(s, start, negative, strobj)
  {
  }

  /**
   * The two conversions differ only on malformed exponent text: after a
   * marker that ends the text or is followed by a well-formed exponent, the
   * as-written conversion is the checked one, whose meaning
   * `StrictExponentMeaning` states.
   */
  lemma AgreesOnWellFormedExponent(s: string, start: nat, negative: bool, strobj: Variant, m: Mantissa, at: nat)
    requires start < |s|
    requires ScanMantissa(s, start, MantissaStart) == Stopped(m, at, true)
    requires at == |s| - 1 || WellFormedExponent(s[at + 1..])
    ensures Converted(s, start, negative, strobj) == ConvertedStrict(s, start, negative, strobj)
  {
    if at < |s| - 1 {
      ExponentMeaning(s, at + 1);
      AgreesOnEnabledExponent(s, start, negative, strobj, m, at);
    }
  }

  /** `AgreesOnWellFormedExponent` once `CalcExponentConvert` has succeeded. */
  lemma AgreesOnEnabledExponent(s: string, start: nat, negative: bool, strobj: Variant, m: Mantissa, at: nat)
    requires start < |s| && at < |s| - 1
    requires ScanMantissa(s, start, MantissaStart) == Stopped(m, at, true)
    requires Exponent(s, at + 1).enable
    ensures Converted(s, start, negative, strobj) == ConvertedStrict(s, start, negative, strobj)
  {
    assert ConvertedStrict(s, start, negative, strobj) == StrictExponent(s, at, negative, strobj, m);
  }

  // ---------------------------------------------------------------------
  // Decimal text
  // ---------------------------------------------------------------------

  predicate NoExponentMarker(s: string) { forall k :: 0 <= k < |s| ==> s[k] != 'e' && s[k] != 'E' }

  /**
   * Decimal text with its point at `p`: at least one digit, the point, then
   * digits, none of which trips the overflow guard.
   */
  predicate IsDecimalText(t: string, p: nat)
  {
    && 0 < p < |t| && t[p] == '.' && AllDigits(t[..p]) && AllDigits(t[p + 1..])
    && NoOverflow(0, t[..p]) && NoOverflow(Accumulate(0, t[..p]), t[p + 1..])
  }

  /** The digits of a decimal text, read as one integer. */
  function DecimalMantissa(t: string, p: nat): nat
    requires IsDecimalText(t, p)
  {
    Accumulate(Accumulate(0, t[..p]), t[p + 1..])
  }

  /**
   * After the `.`, the mantissa loop reaches the end of the text exactly when
   * the rest is digits that never trip the overflow guard; it then holds
   * their value and has counted them as fraction digits.
   */
  lemma {:induction false} ScanFraction(s: string, i: nat, m: Mantissa)
    requires i <= |s| && m.digit >= 0
    ensures var r := ScanMantissa(s, i, m);
      (r.Stopped? && !r.useExp) <==> (AllDigits(s[i..]) && NoOverflow(m.v, s[i..]))
    ensures var r := ScanMantissa(s, i, m);
      r.Stopped? && !r.useExp ==> r.m.v == Accumulate(m.v, s[i..]) && r.m.digit == m.digit + (|s| - i)
    decreases |s| - i
  {
    var t := s[i..];
    if i < |s| {
      assert t[0] == s[i] && t[1..] == s[i + 1..];
      if IsDigit(s[i]) && m.v < ULongMaxDiv10 {
        ScanFraction(s, i + 1, m.(v := m.v * 10 + DigitOf(s[i]), digit := m.digit + 1));
        if AllDigits(s[i + 1..]) {
          assert AllDigits(t);
        }
      } else {
        assert !AllDigits(t) || !NoOverflow(m.v, t);
      }
    }
  }

  /**
   * Before any `.`, digits up to index `p` that never trip the guard only
   * accumulate; anything else before a `.` at `p` keeps the loop from
   * reaching the end of the text.
   */
  lemma {:induction false} ScanToDot(s: string, i: nat, p: nat, m: Mantissa)
    requires i <= p < |s| && m.digit < 0
    ensures AllDigits(s[i..p]) && NoOverflow(m.v, s[i..p]) ==>
      ScanMantissa(s, i, m) == ScanMantissa(s, p, m.(v := Accumulate(m.v, s[i..p]), ldZero := m.ldZero || i < p))
    ensures s[p] == '.' && !(AllDigits(s[i..p]) && NoOverflow(m.v, s[i..p])) ==>
      !(ScanMantissa(s, i, m).Stopped? && !ScanMantissa(s, i, m).useExp)
    decreases p - i
  {
    var t := s[i..p];
    if i < p {
      assert t[0] == s[i] && t[1..] == s[i + 1..p];
      if IsDigit(s[i]) && m.v < ULongMaxDiv10 {
        ScanToDot(s, i + 1, p, m.(v := m.v * 10 + DigitOf(s[i]), ldZero := true));
        if AllDigits(s[i + 1..p]) {
          assert AllDigits(t);
        }
      } else if s[i] == '.' && m.ldZero {
        ScanFraction(s, i + 1, m.(digit := 0));
        if s[p] == '.' {
          assert s[i + 1..][p - i - 1] == s[p];
        }
      } else {
        assert !AllDigits(t) || !NoOverflow(m.v, t);
      }
    } else {
      assert t == [];
    }
  }

  /**
   * As written, text without an exponent marker and with a `.` at `p` after
   * its sign classifies as a Double exactly when it is decimal text; the
   * Double holds all its digits as the mantissa, scaled by 10 to the minus
   * number of fraction digits.
   */
  lemma DecimalClassification(s: string, strobj: Variant, p: nat)
    requires !strobj.DoubleV? && NoExponentMarker(s)
    requires p < |Unsigned(s)| && Unsigned(s)[p] == '.'
    ensures Classified(s, strobj).DoubleV? <==> IsDecimalText(Unsigned(s), p)
    ensures IsDecimalText(Unsigned(s), p) ==>
      Classified(s, strobj) == DoubleV(Scaled(IsNegative(s), DecimalMantissa(Unsigned(s), p), -(|Unsigned(s)| - p - 1)))
  {
    var start := if |s| > 0 && (s[0] == '+' || s[0] == '-') then 1 else 0;
    var t := Unsigned(s);
    assert t == s[start..];
    var q := start + p;
    assert Classified(s, strobj) == Converted(s, start, IsNegative(s), strobj);
    assert t[..p] == s[start..q];
    assert t[p + 1..] == s[q + 1..];
    DecimalConverted(s, start, q, IsNegative(s), strobj);
  }

  /** The same in the coordinates of the loop: the digits run from `start`, the `.` is at `q`. */
  lemma DecimalConverted(s: string, start: nat, q: nat, negative: bool, strobj: Variant)
    requires !strobj.DoubleV? && NoExponentMarker(s)
    requires start <= q < |s| && s[q] == '.'
    ensures var whole, frac := s[start..q], s[q + 1..];
      var ok := start < q && AllDigits(whole) && AllDigits(frac)
        && NoOverflow(0, whole) && NoOverflow(Accumulate(0, whole), frac);
      && (Converted(s, start, negative, strobj).DoubleV? <==> ok)
      && (ok ==> Converted(s, start, negative, strobj)
                 == DoubleV(Scaled(negative, Accumulate(Accumulate(0, whole), frac), -(|s| - q - 1))))
  {
    ScanToDot(s, start, q, MantissaStart);
    var whole := s[start..q];
    if AllDigits(whole) && NoOverflow(0, whole) && start < q {
      ScanFraction(s, q + 1, Mantissa(Accumulate(0, whole), 0, true));
    }
  }

  // ---------------------------------------------------------------------
  // The classifications the source's own test expects
  // ---------------------------------------------------------------------

  lemma PlainDecimalIsDouble()
    ensures Classified("3.14", StringV(false)) == DoubleV(Scaled(false, 314, -2))
  {
  }

  lemma Int32BoundsAreIntegers()
    ensures Classified("2147483647", StringV(false)) == IntegerV(2147483647)
    ensures Classified("-2147483648", StringV(false)) == IntegerV(-2147483648)
  {
    var p := "2147483647";
    assert ScanMantissa(p, 10, Mantissa(2147483647, -1, true)) == Stopped(Mantissa(2147483647, -1, true), 10, false);
    assert ScanMantissa(p, 9, Mantissa(214748364, -1, true)) == Stopped(Mantissa(2147483647, -1, true), 10, false);
    assert ScanMantissa(p, 8, Mantissa(21474836, -1, true)) == Stopped(Mantissa(2147483647, -1, true), 10, false);
    assert ScanMantissa(p, 7, Mantissa(2147483, -1, true)) == Stopped(Mantissa(2147483647, -1, true), 10, false);
    assert ScanMantissa(p, 6, Mantissa(214748, -1, true)) == Stopped(Mantissa(2147483647, -1, true), 10, false);
    assert ScanMantissa(p, 5, Mantissa(21474, -1, true)) == Stopped(Mantissa(2147483647, -1, true), 10, false);
    assert ScanMantissa(p, 4, Mantissa(2147, -1, true)) == Stopped(Mantissa(2147483647, -1, true), 10, false);
    assert ScanMantissa(p, 3, Mantissa(214, -1, true)) == Stopped(Mantissa(2147483647, -1, true), 10, false);
    assert ScanMantissa(p, 2, Mantissa(21, -1, true)) == Stopped(Mantissa(2147483647, -1, true), 10, false);
    assert ScanMantissa(p, 1, Mantissa(2, -1, true)) == Stopped(Mantissa(2147483647, -1, true), 10, false);
    assert ScanMantissa(p, 0, Mantissa(0, -1, false)) == Stopped(Mantissa(2147483647, -1, true), 10, false);
    var q := "-2147483648";
    assert ScanMantissa(q, 11, Mantissa(2147483648, -1, true)) == Stopped(Mantissa(2147483648, -1, true), 11, false);
    assert ScanMantissa(q, 10, Mantissa(214748364, -1, true)) == Stopped(Mantissa(2147483648, -1, true), 11, false);
    assert ScanMantissa(q, 9, Mantissa(21474836, -1, true)) == Stopped(Mantissa(2147483648, -1, true), 11, false);
    assert ScanMantissa(q, 8, Mantissa(2147483, -1, true)) == Stopped(Mantissa(2147483648, -1, true), 11, false);
    assert ScanMantissa(q, 7, Mantissa(214748, -1, true)) == Stopped(Mantissa(2147483648, -1, true), 11, false);
    assert ScanMantissa(q, 6, Mantissa(21474, -1, true)) == Stopped(Mantissa(2147483648, -1, true), 11, false);
    assert ScanMantissa(q, 5, Mantissa(2147, -1, true)) == Stopped(Mantissa(2147483648, -1, true), 11, false);
    assert ScanMantissa(q, 4, Mantissa(214, -1, true)) == Stopped(Mantissa(2147483648, -1, true), 11, false);
    assert ScanMantissa(q, 3, Mantissa(21, -1, true)) == Stopped(Mantissa(2147483648, -1, true), 11, false);
    assert ScanMantissa(q, 2, Mantissa(2, -1, true)) == Stopped(Mantissa(2147483648, -1, true), 11, false);
    assert ScanMantissa(q, 1, Mantissa(0, -1, false)) == Stopped(Mantissa(2147483648, -1, true), 11, false);
  }

  lemma BareSignIsEmpty()
    ensures Classified("+", StringV(false)) == EmptyV
    ensures Classified("-", StringV(false)) == EmptyV
  {
  }

  lemma PositiveExponentIsDouble()
    ensures Classified("1.23e+12", StringV(false)) == DoubleV(Scaled(false, 123, 10))
  {
    var s := "1.23e+12";
    assert ScanMantissa(s, 0, MantissaStart) == Stopped(Mantissa(123, 2, true), 4, true);
    assert s[5] == '+';
    assert ExponentDigits(s, 6, 0) == ExpoResult(true, 12);
    assert Exponent(s, 5) == ExpoResult(true, 12);
  }

  lemma NegativeExponentIsDouble()
    ensures Classified("2.43E-19", StringV(false)) == DoubleV(Scaled(false, 243, -21))
  {
    var s := "2.43E-19";
    assert ScanMantissa(s, 0, MantissaStart) == Stopped(Mantissa(243, 2, true), 4, true);
    assert s[5] == '-';
    assert ExponentDigits(s, 6, 0) == ExpoResult(true, 19);
    assert Exponent(s, 5) == ExpoResult(true, -19);
  }

  /** As written, `1e-` (a sign with nothing after it) reads as 1 x 10^-1; the strict conversion rejects it. */
  lemma DanglingExponentSign()
    ensures Classified("1e-", StringV(false)) == DoubleV(Scaled(false, 1, -1))
    ensures ConvertedStrict("1e-", 0, false, StringV(false)) == StringV(false)
  {
    var s := "1e-";
    assert ScanMantissa(s, 0, MantissaStart) == Stopped(Mantissa(1, -1, true), 1, true);
    assert ExponentDigits(s, 2, 0) == ExpoResult(false, 0);
  }
}
