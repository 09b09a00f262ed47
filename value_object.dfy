/**
 * `ValueObject` (an interned field value with a lazily classified memo) and
 * `ValueKey` (a zero-copy view of a range of the line buffer, used to look a
 * value up before one is created). The two live in one module because each
 * one's `Equals` inspects the other.
 */
module ValueObjects {
  import opened Wrappers
  import opened ValueTypes
  import opened NumberScan
  import opened FnvHash
  import ValueEmpty
  import ValueInteger
  import ValueDouble

  /** `List<char>.CopyTo(st, temp, 0, ed - st)` for a non-empty range, `""` otherwise. */
  function Slice(buffer: seq<char>, st: int, ed: int): (s: string)
    requires ed > st ==> 0 <= st && ed <= |buffer|
    ensures |s| == (if ed > st then ed - st else 0)
    ensures forall j :: 0 <= j < |s| ==> s[j] == buffer[st + j]
  {
    if ed > st then buffer[st..ed] else ""
  }

  /** What `Equals(object)` is handed: another value, a key, or any other object. */
  datatype Obj = ObjValue(v: ValueObject) | ObjKey(k: ValueKey) | ObjOther

  /**
   * The comparison loop both `Equals` methods run: `a[j] == b[off + j]` for
   * every `j` from `i` up, stopping at the first difference.
   */
  function SameUnits(a: seq<char>, b: seq<char>, off: int, i: nat): (r: bool)
    requires i <= |a| && 0 <= off && off + |a| <= |b|
    ensures r <==> a[i..] == b[off + i..off + |a|]
    decreases |a| - i
  {
    if i == |a| then true
    else if a[i] != b[off + i] then false
    else SameUnits(a, b, off, i + 1)
  }

  /** The accessor table of a classified variant; `ValueString` and `ValueDateTime` are not part of this model. */
  function RowOf(v: Variant): (r: Option<Row>)
    ensures r.Some? <==> v.EmptyV? || v.IntegerV? || v.DoubleV?
    ensures r.Some? ==> r.value.isString && ThrowsOnlyWhenNull(r.value) && OrNullAgrees(r.value)
  {
    match v
    case EmptyV => ValueEmpty.TableFacts(); Some(ValueEmpty.Table())
    case IntegerV(i) => ValueInteger.TableFacts(i); Some(ValueInteger.Table(i))
    case DoubleV(d) => ValueDouble.TableFacts(d); Some(ValueDouble.Table(d))
    case StringV(_) => None
    case DateV(_) => None
  }

  /**
   * `IntegerValueOrNull` of a variant: the stored integer for `ValueInteger`,
   * null for the others (for `ValueString` and `ValueDateTime` this is taken
   * to be null as well).
   */
  function IntegerOrNullOf(v: Variant): (r: Option<Int32>)
    ensures RowOf(v).Some? ==> r == RowOf(v).value.integerValueOrNull
  {
    if v.IntegerV? then Some(v.i) else None
  }

  /**
   * `ValueObject.DoubleValueOrNull` as written: it forwards the instance's
   * `IntegerValueOrNull`, widened, so it is null for every Double.
   */
  function ForwardedDoubleOrNull(v: Variant): (r: Option<DoubleVal>)
    ensures r.Some? <==> v.IntegerV?
  {
    match IntegerOrNullOf(v)
    case Some(i) => Some(Widened(i))
    case None => None
  }

  /**
   * `DoubleValueOrNull` as the accessor tables define it: the instance's own
   * `DoubleValueOrNull` (null for `ValueString` and `ValueDateTime`).
   */
  function DoubleOrNullOf(v: Variant): (r: Option<DoubleVal>)
    ensures RowOf(v).Some? ==> r == RowOf(v).value.doubleValueOrNull
    ensures v.DoubleV? ==> r == Some(v.d)
  {
    match v
    case IntegerV(i) => Some(Widened(i))
    case DoubleV(d) => Some(d)
    case _ => None
  }

  /** `IsDate` of a memoised variant; a `ValueDateTime` answers yes, a `ValueString` no. */
  function IsDateOf(v: Variant): (r: bool)
    ensures RowOf(v).Some? ==> r == RowOf(v).value.isDate
  {
    v.EmptyV? || v.DateV?
  }

  /** `DateValueOrNull` of a memoised variant: the date of a `ValueDateTime`, null otherwise. */
  function DateOrNullOf(v: Variant): (r: Option<DateTime>)
    ensures RowOf(v).Some? ==> r == RowOf(v).value.dateValueOrNull
    ensures r.Some? <==> v.DateV?
  {
    if v.DateV? then Some(v.date) else None
  }

  /**
   * `ConvartDate`: a parsed date if `DateTime.TryParse` (the parameter
   * `parse`) accepts the text, otherwise the classification with
   * `ValueString.InstanceOfDayChecked` as the string fallback.
   */
  function DateConverted(chars: string, parse: string -> Option<DateTime>): (v: Variant)
    ensures v != StringV(false)
    ensures parse(chars).Some? ==> v == DateV(parse(chars).value)
    ensures parse(chars).None? ==> !v.DateV?
  {
    match parse(chars)
    case Some(d) => DateV(d)
    case None => Classified(chars, StringV(true))
  }

  /** The variants a value's memo may hold: its classification with either string instance, or a parsed date. */
  predicate MemoFits(chars: string, v: Variant)
  {
    v == Classified(chars, StringV(false)) || v == Classified(chars, StringV(true)) || v.DateV?
  }

  /** Every classification is the string fallback, Empty, an Integer or a Double. */
  lemma ClassifiedShape(chars: string, strobj: Variant)
    ensures var v := Classified(chars, strobj);
      v == strobj || v.EmptyV? || v.IntegerV? || v.DoubleV?
    ensures chars == "" ==> Classified(chars, strobj) == EmptyV
    ensures !strobj.EmptyV? ==> (Classified(chars, strobj).EmptyV? <==> Unsigned(chars) == "")
  {
  }

  class ValueObject {
    /** The value's text, fixed at construction. */
    const chars: string
    /** The memo: `None` until classified (`null` in the source). */
    var value: Option<Variant>

    ghost predicate Valid()
      reads this
    {
      && (chars == "" ==> value == Some(EmptyV))
      && (value.Some? ==> MemoFits(chars, value.value))
    }

    /** `ValueObject(string)`: the empty text starts out as `ValueEmpty.Empty`, any other text unevaluated. */
    constructor (s: string)
      ensures chars == s
      ensures value == if s == "" then Some(ValueEmpty.Empty) else None
      ensures Valid()
    {
      chars := s;
      value := if s == "" then Some(ValueEmpty.Empty) else None;
    }

    /** `ValueObject(List<char>, st, ed)`: copies `buffer[st..ed)`, or is the empty value when `ed <= st`. */
    constructor FromSpan(buffer: seq<char>, st: int, ed: int)
      requires ed > st ==> 0 <= st && ed <= |buffer|
      ensures chars == Slice(buffer, st, ed)
      ensures value == if ed > st then None else Some(ValueEmpty.Empty)
      ensures Valid()
    {
      if ed > st {
        chars := buffer[st..ed];
        value := None;
      } else {
        chars := "";
        value := Some(ValueEmpty.Empty);
      }
    }

    /** `Length`. */
    function Length(): (n: nat)
      ensures n == |ToString()|
    {
      |chars|
    }

    /** The indexer `this[index]`. */
    function At(index: int): (c: char)
      requires 0 <= index < |chars|
      ensures c == ToString()[index]
    {
      chars[index]
    }

    /** `ToString` (and `StringValue`): the text itself, whatever the memo holds. */
    function ToString(): (s: string)
      ensures |s| == |chars| && forall j :: 0 <= j < |s| ==> s[j] == chars[j]
    {
      chars
    }

    /** `IsString`: every value reads as a string, without touching the memo. */
    function IsString(): (r: bool)
      ensures r
    {
      true
    }

    /**
     * `Instance`: classify on first use with `ValueString.Instance` as the
     * string fallback and keep the result; later calls return the memo.
     */
    method Instance() returns (v: Variant)
      requires Valid()
      modifies this
      ensures Valid()
      ensures value == Some(v)
      ensures old(value).Some? ==> v == old(value).value
      ensures old(value).None? ==> v == Classified(chars, StringV(false))
    {
      if value.None? {
        var r := GetValue(StringV(false));
        value := Some(r);
      }
      v := value.value;
    }

    /** `GetValue`: one leading `+` or `-` is stripped, and only `-` makes the number negative. */
    method GetValue(strobj: Variant) returns (r: Variant)
      ensures r == Classified(chars, strobj)
    {
      if |chars| > 0 && chars[0] == '+' {
        r := ConvertNumber(1, false, strobj);
      } else if |chars| > 0 && chars[0] == '-' {
        r := ConvertNumber(1, true, strobj);
      } else {
        r := ConvertNumber(0, false, strobj);
      }
    }

    /** `ConvertNumber` over `chars[start..]`. */
    method ConvertNumber(start: nat, negative: bool, strobj: Variant) returns (r: Variant)
      requires start <= |chars|
      ensures r == Converted(chars, start, negative, strobj)
    {
      var v: nat := 0;
      var digit := -1;
      var useExp := false;
      var expV := -1;
      var ldZero := false;

      if start == |chars| {
        return EmptyV;
      }

      var i := start;
      while i < |chars|
        invariant start <= i <= |chars|
        invariant ScanMantissa(chars, i, Mantissa(v, digit, ldZero)) == ScanMantissa(chars, start, MantissaStart)
        invariant !useExp
        decreases |chars| - i
      {
        var c := chars[i];
        if '0' <= c <= '9' {
          if v < ULongMaxDiv10 {
            v := v * 10 + DigitOf(c);
            if digit >= 0 {
              digit := digit + 1;
            } else {
              ldZero := true;
            }
          } else {
            return strobj;
          }
        } else if c == '.' {
          if ldZero && digit < 0 {
            digit := 0;
          } else {
            return strobj;
          }
        } else if c == 'e' || c == 'E' {
          useExp := true;
          break;
        } else {
          return strobj;
        }
        i := i + 1;
      }
      assert ScanMantissa(chars, start, MantissaStart) == Stopped(Mantissa(v, digit, ldZero), i, useExp);

      var frac := if digit > 0 then digit else 0;
      if i < |chars| - 1 && useExp {
        var eres := CalcExponentConvert(i + 1);
        if eres.enable {
          expV := eres.value - frac;
          if expV < -ExponentLimit || expV > ExponentLimit {
            return strobj;
          }
        }
      } else {
        expV := -frac;
      }

      if digit < 0 && !useExp {
        if negative {
          if v <= NegativeBound {
            return IntegerV(-(v as int));
          } else {
            return strobj;
          }
        } else {
          if v <= LongMax {
            return IntegerV(Wrap32(v));
          } else {
            return strobj;
          }
        }
      } else {
        return DoubleV(Scaled(negative, v, expV));
      }
    }

    /** `CalcExponentConvert` over `chars[start..]`. */
    method CalcExponentConvert(start: nat) returns (res: ExpoResult)
      requires start <= |chars|
      ensures res == Exponent(chars, start)
    {
      var value: nat := 0;
      var sign := false;
      var i := start;
      if i < |chars| - 1 {
        if chars[i] == '+' {
          sign := false;
          i := i + 1;
        } else if chars[i] == '-' {
          sign := true;
          i := i + 1;
        }
      }
      ghost var first := i;

      while i < |chars|
        invariant first <= i <= |chars|
        invariant ExponentDigits(chars, i, value) == ExponentDigits(chars, first, 0)
        decreases |chars| - i
      {
        if '0' <= chars[i] <= '9' {
          value := value * 10 + DigitOf(chars[i]);
          if value >= ExponentLimit {
            return ExpoResult(false, value);
          }
        } else {
          return ExpoResult(false, value);
        }
        i := i + 1;
      }

      if sign {
        return ExpoResult(true, -(value as int));
      }
      return ExpoResult(true, value);
    }

    /** `ConvartDate`. */
    method ConvertDate(parse: string -> Option<DateTime>) returns (v: Variant)
      ensures v == DateConverted(chars, parse)
    {
      var s := ToString();
      match parse(s) {
        case Some(d) =>
          v := DateV(d);
        case None =>
          v := GetValue(StringV(true));
      }
    }

    /**
     * The memo step shared by `IsDate` and `DateValueOrNull`: the memo is
     * replaced by `ConvartDate` only while it is null or `ValueString.Instance`,
     * so the date parse runs at most once per value.
     */
    method DateMemo(parse: string -> Option<DateTime>) returns (v: Variant)
      requires Valid()
      modifies this
      ensures Valid()
      ensures value == Some(v) && v != StringV(false)
      ensures old(value).None? || old(value) == Some(StringV(false)) ==> v == DateConverted(chars, parse)
      ensures old(value).Some? && old(value) != Some(StringV(false)) ==> value == old(value)
    {
      if value.None? || value == Some(StringV(false)) {
        var d := ConvertDate(parse);
        value := Some(d);
      }
      v := value.value;
    }

    /** `IsDate`. */
    method IsDate(parse: string -> Option<DateTime>) returns (b: bool)
      requires Valid()
      modifies this
      ensures Valid() && value.Some?
      ensures b == IsDateOf(value.value)
      ensures old(value).None? || old(value) == Some(StringV(false)) ==> (b <==> parse(chars).Some? || Unsigned(chars) == "")
    {
      var v := DateMemo(parse);
      b := IsDateOf(v);
      if parse(chars).None? {
        ClassifiedShape(chars, StringV(true));
      }
    }

    /** `DateValueOrNull`. */
    method DateValueOrNull(parse: string -> Option<DateTime>) returns (d: Option<DateTime>)
      requires Valid()
      modifies this
      ensures Valid() && value.Some?
      ensures d == DateOrNullOf(value.value)
      ensures old(value).None? || old(value) == Some(StringV(false)) ==> d == parse(chars)
    {
      var v := DateMemo(parse);
      d := DateOrNullOf(v);
    }

    /**
     * The delegating getters (`ValueObjectType`, `IntegerValue`,
     * `DoubleValue`, `DateValue`, `IntegerValueOrNull`, `IsEmpty`,
     * `IsInteger`, `IsDouble`, `IsNumber`): the memoised instance's table.
     * Only those entries are what `ValueObject` answers: its `IsString`,
     * `IsDate`, `DoubleValueOrNull` and `DateValueOrNull` are its own members
     * below, and differ from the row's `isString`, `isDate`,
     * `doubleValueOrNull` and `dateValueOrNull`.
     */
    method Properties() returns (row: Option<Row>)
      requires Valid()
      modifies this
      ensures Valid() && value.Some?
      ensures row == RowOf(value.value)
      ensures old(value).None? ==> row == RowOf(Classified(chars, StringV(false)))
    {
      var v := Instance();
      row := RowOf(v);
    }

    /** `DoubleValueOrNull` as written: the instance's `IntegerValueOrNull`, widened. */
    method DoubleValueOrNull() returns (d: Option<DoubleVal>)
      requires Valid()
      modifies this
      ensures Valid() && value.Some?
      ensures d == ForwardedDoubleOrNull(value.value)
    {
      var v := Instance();
      match IntegerOrNullOf(v) {
        case Some(i) => d := Some(Widened(i));
        case None => d := None;
      }
    }

    /**
     * `GetHashCode`: FNV-1 over the bytes of the text in memory order; the
     * result equals the per-unit fold `ValueKey.SetKey` computes.
     */
    method GetHashCode() returns (h: bv32)
      ensures h == FoldBytes(Bytes(chars))
      ensures h == FoldUnits(chars)
    {
      h := OffsetBasis;
      var k := 0;
      while k < 2 * |chars|
        invariant 0 <= k <= 2 * |chars|
        invariant h == FoldBytes(Bytes(chars)[..k])
        decreases 2 * |chars| - k
      {
        BytesAt(chars, k);
        FoldBytesSnoc(Bytes(chars)[..k], ByteAt(chars, k));
        assert Bytes(chars)[..k + 1] == Bytes(chars)[..k] + [ByteAt(chars, k)];
        h := Step(h, ByteAt(chars, k));
        k := k + 1;
      }
      assert Bytes(chars)[..k] == Bytes(chars);
      BytesAgree(chars);
    }

    /** `Equals(object)`: same length and same code units as another value or as a key's range. */
    function Equals(obj: Obj): (r: bool)
      reads if obj.ObjKey? then {obj.k} else {}
      requires obj.ObjKey? ==> obj.k.Valid()
      ensures obj.ObjValue? ==> (r <==> obj.v.chars == chars)
      ensures obj.ObjKey? ==> (r <==> obj.k.st <= obj.k.ed && obj.k.Text() == chars)
      ensures obj.ObjOther? ==> !r
    {
      match obj
      case ObjValue(other) =>
        |chars| == |other.chars| && SameUnits(chars, other.chars, 0, 0)
      case ObjKey(okey) =>
        |chars| == okey.Length() && (|chars| == 0 || SameUnits(chars, okey.chars, okey.st, 0))
      case ObjOther => false
    }
  }

  lemma SliceSnoc(buffer: seq<char>, st: int, i: int)
    requires 0 <= st <= i < |buffer|
    ensures Slice(buffer, st, i + 1) == Slice(buffer, st, i) + [buffer[i]]
  {
    assert buffer[st..i + 1] == buffer[st..i] + [buffer[i]];
  }

  /**
   * The hashing loop of `SetKey`: folds the low and high byte of every unit
   * of `buffer[st..ed]` into the FNV-1 hash, failing on the first unit read
   * out of range.
   */
  method HashRange(buffer: seq<char>, st: int, ed: int) returns (ok: bool, hash: bv32)
    ensures ok <==> (st < ed ==> 0 <= st && ed <= |buffer|)
    ensures ok ==> hash == FoldUnits(Slice(buffer, st, ed))
  {
    hash := OffsetBasis;
    var i := st;
    while i < ed
      invariant st <= i && (st < ed ==> i <= ed) && (ed <= st ==> i == st)
      invariant i > st ==> 0 <= st && i <= |buffer|
      invariant hash == FoldUnits(Slice(buffer, st, i))
      decreases ed - i
    {
      if i < 0 || i >= |buffer| {
        return false, hash;
      }
      var v := buffer[i];
      SliceSnoc(buffer, st, i);
      FoldUnitsSnoc(Slice(buffer, st, i), v);
      hash := Step(Step(hash, Low(v)), High(v));
      i := i + 1;
    }
    assert Slice(buffer, st, i) == Slice(buffer, st, ed);
    return true, hash;
  }

  class ValueKey {
    /** The hash computed at `SetKey` time. */
    var hashCode: bv32
    /** The buffer the key looks into (a snapshot of the line buffer at `SetKey` time). */
    var chars: seq<char>
    var st: int
    var ed: int

    /** The range lies inside the buffer whenever it is non-empty. */
    ghost predicate Valid()
      reads this
    {
      st < ed ==> 0 <= st && ed <= |chars|
    }

    /** The stored hash is the FNV-1 fold of the key's text. */
    ghost predicate HashCurrent()
      reads this
      requires Valid()
    {
      hashCode == FoldUnits(Text())
    }

    /** The text the key stands for. */
    function Text(): string
      reads this
      requires Valid()
    {
      Slice(chars, st, ed)
    }

    constructor ()
      ensures chars == [] && st == 0 && ed == 0 && hashCode == 0
      ensures Valid()
    {
      hashCode := 0;
      chars := [];
      st := 0;
      ed := 0;
    }

    /** `Length`: `ed - st`, negative for a reversed range. */
    function Length(): (n: int)
      reads this
      requires Valid()
      ensures n >= 0 ==> n == |Text()|
      ensures n < 0 <==> ed < st
    {
      ed - st
    }

    /** The indexer `this[index]`: reads the buffer at `st + index`. */
    function At(index: int): (c: char)
      reads this
      requires 0 <= st + index < |chars|
      ensures Valid() && 0 <= index < Length() ==> c == Text()[index]
    {
      chars[st + index]
    }

    /**
     * `SetKey`: keeps the buffer and the range, then folds the low and high
     * byte of every unit in the range into the hash. A non-empty range
     * outside the buffer throws on the first unit read out of range, after
     * the buffer and the range are stored and before the hash is.
     */
    method SetKey(buffer: seq<char>, st: int, ed: int) returns (ok: bool)
      modifies this
      ensures this.chars == buffer && this.st == st && this.ed == ed
      ensures ok <==> Valid()
      ensures ok ==> HashCurrent() && hashCode == FoldUnits(Slice(buffer, st, ed))
      ensures !ok ==> hashCode == old(hashCode)
    {
      this.chars := buffer;
      this.st := st;
      this.ed := ed;

      var hash;
      ok, hash := HashRange(buffer, st, ed);
      if ok {
        hashCode := hash;
      }
    }

    /** `GetHashCode`: the hash stored by the last `SetKey`, never recomputed. */
    function GetHashCode(): (h: bv32)
      reads this
      ensures Valid() && HashCurrent() ==> h == FoldUnits(Text())
    {
      hashCode
    }

    /** `Equals(object)`: only a `ValueObject` of the same length and code units; never another key. */
    function Equals(obj: Obj): (r: bool)
      reads this
      requires Valid()
      ensures r <==> obj.ObjValue? && st <= ed && Text() == obj.v.chars
    {
      match obj
      case ObjValue(other) =>
        Length() == |other.chars| && (st >= ed || SameUnits(other.chars, chars, st, 0))
      case _ => false
    }

    /**
     * The constant accessor table of a key: type `TypeEmpty`, every predicate
     * false, getters returning 0, 0 and `DateTime.MinValue`, nullable getters
     * all null.
     */
    function Properties(): (r: Row)
      ensures r.kind == TypeEmpty
      ensures !r.isEmpty && !r.isInteger && !r.isDouble && !r.isString && !r.isDate && !r.isNumber
      ensures r.integerValue == Success(0) && r.doubleValue == Success(Widened(0))
      ensures r.dateValue == Success(DateMinValue)
      ensures r.integerValueOrNull.None? && r.doubleValueOrNull.None? && r.dateValueOrNull.None?
    {
      Row(TypeEmpty,
          false, false, false, false, false, false,
          Success(0), Success(Widened(0)), Success(DateMinValue),
          None, None, None)
    }

    /** `StringValue` of a key: always empty, whatever it looks at. */
    function StringValue(): (s: string)
      ensures |s| == 0
    {
      ""
    }
  }

  /** A key and a value agree on equality from either side. */
  lemma EqualsSymmetric(o: ValueObject, k: ValueKey)
    requires k.Valid()
    ensures o.Equals(ObjKey(k)) <==> k.Equals(ObjValue(o))
  {
  }

  /**
   * A key whose hash is current hashes like every value it equals, so a
   * dictionary probe with the key lands on the stored value.
   */
  lemma EqualKeyHashesAlike(o: ValueObject, k: ValueKey)
    requires k.Valid() && k.HashCurrent()
    requires o.Equals(ObjKey(k))
    ensures k.GetHashCode() == FoldBytes(Bytes(o.chars))
  {
    BytesAgree(o.chars);
  }

  /** Two values built from the same text are equal and hash alike. */
  lemma EqualValuesHashAlike(a: ValueObject, b: ValueObject)
    requires a.Equals(ObjValue(b))
    ensures FoldBytes(Bytes(a.chars)) == FoldBytes(Bytes(b.chars))
    ensures b.Equals(ObjValue(a))
  {
  }

  /**
   * As written, `DoubleValueOrNull` is null for every value that classifies
   * as a Double, although the Double's own table holds the payload; `"3.14"`
   * shows it.
   */
  lemma DoubleValueOrNullDropsDoubles(d: DoubleVal)
    ensures ForwardedDoubleOrNull(DoubleV(d)) == None
    ensures DoubleOrNullOf(DoubleV(d)) == Some(d)
    ensures RowOf(DoubleV(d)).value.doubleValueOrNull == Some(d)
    ensures ForwardedDoubleOrNull(Classified("3.14", StringV(false))) == None
  {
    PlainDecimalIsDouble();
  }

  /** Where the forwarding is harmless: Integer values and the nulls agree with the corrected accessor. */
  lemma ForwardingAgreesOffDoubles(v: Variant)
    requires !v.DoubleV?
    ensures ForwardedDoubleOrNull(v) == DoubleOrNullOf(v)
  {
  }
}
