/**
 * `CsvSpliter`: pulls blocks from the character source into `charBuffer`,
 * builds one record in `oneLineBuffer` and returns its field boundaries;
 * `ReadGroup` turns each field into an interned value. Each `ReadSplitLine`
 * is proved to do exactly what `CsvLine.ReadLine` describes for its mode,
 * over the characters still in the block followed by the unread source.
 */
module CsvSpliters {
  import opened Wrappers
  import opened CsvLine
  import opened ValueObjects
  import opened ValueCaches

  /** `ArgumentException` for a mode outside `CsvReadMode`, `OverflowException` for a negative buffer size. */
  datatype CreateError = BadMode | NegativeSize

  /** The exceptions `ReadGroup` can end with. */
  datatype GroupError = LineFault | KeyOutOfRange | CacheFault

  /** The range between boundaries `k` and `k + 1` lies inside the buffer whenever it is non-empty. */
  predicate SpanFits(line: seq<char>, b: seq<int>, k: int)
    requires 0 <= k < |b| - 1
  {
    b[k + 1] > b[k] ==> 0 <= b[k] && b[k + 1] <= |line|
  }

  /** The text `ReadGroup` copies for field `k`. */
  function FieldText(line: seq<char>, b: seq<int>, k: int): (t: string)
    requires 0 <= k < |b| - 1 && SpanFits(line, b, k)
    ensures |t| == if b[k + 1] > b[k] then b[k + 1] - b[k] else 0
  {
    Slice(line, b[k], b[k + 1])
  }

  /** `CsvReadMode`'s underlying values, in declaration order. */
  function ModeOf(mode: int): (m: Option<ReadMode>)
    ensures m.Some? <==> 0 <= mode <= 2
    ensures m == Some(UseEscape) <==> mode == 0
    ensures m == Some(UseEscapeNoTrim) <==> mode == 1
    ensures m == Some(NotEscape) <==> mode == 2
  {
    if mode == 0 then Some(UseEscape)
    else if mode == 1 then Some(UseEscapeNoTrim)
    else if mode == 2 then Some(NotEscape)
    else None
  }

  /**
   * The first half of `Pointer.AjustLine`: when `srcStart < dstStart`, the
   * forward element-by-element copy of `buffer[dstStart..dstEnd)` down to
   * `srcStart`. `None` where an index leaves the buffer.
   */
  method CopyWindowDown(p: Pointer, buffer: seq<char>) returns (r: Option<seq<char>>)
    ensures r == if p.srcStart < p.dstStart && p.dstStart < p.dstEnd then
                   if 0 <= p.srcStart && p.dstEnd <= |buffer| then
                     Some(buffer[..p.srcStart] + buffer[p.dstStart..p.dstEnd] + buffer[p.srcStart + (p.dstEnd - p.dstStart)..])
                   else None
                 else Some(buffer)
  {
    var b := buffer;
    if p.srcStart < p.dstStart {
      var d, s := p.dstStart, p.srcStart;
      while d < p.dstEnd
        invariant s - p.srcStart == d - p.dstStart && p.dstStart <= d
        invariant |b| == |buffer|
        invariant d == p.dstStart ==> b == buffer
        invariant d > p.dstStart ==>
          && 0 <= p.srcStart && d <= |buffer| && d <= p.dstEnd
          && b == buffer[..p.srcStart] + buffer[p.dstStart..d] + buffer[s..]
        decreases p.dstEnd - d
      {
        if s < 0 || d >= |b| {
          return None;
        }
        assert b[d] == buffer[d];
        assert buffer[..p.srcStart] + buffer[p.dstStart..d + 1] + buffer[s + 1..] == b[s := b[d]];
        b := b[s := b[d]];
        d, s := d + 1, s + 1;
      }
      if p.dstStart < p.dstEnd {
        assert d == p.dstEnd;
      }
    }
    return Some(b);
  }

  /** The second half of `Pointer.AjustLine`: one `RemoveAt` at the end per surplus element, throwing on an empty buffer. */
  method RemoveSurplus(b: seq<char>, surplus: int) returns (r: Option<seq<char>>)
    ensures r == if surplus <= 0 then Some(b) else if surplus <= |b| then Some(b[..|b| - surplus]) else None
  {
    var t := b;
    var j := 0;
    while j < surplus
      invariant 0 <= j <= (if surplus > 0 then surplus else 0) && j <= |b| && t == b[..|b| - j]
    {
      if |t| == 0 {
        return None;
      }
      t := t[..|t| - 1];
      j := j + 1;
    }
    assert b[..|b|] == b;
    return Some(t);
  }

  /** `Pointer.AjustLine` on a copy of the buffer. `None` where the source throws. */
  method AjustLine(p: Pointer, buffer: seq<char>) returns (r: Option<seq<char>>)
    ensures r == Adjust(p, buffer)
  {
    var copied := CopyWindowDown(p, buffer);
    if copied.None? {
      return None;
    }
    var surplus := (p.srcEnd - p.srcStart) - (p.dstEnd - p.dstStart);
    if p.dstEnd - p.dstStart < p.srcEnd - p.srcStart {
      r := RemoveSurplus(copied.value, surplus);
    } else {
      r := copied;
    }
  }

  class CsvSpliter {
    /** Which of the three `CsvSpliter` subclasses this is. */
    const mode: ReadMode
    /** The characters the stream has not yet delivered. */
    var stream: seq<char>
    const charBuffer: array<char>
    /** How many characters at the front of `charBuffer` are still unread. */
    var charIndex: int
    /** The record being built (`List<char> oneLineBuffer`). */
    var oneLineBuffer: seq<char>
    const temporary: ValueKey
    const cache: ValueCache

    ghost predicate Valid()
      reads this, cache
    {
      0 <= charIndex <= charBuffer.Length && cache.Valid()
    }

    /** Every character still to be split: the rest of the block, then the stream. */
    function Input(): seq<char>
      reads this, charBuffer
      requires 0 <= charIndex <= charBuffer.Length
    {
      charBuffer[..charIndex] + stream
    }

    constructor (innerStream: seq<char>, mode: ReadMode, bufferSize: nat)
      ensures this.mode == mode && stream == innerStream
      ensures fresh(charBuffer) && charBuffer.Length == bufferSize
      ensures charIndex == 0 && oneLineBuffer == []
      ensures fresh(temporary) && fresh(cache) && cache.confirmed == map[] && cache.cache == map[]
      ensures Valid() && Input() == innerStream
    {
      this.mode := mode;
      stream := innerStream;
      charBuffer := new char[bufferSize](_ => '\0');
      charIndex := 0;
      oneLineBuffer := [];
      temporary := new ValueKey();
      cache := new ValueCache();
    }

    /** `EndOfBuffer`: nothing is left in the block. */
    function EndOfBuffer(): (r: bool)
      reads this, charBuffer
      requires 0 <= charIndex <= charBuffer.Length
      ensures r <==> charBuffer[..charIndex] == []
    {
      charIndex <= 0
    }

    /**
     * `innerStream.ReadBlock(charBuffer, 0, charBuffer.Length)`: as many
     * characters as fit, or as remain, moved from the stream to the front of
     * the buffer.
     */
    method ReadBlock() returns (n: int)
      modifies this, charBuffer
      ensures n == if charBuffer.Length < |old(stream)| then charBuffer.Length else |old(stream)|
      ensures charBuffer[..n] + stream == old(stream)
      ensures charIndex == old(charIndex) && oneLineBuffer == old(oneLineBuffer)
    {
      n := if charBuffer.Length < |stream| then charBuffer.Length else |stream|;
      forall k | 0 <= k < n {
        charBuffer[k] := stream[k];
      }
      assert charBuffer[..n] == stream[..n];
      stream := stream[n..];
    }

    /** `Array.Copy(charBuffer, from, charBuffer, 0, count)`: the unread tail of the block moved to index 0. */
    method ShiftBlock(from: int, count: int)
      requires 0 <= from && 0 <= count && from + count <= charBuffer.Length
      modifies charBuffer
      ensures charBuffer[..count] == old(charBuffer[from..from + count])
      ensures charBuffer[count..] == old(charBuffer[count..])
    {
      forall k | 0 <= k < count {
        charBuffer[k] := charBuffer[from + k];
      }
    }

    /**
     * The outcome of one call, against the specification of its mode over
     * the characters that were available: the boundaries, the echo, the
     * buffer and the unread characters it leaves. A buffer of length 0 reads
     * nothing and returns `[0]`.
     */
    ghost predicate Reports(input: seq<char>, res: Option<seq<int>>, echo: seq<char>)
      reads this, charBuffer
    {
      && 0 <= charIndex <= charBuffer.Length
      && if charBuffer.Length == 0 then
           res == Some([0]) && echo == [] && oneLineBuffer == [] && Input() == input
         else match ReadLine(mode, input)
           case Faulted => res.None?
           case Exhausted(s) =>
             res == Some(s.splits) && echo == s.echo && oneLineBuffer == s.line && Input() == []
           case Ended(s, rest) =>
             res == Some(s.splits) && echo == s.echo && oneLineBuffer == s.line && Input() == rest
    }

    /**
     * `ReadSplitLine`: refill the block when it is used up, scan it, and
     * stop at the end of a record or when the stream has nothing more.
     */
    method ReadSplitLine() returns (res: Option<seq<int>>, echo: seq<char>)
      requires Valid()
      modifies this, charBuffer
      ensures Valid() && Reports(old(Input()), res, echo)
    {
      var st := LineStart;
      oneLineBuffer := [];
      ghost var input := Input();

      while true
        invariant Valid() && oneLineBuffer == st.line
        invariant charBuffer.Length == 0 ==> Input() == input && st == LineStart
        invariant charBuffer.Length > 0 ==> RunLine(mode, st, Input()) == ReadLine(mode, input)
        decreases |Input()|
      {
        if charIndex <= 0 {
          var more := Refill();
          if !more {
            break;
          }
        }
        var r := ScanRound(st);
        match r
        case Faulted =>
          return None, st.echo;
        case Ended(last, _) =>
          return Some(last.splits), last.echo;
        case Exhausted(next) =>
          st := next;
        if |stream| == 0 {
          break;
        }
      }
      return Some(st.splits), st.echo;
    }

    /** The refill at the top of the loop: read the next block into `charBuffer`; `false` when nothing was read. */
    method Refill() returns (more: bool)
      requires Valid() && charIndex <= 0
      modifies this, charBuffer
      ensures Valid() && Input() == old(Input()) && oneLineBuffer == old(oneLineBuffer)
      ensures more <==> charIndex > 0
      ensures !more ==> charBuffer.Length == 0 || Input() == []
    {
      assert Input() == stream;
      charIndex := ReadBlock();
      more := charIndex > 0;
    }

    /**
     * One round of the loop: scan the block, and when the record goes on,
     * mark the block used up. Stated against the state machine run over
     * everything still to be split.
     */
    method ScanRound(st: LineState) returns (r: LineResult)
      requires Valid() && charIndex > 0 && oneLineBuffer == st.line
      modifies this, charBuffer
      ensures Valid()
      ensures r.Faulted? ==> RunLine(mode, st, old(Input())).Faulted?
      ensures r.Ended? ==> oneLineBuffer == r.st.line && RunLine(mode, st, old(Input())) == Ended(r.st, Input())
      ensures r.Exhausted? ==>
        && oneLineBuffer == r.st.line && Input() == stream && |Input()| < |old(Input())|
        && RunLine(mode, st, old(Input())) == RunLine(mode, r.st, Input())
    {
      ghost var block, tail := charBuffer[..charIndex], stream;
      assert Input() == block + tail;
      r := ScanBlock(st);
      RunConcat(mode, st, block, tail);
      if r.Ended? {
        assert Input() == r.rest + tail;
      } else if r.Exhausted? {
        charIndex := 0;
        assert charBuffer[..charIndex] == [];
        assert Input() == tail;
      }
    }

    /**
     * The `for` loop over the block: each character goes through the mode's
     * `switch`; at the end of a record the rest of the block is moved to
     * index 0 and `charIndex` becomes its length.
     */
    method ScanBlock(st0: LineState) returns (r: LineResult)
      requires Valid() && charIndex > 0 && oneLineBuffer == st0.line
      modifies this, charBuffer
      ensures Valid() && stream == old(stream)
      ensures r == RunLine(mode, st0, old(charBuffer[..charIndex]))
      ensures r.Exhausted? ==> oneLineBuffer == r.st.line && charIndex == old(charIndex)
      ensures r.Ended? ==> oneLineBuffer == r.st.line && charBuffer[..charIndex] == r.rest
    {
      var st := st0;
      ghost var block := charBuffer[..charIndex];
      var i := 0;
      while i < charIndex
        invariant 0 <= i <= charIndex == |block| && charBuffer[..charIndex] == block && stream == old(stream)
        invariant Valid() && oneLineBuffer == st.line
        invariant RunLine(mode, st, block[i..]) == RunLine(mode, st0, block)
      {
        var c := charBuffer[i];
        assert block[i..] == [c] + block[i + 1..];
        var step := Step(st, c);
        match step
        case StepFault =>
          return Faulted;
        case Stop(last) =>
          var clen := charIndex - (i + 1);
          ShiftBlock(i + 1, clen);
          charIndex := clen;
          oneLineBuffer := last.line;
          return Ended(last, charBuffer[..charIndex]);
        case Next(next) =>
          st := next;
          oneLineBuffer := st.line;
        i := i + 1;
      }
      return Exhausted(st);
    }

    /**
     * `ReadGroup`: read one record, then for each adjacent pair of
     * boundaries point the temporary key at that range of the buffer and
     * look it up in the cache. Value `i` holds the text between boundaries
     * `i` and `i + 1`; `confirmed` is never changed.
     */
    method ReadGroup() returns (r: Result<seq<ValueObject>, GroupError>, ghost splits: Option<seq<int>>, ghost echo: seq<char>)
      requires Valid()
      modifies this, charBuffer, temporary, cache
      ensures Valid() && Reports(old(Input()), splits, echo)
      ensures cache.confirmed == old(cache.confirmed)
      ensures r == Failure(LineFault) <==> splits.None?
      ensures mode != UseEscape ==> r.Success?
      ensures r.Success? ==> splits.Some? && |r.value| == |splits.value| - 1
      ensures r.Success? ==> forall i :: 0 <= i < |r.value| ==>
        SpanFits(oneLineBuffer, splits.value, i) && r.value[i].chars == FieldText(oneLineBuffer, splits.value, i)
    {
      ghost var input := Input();
      var res;
      res, echo := ReadSplitLine();
      splits := res;
      ReadLineBoundaries(mode, input);
      if res.None? {
        return Failure(LineFault), splits, echo;
      }
      assert mode != UseEscape ==> 0 <= res.value[0] && Sorted(res.value) && Last(res.value) <= |oneLineBuffer| by {
        if charBuffer.Length > 0 {
          assert res.value == ReadLine(mode, input).st.splits && oneLineBuffer == ReadLine(mode, input).st.line;
        }
      }
      r := GroupValues(oneLineBuffer, res.value);
    }

    /**
     * The `for` loop of `ReadGroup`: `SetKey` on the range, then `GetCache`;
     * a range outside the buffer or a failed insertion ends the loop with
     * its exception.
     */
    method GroupValues(line: seq<char>, b: seq<int>) returns (r: Result<seq<ValueObject>, GroupError>)
      requires cache.Valid() && |b| > 0
      modifies temporary, cache
      ensures cache.Valid() && cache.confirmed == old(cache.confirmed)
      ensures r.Success? ==> |r.value| == |b| - 1
      ensures r.Success? ==> forall i :: 0 <= i < |r.value| ==>
        SpanFits(line, b, i) && r.value[i].chars == FieldText(line, b, i)
      ensures r == Failure(KeyOutOfRange) ==> exists k :: 0 <= k < |b| - 1 && !SpanFits(line, b, k)
      ensures r.Failure? ==> r.error != LineFault
      ensures 0 <= b[0] && Sorted(b) && Last(b) <= |line| ==> r.Success?
    {
      var values: seq<ValueObject> := [];
      var i := 0;
      while i < |b| - 1
        invariant 0 <= i <= |b| - 1 && |values| == i
        invariant cache.Valid() && cache.confirmed == old(cache.confirmed)
        invariant forall k :: 0 <= k < i ==> SpanFits(line, b, k) && values[k].chars == FieldText(line, b, k)
      {
        var v := FieldValue(line, b, i);
        if 0 <= b[0] && Sorted(b) && Last(b) <= |line| {
          assert b[0] <= b[i] <= b[i + 1] <= Last(b);
        }
        if v.Failure? {
          return Failure(v.error);
        }
        values := values + [v.value];
        i := i + 1;
      }
      return Success(values);
    }

    /** One pass of the `ReadGroup` loop: `SetKey` on field `i`'s range, then `GetCache`. */
    method FieldValue(line: seq<char>, b: seq<int>, i: int) returns (r: Result<ValueObject, GroupError>)
      requires cache.Valid() && 0 <= i < |b| - 1
      modifies temporary, cache
      ensures cache.Valid() && cache.confirmed == old(cache.confirmed)
      ensures r.Success? ==> SpanFits(line, b, i) && r.value.chars == FieldText(line, b, i)
      ensures r.Failure? ==> r.error == KeyOutOfRange || r.error == CacheFault
      ensures r == Failure(KeyOutOfRange) <==> !SpanFits(line, b, i)
      ensures r == Failure(CacheFault) <==> SpanFits(line, b, i) && b[i] > b[i + 1] && "" in old(cache.cache)
    {
      var ok := temporary.SetKey(line, b[i], b[i + 1]);
      if !ok {
        return Failure(KeyOutOfRange);
      }
      assert SpanFits(line, b, i);
      var v := cache.GetCache(temporary, line, b[i], b[i + 1]);
      if v.Failure? {
        return Failure(CacheFault);
      }
      return Success(v.value);
    }

    /** The `switch` of this splitter's mode: one character. */
    method Step(s: LineState, c: char) returns (r: StepResult)
      ensures r == StepChar(mode, s, c)
    {
      match mode
      case UseEscape => r := TrimChar(s, c);
      case UseEscapeNoTrim => r := NoTrimChar(s, c);
      case NotEscape => r := PlainChar(s, c);
    }
  }

  /**
   * `CreateSpliter`: the splitter for the mode's value, over the given
   * stream; any other value throws `ArgumentException` before anything is
   * allocated, and a negative buffer size fails allocating `charBuffer`.
   */
  method CreateSpliter(innerStream: seq<char>, mode: int, bufferSize: int) returns (r: Result<CsvSpliter, CreateError>)
    ensures ModeOf(mode).None? ==> r == Failure(BadMode)
    ensures ModeOf(mode).Some? && bufferSize < 0 ==> r == Failure(NegativeSize)
    ensures ModeOf(mode).Some? && bufferSize >= 0 ==>
      && r.Success? && fresh(r.value) && r.value.Valid()
      && r.value.mode == ModeOf(mode).value && r.value.charBuffer.Length == bufferSize
      && r.value.Input() == innerStream && r.value.oneLineBuffer == []
      && r.value.cache.confirmed == map[] && r.value.cache.cache == map[]
  {
    var m := ModeOf(mode);
    if m.None? {
      return Failure(BadMode);
    }
    if bufferSize < 0 {
      return Failure(NegativeSize);
    }
    var spliter := new CsvSpliter(innerStream, m.value, bufferSize);
    return Success(spliter);
  }

  /** The `switch` of `SplitByUsedEscape.ReadSplitLine`, on the call's locals. */
  method TrimChar(s: LineState, c: char) returns (r: StepResult)
    ensures r == StepTrim(s, c)
  {
    var esc, seqst, prev, pos, line, res, resbuf := s.esc, s.seqst, s.prev, s.pos, s.line, s.splits, s.echo;
    if c == ',' {
      resbuf := resbuf + [c];
      if !esc {
        var adjusted := AjustLine(pos, line);
        if adjusted.None? {
          return StepFault;
        }
        line := adjusted.value;
        res := res + [|line|];
        pos := pos.(srcStart := |line|);
        pos := pos.(dstStart := pos.srcStart);
        seqst := true;
      } else {
        seqst := false;
      }
    } else if c == '"' {
      resbuf := resbuf + [c];
      seqst := false;
      if esc {
        esc := false;
      } else {
        if pos.srcStart == pos.srcEnd {
          esc := true;
        } else if prev == '"' {
          line := line + ['"'];
          esc := true;
        }
      }
      pos := pos.(dstEnd := |line|);
    } else if c == '\n' {
      seqst := false;
      if prev == '\r' {
        if |line| == 0 || |resbuf| == 0 {
          return StepFault;
        }
        line := line[..|line| - 1];
        pos := pos.(srcEnd := pos.srcEnd - 1);
        resbuf := resbuf[..|resbuf| - 1];
      }
      if esc {
        if prev == '\r' {
          line := line + [prev];
          resbuf := resbuf + [prev];
        }
        line := line + [c];
        resbuf := resbuf + [c];
      } else {
        var adjusted := AjustLine(pos, line);
        if adjusted.None? {
          return StepFault;
        }
        line := adjusted.value;
        res := res + [|line|];
        return Stop(LineState(esc, seqst, prev, pos, line, res, resbuf));
      }
      pos := pos.(dstEnd := |line|);
    } else {
      resbuf := resbuf + [c];
      line := line + [c];
      if IsWhiteSpace(c) {
        if seqst {
          pos := pos.(dstStart := pos.dstStart + 1);
        }
      } else {
        seqst := false;
        pos := pos.(dstEnd := |line|);
      }
      pos := pos.(srcEnd := |line|);
    }
    prev := c;
    return Next(LineState(esc, seqst, prev, pos, line, res, resbuf));
  }

  /** The `switch` of `SplitByUsedEscapeNoTrim.ReadSplitLine`, on the call's locals. */
  method NoTrimChar(s: LineState, c: char) returns (r: StepResult)
    ensures r == StepNoTrim(s, c)
  {
    var esc, seqst, prev, pos, line, res, resbuf := s.esc, s.seqst, s.prev, s.pos, s.line, s.splits, s.echo;
    if c == ',' {
      resbuf := resbuf + [c];
      if !esc {
        res := res + [|line|];
        pos := pos.(srcStart := |line|);
      }
    } else if c == '"' {
      resbuf := resbuf + [c];
      if esc {
        esc := false;
      } else {
        if pos.srcStart == pos.srcEnd {
          esc := true;
        } else if prev == '"' {
          line := line + ['"'];
          esc := true;
        }
      }
    } else if c == '\n' {
      if prev == '\r' {
        if |line| == 0 || |resbuf| == 0 {
          return StepFault;
        }
        line := line[..|line| - 1];
        pos := pos.(srcEnd := pos.srcEnd - 1);
        resbuf := resbuf[..|resbuf| - 1];
      }
      if esc {
        if prev == '\r' {
          line := line + [prev];
          resbuf := resbuf + [prev];
        }
        line := line + [c];
        resbuf := resbuf + [c];
      } else {
        res := res + [|line|];
        return Stop(LineState(esc, seqst, prev, pos, line, res, resbuf));
      }
    } else {
      resbuf := resbuf + [c];
      line := line + [c];
      pos := pos.(srcEnd := |line|);
    }
    prev := c;
    return Next(LineState(esc, seqst, prev, pos, line, res, resbuf));
  }

  /** The `switch` of `SplitByNotEscape.ReadSplitLine`, on the call's locals. */
  method PlainChar(s: LineState, c: char) returns (r: StepResult)
    ensures r == StepPlain(s, c)
  {
    var esc, seqst, prev, pos, line, res, resbuf := s.esc, s.seqst, s.prev, s.pos, s.line, s.splits, s.echo;
    if c == ',' {
      resbuf := resbuf + [c];
      res := res + [|line|];
      pos := pos.(srcStart := |line|);
    } else if c == '\n' {
      if prev == '\r' {
        if |line| == 0 || |resbuf| == 0 {
          return StepFault;
        }
        line := line[..|line| - 1];
        pos := pos.(srcEnd := pos.srcEnd - 1);
        resbuf := resbuf[..|resbuf| - 1];
      }
      res := res + [|line|];
      return Stop(LineState(esc, seqst, prev, pos, line, res, resbuf));
    } else {
      resbuf := resbuf + [c];
      line := line + [c];
      pos := pos.(srcEnd := |line|);
    }
    prev := c;
    return Next(LineState(esc, seqst, prev, pos, line, res, resbuf));
  }
}
