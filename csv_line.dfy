/**
 * The per-character state machine of `CsvSpliter.ReadSplitLine`, one step
 * function per read mode, and `Pointer.AjustLine`, as specification
 * functions over the characters of one call: the line buffer it builds, the
 * boundary list it returns and the echo it appends to `resbuf`.
 */
module CsvLine {
  import opened Wrappers

  /** `CsvReadMode`. */
  datatype ReadMode = UseEscape | UseEscapeNoTrim | NotEscape

  /** `char.IsWhiteSpace`: the Unicode space separators plus U+0009..U+000D, U+0085, U+2028 and U+2029. */
  predicate IsWhiteSpace(c: char)
  {
    || ('\U{0009}' <= c <= '\U{000D}') || c == '\U{0020}' || c == '\U{0085}' || c == '\U{00A0}'
    || c == '\U{1680}' || ('\U{2000}' <= c <= '\U{200A}') || c == '\U{2028}' || c == '\U{2029}'
    || c == '\U{202F}' || c == '\U{205F}' || c == '\U{3000}'
  }

  /**
   * `Pointer`: the current field's start in the line buffer (`srcStart`),
   * its end (`srcEnd`), and the window to keep once surrounding whitespace
   * is trimmed (`dstStart`, `dstEnd`).
   */
  datatype Pointer = Pointer(srcStart: int, srcEnd: int, dstStart: int, dstEnd: int)

  const PointerStart: Pointer := Pointer(0, 0, 0, 0)

  /**
   * `AjustLine`: move `buffer[dstStart..dstEnd)` down to `srcStart` (forward
   * copy, only when `srcStart < dstStart`), then remove the surplus
   * `(srcEnd - srcStart) - (dstEnd - dstStart)` elements from the end.
   * `None` where the source throws: an index outside the buffer during the
   * copy, or `RemoveAt` on an empty buffer.
   */
  function Adjust(p: Pointer, buffer: seq<char>): (r: Option<seq<char>>)
  {
    var copied :=
      if p.srcStart < p.dstStart && p.dstStart < p.dstEnd then
        if 0 <= p.srcStart && p.dstEnd <= |buffer| then
          Some(buffer[..p.srcStart] + buffer[p.dstStart..p.dstEnd] + buffer[p.srcStart + (p.dstEnd - p.dstStart)..])
        else None
      else Some(buffer);
    var surplus := (p.srcEnd - p.srcStart) - (p.dstEnd - p.dstStart);
    match copied
    case None => None
    case Some(b) =>
      if surplus <= 0 then Some(b)
      else if surplus <= |b| then Some(b[..|b| - surplus])
      else None
  }

  /**
   * With the window inside the field and the field running to the end of the
   * buffer, `AjustLine` keeps everything before the field, puts exactly the
   * window in its place and leaves `Count == srcStart + (dstEnd - dstStart)`.
   */
  lemma AdjustKeepsWindow(p: Pointer, buffer: seq<char>)
    requires 0 <= p.srcStart <= p.dstStart <= p.dstEnd <= p.srcEnd == |buffer|
    ensures Adjust(p, buffer) == Some(buffer[..p.srcStart] + buffer[p.dstStart..p.dstEnd])
    ensures |Adjust(p, buffer).value| == p.srcStart + (p.dstEnd - p.dstStart)
  {
    var w := p.dstEnd - p.dstStart;
    if p.srcStart < p.dstStart && p.dstStart < p.dstEnd {
      var b := buffer[..p.srcStart] + buffer[p.dstStart..p.dstEnd] + buffer[p.srcStart + w..];
      assert b[..|b| - (p.srcEnd - p.srcStart - w)] == buffer[..p.srcStart] + buffer[p.dstStart..p.dstEnd];
    } else if p.srcStart == p.dstStart {
      assert buffer[..p.dstEnd] == buffer[..p.srcStart] + buffer[p.dstStart..p.dstEnd];
      if p.dstEnd == p.srcEnd {
        assert buffer[..p.dstEnd] == buffer;
      }
    } else {
      assert p.dstStart == p.dstEnd;
      assert buffer[..|buffer| - (p.srcEnd - p.srcStart)] == buffer[..p.srcStart] + buffer[p.dstStart..p.dstEnd];
    }
  }

  /**
   * The locals of one `ReadSplitLine` call: `esc`, `seqst`, `prev`, `pos`,
   * and what it has built so far: the line buffer, the boundary list `res`
   * and the echo written to `resbuf`.
   */
  datatype LineState = LineState(
    esc: bool, seqst: bool, prev: char, pos: Pointer,
    line: seq<char>, splits: seq<int>, echo: seq<char>)

  /** The state every call starts from: buffer cleared and `res` holding `0`. */
  const LineStart: LineState := LineState(false, true, '\0', PointerStart, [], [0], [])

  /** One character's effect: go on, end the record on an unescaped line feed, or throw. */
  datatype StepResult = Next(st: LineState) | Stop(st: LineState) | StepFault

  /** A call's outcome: the record ended with `rest` left unread, the input ran out, or the call threw. */
  datatype LineResult = Ended(st: LineState, rest: seq<char>) | Exhausted(st: LineState) | Faulted

  /**
   * On a line feed: if the previous character was a carriage return, remove
   * it from the buffer and from the echo and step `srcEnd` back.
   */
  function DropCR(s: LineState): Option<LineState>
  {
    if s.prev != '\r' then Some(s)
    else if |s.line| == 0 || |s.echo| == 0 then None
    else Some(s.(line := s.line[..|s.line| - 1], echo := s.echo[..|s.echo| - 1],
                 pos := s.pos.(srcEnd := s.pos.srcEnd - 1)))
  }

  /** The `"` case of both escape modes, without the trim bookkeeping. */
  function QuoteStep(s: LineState): LineState
  {
    var add := !s.esc && s.pos.srcStart != s.pos.srcEnd && s.prev == '"';
    var line := if add then s.line + ['"'] else s.line;
    var esc := if s.esc then false else s.pos.srcStart == s.pos.srcEnd || s.prev == '"';
    s.(esc := esc, line := line, echo := s.echo + ['"'], prev := '"')
  }

  /** The line feed inside an escape: the carriage return (if any) and the line feed are put back. */
  function EscapedNewline(s: LineState, hadCR: bool): LineState
  {
    var tail := if hadCR then ['\r', '\n'] else ['\n'];
    s.(line := s.line + tail, echo := s.echo + tail, prev := '\n')
  }

  /** `SplitByUsedEscape.ReadSplitLine`, one character. */
  function StepTrim(s: LineState, c: char): StepResult
  {
    if c == ',' then
      if !s.esc then
        match Adjust(s.pos, s.line)
        case None => StepFault
        case Some(l) =>
          Next(s.(line := l, splits := s.splits + [|l|], echo := s.echo + [c], seqst := true,
                  pos := s.pos.(srcStart := |l|, dstStart := |l|), prev := c))
      else Next(s.(echo := s.echo + [c], seqst := false, prev := c))
    else if c == '"' then
      var q := QuoteStep(s);
      Next(q.(seqst := false, pos := q.pos.(dstEnd := |q.line|)))
    else if c == '\n' then
      match DropCR(s)
      case None => StepFault
      case Some(s1) =>
        if s.esc then
          var e := EscapedNewline(s1, s.prev == '\r');
          Next(e.(seqst := false, pos := e.pos.(dstEnd := |e.line|)))
        else
          match Adjust(s1.pos, s1.line)
          case None => StepFault
          case Some(l) => Stop(s1.(seqst := false, line := l, splits := s1.splits + [|l|]))
    else
      var l := s.line + [c];
      var p := if IsWhiteSpace(c) then (if s.seqst then s.pos.(dstStart := s.pos.dstStart + 1) else s.pos)
               else s.pos.(dstEnd := |l|);
      Next(s.(line := l, echo := s.echo + [c], seqst := s.seqst && IsWhiteSpace(c),
              pos := p.(srcEnd := |l|), prev := c))
  }

  /** `SplitByUsedEscapeNoTrim.ReadSplitLine`, one character. */
  function StepNoTrim(s: LineState, c: char): StepResult
  {
    if c == ',' then
      if !s.esc then
        Next(s.(splits := s.splits + [|s.line|], echo := s.echo + [c],
                pos := s.pos.(srcStart := |s.line|), prev := c))
      else Next(s.(echo := s.echo + [c], prev := c))
    else if c == '"' then
      Next(QuoteStep(s))
    else if c == '\n' then
      match DropCR(s)
      case None => StepFault
      case Some(s1) =>
        if s.esc then Next(EscapedNewline(s1, s.prev == '\r'))
        else Stop(s1.(splits := s1.splits + [|s1.line|]))
    else
      var l := s.line + [c];
      Next(s.(line := l, echo := s.echo + [c], pos := s.pos.(srcEnd := |l|), prev := c))
  }

  /** `SplitByNotEscape.ReadSplitLine`, one character: `"` is an ordinary character. */
  function StepPlain(s: LineState, c: char): StepResult
  {
    if c == ',' then
      Next(s.(splits := s.splits + [|s.line|], echo := s.echo + [c],
              pos := s.pos.(srcStart := |s.line|), prev := c))
    else if c == '\n' then
      match DropCR(s)
      case None => StepFault
      case Some(s1) => Stop(s1.(splits := s1.splits + [|s1.line|]))
    else
      var l := s.line + [c];
      Next(s.(line := l, echo := s.echo + [c], pos := s.pos.(srcEnd := |l|), prev := c))
  }

  function StepChar(mode: ReadMode, s: LineState, c: char): StepResult
  {
    match mode
    case UseEscape => StepTrim(s, c)
    case UseEscapeNoTrim => StepNoTrim(s, c)
    case NotEscape => StepPlain(s, c)
  }

  /** Feed `input` to the state machine until a record ends, the input runs out, or a step throws. */
  function RunLine(mode: ReadMode, s: LineState, input: seq<char>): LineResult
    decreases |input|
  {
    if |input| == 0 then Exhausted(s)
    else match StepChar(mode, s, input[0])
      case StepFault => Faulted
      case Stop(s1) => Ended(s1, input[1..])
      case Next(s1) => RunLine(mode, s1, input[1..])
  }

  /** Splitting the input in two: a call that runs out resumes on the second part, one that ends or throws never reads it. */
  function Resume(mode: ReadMode, r: LineResult, b: seq<char>): LineResult
  {
    match r
    case Exhausted(t) => RunLine(mode, t, b)
    case Ended(t, rest) => Ended(t, rest + b)
    case Faulted => Faulted
  }

  lemma {:induction false} RunConcat(mode: ReadMode, s: LineState, a: seq<char>, b: seq<char>)
    ensures RunLine(mode, s, a + b) == Resume(mode, RunLine(mode, s, a), b)
    decreases |a|
  {
    if |a| > 0 {
      assert (a + b)[0] == a[0];
      assert (a + b)[1..] == a[1..] + b;
      if StepChar(mode, s, a[0]).Next? {
        RunConcat(mode, StepChar(mode, s, a[0]).st, a[1..], b);
      }
    } else {
      assert a + b == b;
    }
  }

  /** One whole `ReadSplitLine` call over the characters available to it. */
  function ReadLine(mode: ReadMode, input: seq<char>): LineResult
  {
    RunLine(mode, LineStart, input)
  }

  // ---------------------------------------------------------------------
  // Boundaries
  // ---------------------------------------------------------------------

  function Last<T>(s: seq<T>): T
    requires |s| > 0
  {
    s[|s| - 1]
  }

  predicate Sorted(b: seq<int>)
  {
    forall i, j :: 0 <= i < j < |b| ==> b[i] <= b[j]
  }

  /** What holds of every state a call passes through. */
  ghost predicate Inv(mode: ReadMode, s: LineState)
  {
    && |s.splits| > 0 && s.splits[0] == 0
    && (s.prev == '\r' ==> |s.line| > 0 && Last(s.line) == '\r' && |s.echo| > 0)
    && (mode != UseEscape ==>
          && Sorted(s.splits) && Last(s.splits) <= |s.line|
          && (s.prev == '\r' ==> Last(s.splits) < |s.line|))
  }

  /** What holds when a record has ended. */
  ghost predicate Finished(mode: ReadMode, s: LineState)
  {
    && |s.splits| > 1 && s.splits[0] == 0
    && Last(s.splits) == |s.line|
    && (mode != UseEscape ==> Sorted(s.splits))
  }

  /** Removing a carriage return keeps the buffer a prefix of what it was. */
  lemma DropCRLine(s: LineState)
    requires s.prev == '\r' && |s.line| > 0 && |s.echo| > 0
    ensures DropCR(s).Some? && DropCR(s).value.line == s.line[..|s.line| - 1]
    ensures DropCR(s).value.splits == s.splits
  {
  }

  lemma StepTrimInv(s: LineState, c: char)
    requires Inv(UseEscape, s)
    ensures StepTrim(s, c).Next? ==> Inv(UseEscape, StepTrim(s, c).st)
    ensures StepTrim(s, c).Stop? ==> Finished(UseEscape, StepTrim(s, c).st)
  {
    if c == '\n' && s.prev == '\r' {
      DropCRLine(s);
    }
  }

  lemma StepNoTrimInv(s: LineState, c: char)
    requires Inv(UseEscapeNoTrim, s)
    ensures StepNoTrim(s, c).Next? ==> Inv(UseEscapeNoTrim, StepNoTrim(s, c).st)
    ensures StepNoTrim(s, c).Stop? ==> Finished(UseEscapeNoTrim, StepNoTrim(s, c).st)
    ensures !StepNoTrim(s, c).StepFault?
  {
    if c == ',' && !s.esc {
      SortedSnoc(s.splits, |s.line|);
    } else if c == '\n' && !s.esc {
      if s.prev == '\r' {
        DropCRLine(s);
        SortedSnoc(s.splits, |s.line| - 1);
      } else {
        SortedSnoc(s.splits, |s.line|);
      }
    } else if c == '\n' && s.prev == '\r' {
      DropCRLine(s);
    }
  }

  lemma StepPlainInv(s: LineState, c: char)
    requires Inv(NotEscape, s)
    ensures StepPlain(s, c).Next? ==> Inv(NotEscape, StepPlain(s, c).st)
    ensures StepPlain(s, c).Stop? ==> Finished(NotEscape, StepPlain(s, c).st)
    ensures !StepPlain(s, c).StepFault?
  {
    if c == ',' {
      SortedSnoc(s.splits, |s.line|);
    } else if c == '\n' {
      if s.prev == '\r' {
        DropCRLine(s);
        SortedSnoc(s.splits, |s.line| - 1);
      } else {
        SortedSnoc(s.splits, |s.line|);
      }
    }
  }

  /** Appending a boundary no smaller than the last keeps the list ordered. */
  lemma SortedSnoc(b: seq<int>, x: int)
    requires Sorted(b) && |b| > 0 && Last(b) <= x
    ensures Sorted(b + [x])
  {
  }

  /**
   * One character keeps the boundary list starting with 0; a record that
   * ends has its last boundary at the buffer's end. In the two non-trimming
   * modes the boundaries stay ordered and within the buffer, and no
   * character throws.
   */
  lemma StepKeepsInv(mode: ReadMode, s: LineState, c: char)
    requires Inv(mode, s)
    ensures StepChar(mode, s, c).Next? ==> Inv(mode, StepChar(mode, s, c).st)
    ensures StepChar(mode, s, c).Stop? ==> Finished(mode, StepChar(mode, s, c).st)
    ensures mode != UseEscape ==> !StepChar(mode, s, c).StepFault?
  {
    match mode
    case UseEscape => StepTrimInv(s, c);
    case UseEscapeNoTrim => StepNoTrimInv(s, c);
    case NotEscape => StepPlainInv(s, c);
  }

  /**
   * Every call that does not throw returns a list starting with 0; an ended
   * record's last boundary is the buffer's length. In the two non-trimming
   * modes the boundaries never decrease and never pass the buffer's end,
   * and no call throws.
   */
  lemma {:induction false} RunKeepsInv(mode: ReadMode, s: LineState, input: seq<char>)
    requires Inv(mode, s)
    ensures RunLine(mode, s, input).Exhausted? ==> Inv(mode, RunLine(mode, s, input).st)
    ensures RunLine(mode, s, input).Ended? ==> Finished(mode, RunLine(mode, s, input).st)
    ensures mode != UseEscape ==> !RunLine(mode, s, input).Faulted?
    decreases |input|
  {
    if |input| > 0 {
      StepKeepsInv(mode, s, input[0]);
      var r := StepChar(mode, s, input[0]);
      if r.Next? {
        RunKeepsInv(mode, r.st, input[1..]);
      }
    }
  }

  /** `ReadSplitLine`'s list always starts with 0; in the non-trimming modes its boundaries are ordered and in range. */
  lemma ReadLineBoundaries(mode: ReadMode, input: seq<char>)
    ensures var r := ReadLine(mode, input);
      !r.Faulted? ==> |r.st.splits| > 0 && r.st.splits[0] == 0
    ensures var r := ReadLine(mode, input);
      mode != UseEscape ==> !r.Faulted? && Sorted(r.st.splits) && Last(r.st.splits) <= |r.st.line|
    ensures var r := ReadLine(mode, input);
      r.Ended? ==> Last(r.st.splits) == |r.st.line|
  {
    RunKeepsInv(mode, LineStart, input);
  }

  // ---------------------------------------------------------------------
  // Echo
  // ---------------------------------------------------------------------

  /** The text without a final carriage return. */
  function WithoutCR(t: seq<char>): (r: seq<char>)
    ensures |t| > 0 && Last(t) == '\r' ==> r + ['\r'] == t
    ensures !(|t| > 0 && Last(t) == '\r') ==> r == t
  {
    if |t| > 0 && Last(t) == '\r' then t[..|t| - 1] else t
  }

  /** `prev` is the last character echoed (or not a carriage return before any echo). */
  ghost predicate EchoTracks(s: LineState)
  {
    if |s.echo| == 0 then s.prev != '\r' else s.prev == Last(s.echo)
  }

  lemma StepEcho(mode: ReadMode, s: LineState, c: char)
    requires EchoTracks(s)
    ensures StepChar(mode, s, c).Next? ==>
      StepChar(mode, s, c).st.echo == s.echo + [c] && EchoTracks(StepChar(mode, s, c).st)
    ensures StepChar(mode, s, c).Stop? ==>
      c == '\n' && StepChar(mode, s, c).st.echo == WithoutCR(s.echo)
  {
    if c == '\n' && s.prev == '\r' && |s.echo| > 0 {
      assert s.echo[..|s.echo| - 1] + ['\r', '\n'] == s.echo + ['\n'];
    }
  }

  /** What a call appends to `resbuf` when it runs out: the whole input. */
  lemma {:induction false} RunEchoExhausted(mode: ReadMode, s: LineState, input: seq<char>)
    requires EchoTracks(s)
    ensures RunLine(mode, s, input).Exhausted? ==> RunLine(mode, s, input).st.echo == s.echo + input
    decreases |input|
  {
    if |input| > 0 {
      StepEcho(mode, s, input[0]);
      var r := StepChar(mode, s, input[0]);
      if r.Next? {
        RunEchoExhausted(mode, r.st, input[1..]);
        assert s.echo + [input[0]] + input[1..] == s.echo + input;
      }
    }
  }

  /** Moving the first character of the input over to the echo. */
  lemma EchoShift(e0: seq<char>, e1: seq<char>, input: seq<char>, k: int)
    requires 2 <= k <= |input| && e1 == e0 + [input[0]]
    ensures e1 + input[1..][..k - 2] == e0 + input[..k - 1]
  {
    assert input[..k - 1] == [input[0]] + input[1..][..k - 2];
  }

  /** The step that ends the record. */
  lemma RunStop(mode: ReadMode, s: LineState, input: seq<char>)
    requires |input| > 0 && StepChar(mode, s, input[0]).Stop?
    ensures RunLine(mode, s, input) == Ended(StepChar(mode, s, input[0]).st, input[1..])
  {}

  /** One step of `RunLine` that neither ends the record nor throws. */
  lemma RunNext(mode: ReadMode, s: LineState, input: seq<char>)
    requires |input| > 0 && StepChar(mode, s, input[0]).Next?
    ensures RunLine(mode, s, input) == RunLine(mode, StepChar(mode, s, input[0]).st, input[1..])
  {
  }

  /** Only a line feed ends a record, and in `NotEscape` mode a line feed never lets the record go on. */
  lemma StepStops(mode: ReadMode, s: LineState, c: char)
    ensures StepChar(mode, s, c).Stop? ==> c == '\n'
    ensures mode == NotEscape && c == '\n' ==> !StepChar(mode, s, c).Next?
  {
  }

  /**
   * Where a record ends (with state `t` and the unread `rest`): right after
   * a line feed, with everything after it left unread. In `NotEscape` mode
   * that line feed is the first one of the input.
   */
  lemma {:induction false} RunEnded(mode: ReadMode, s: LineState, input: seq<char>, t: LineState, rest: seq<char>)
    requires RunLine(mode, s, input) == Ended(t, rest)
    ensures var k := |input| - |rest|;
      && 0 < k <= |input| && rest == input[k..] && input[k - 1] == '\n'
      && (mode == NotEscape ==> '\n' !in input[..k - 1])
    decreases |input|
  {
    assert |input| > 0;
    StepStops(mode, s, input[0]);
    var r := StepChar(mode, s, input[0]);
    if r.Next? {
      var tail := input[1..];
      RunNext(mode, s, input);
      RunEnded(mode, r.st, tail, t, rest);
      var k := |input| - |rest|;
      assert tail[k - 1..] == input[k..];
      assert input[..k - 1] == [input[0]] + tail[..k - 2];
    } else {
      assert r.Stop? && rest == input[1..];
      assert input[..0] == [];
    }
  }

  /**
   * What a call appends to `resbuf` when a record ends: the record up to its
   * terminating line feed, without that line feed and without a carriage
   * return right before it.
   */
  lemma {:induction false} RunEchoEnded(mode: ReadMode, s: LineState, input: seq<char>, t: LineState, rest: seq<char>)
    requires EchoTracks(s) && RunLine(mode, s, input) == Ended(t, rest)
    ensures var k := |input| - |rest|;
      0 < k <= |input| && t.echo == WithoutCR(s.echo + input[..k - 1])
    decreases |input|, 1
  {
    assert |input| > 0;
    var r := StepChar(mode, s, input[0]);
    StepEcho(mode, s, input[0]);
    if r.Next? {
      RunEchoNext(mode, s.echo, r.st, input, t, rest);
    } else {
      assert r.Stop?;
      RunStop(mode, s, input);
      assert s.echo + input[..0] == s.echo;
    }
  }

  /** `RunEchoEnded` from the state `s1` reached by echoing `input[0]` after `e`. */
  lemma {:induction false} RunEchoNext(mode: ReadMode, e: seq<char>, s1: LineState, input: seq<char>, t: LineState, rest: seq<char>)
    requires |input| > 0 && EchoTracks(s1) && s1.echo == e + [input[0]]
    requires RunLine(mode, s1, input[1..]) == Ended(t, rest)
    ensures var k := |input| - |rest|;
      0 < k <= |input| && t.echo == WithoutCR(e + input[..k - 1])
    decreases |input|, 0
  {
    RunEchoEnded(mode, s1, input[1..], t, rest);
    EchoShift(e, s1.echo, input, |input| - |rest|);
  }

  /** The echo of a whole call, from the start state. */
  lemma ReadLineEcho(mode: ReadMode, input: seq<char>)
    ensures ReadLine(mode, input).Exhausted? ==> ReadLine(mode, input).st.echo == input
    ensures ReadLine(mode, input).Ended? ==>
      var r := ReadLine(mode, input);
      var k := |input| - |r.rest|;
      && 0 < k <= |input| && r.rest == input[k..] && input[k - 1] == '\n'
      && r.st.echo == WithoutCR(input[..k - 1])
      && (mode == NotEscape ==> '\n' !in input[..k - 1])
  {
    var r := ReadLine(mode, input);
    if r.Exhausted? {
      RunEchoExhausted(mode, LineStart, input);
      assert [] + input == input;
    } else if r.Ended? {
      RunEnded(mode, LineStart, input, r.st, r.rest);
      RunEchoEnded(mode, LineStart, input, r.st, r.rest);
      var k := |input| - |r.rest|;
      assert [] + input[..k - 1] == input[..k - 1];
    }
  }

  // ---------------------------------------------------------------------
  // Fields of a NotEscape record
  // ---------------------------------------------------------------------

  predicate Bounds(line: seq<char>, b: seq<int>)
  {
    |b| > 0 && 0 <= b[0] && Sorted(b) && Last(b) <= |line|
  }

  /** The fields a boundary list cuts the buffer into: `line[b[i]..b[i+1])`, as `ReadGroup` does. */
  function Fields(line: seq<char>, b: seq<int>): (fs: seq<seq<char>>)
    requires Bounds(line, b)
    ensures |fs| == |b| - 1
    decreases |b|
  {
    if |b| == 1 then []
    else
      var p := b[..|b| - 1];
      assert Last(p) == b[|b| - 2];
      Fields(line, p) + [line[Last(p)..Last(b)]]
  }

  /** The fields joined back with commas. */
  function Join(fs: seq<seq<char>>): seq<char>
  {
    if |fs| == 0 then []
    else if |fs| == 1 then fs[0]
    else Join(fs[..|fs| - 1]) + [','] + Last(fs)
  }

  /** Field `i` is the buffer between boundaries `i` and `i + 1`. */
  lemma {:induction false} FieldsAt(line: seq<char>, b: seq<int>, i: int)
    requires Bounds(line, b) && 0 <= i < |b| - 1
    ensures 0 <= b[i] <= b[i + 1] <= |line|
    ensures Fields(line, b)[i] == line[b[i]..b[i + 1]]
    decreases |b|
  {
    var p := b[..|b| - 1];
    assert Last(p) == b[|b| - 2];
    if i < |b| - 2 {
      FieldsAt(line, p, i);
    }
  }

  lemma FieldsSnoc(line: seq<char>, b: seq<int>, x: int)
    requires Bounds(line, b) && Last(b) <= x <= |line|
    ensures Bounds(line, b + [x])
    ensures Fields(line, b + [x]) == Fields(line, b) + [line[Last(b)..x]]
  {
    assert (b + [x])[..|b|] == b;
  }

  /** The fields depend only on the buffer up to the last boundary. */
  lemma {:induction false} FieldsAgree(l1: seq<char>, l2: seq<char>, b: seq<int>)
    requires Bounds(l1, b) && Bounds(l2, b)
    requires l1[..Last(b)] == l2[..Last(b)]
    ensures Fields(l1, b) == Fields(l2, b)
    decreases |b|
  {
    if |b| > 1 {
      var p := b[..|b| - 1];
      assert Last(p) <= Last(b);
      assert l1[..Last(p)] == l1[..Last(b)][..Last(p)];
      assert l2[..Last(p)] == l2[..Last(b)][..Last(p)];
      FieldsAgree(l1, l2, p);
      assert l1[Last(p)..Last(b)] == l1[..Last(b)][Last(p)..];
      assert l2[Last(p)..Last(b)] == l2[..Last(b)][Last(p)..];
    }
  }

  lemma JoinSnoc(fs: seq<seq<char>>, f: seq<char>, x: seq<char>)
    ensures Join(fs + [f + x]) == Join(fs + [f]) + x
  {
    if |fs| > 0 {
      assert (fs + [f + x])[..|fs|] == fs;
      assert (fs + [f])[..|fs|] == fs;
    }
  }

  lemma JoinEmptyField(fs: seq<seq<char>>)
    requires |fs| > 0
    ensures Join(fs + [[]]) == Join(fs) + [',']
  {
    assert (fs + [[]])[..|fs|] == fs;
  }

  /** A `NotEscape` call in progress: the echo is the buffer's fields, with the open one last, joined by commas. */
  ghost predicate PlainInv(s: LineState)
  {
    && Inv(NotEscape, s) && EchoTracks(s)
    && ',' !in s.line && '\n' !in s.line
    && Bounds(s.line, s.splits + [|s.line|])
    && s.echo == Join(Fields(s.line, s.splits + [|s.line|]))
  }

  /** A finished `NotEscape` record: the echo is its fields joined by commas, and no field holds a comma or a line feed. */
  ghost predicate PlainRecord(s: LineState)
  {
    && Bounds(s.line, s.splits) && Last(s.splits) == |s.line|
    && ',' !in s.line && '\n' !in s.line
    && s.echo == Join(Fields(s.line, s.splits))
  }

  lemma StartPlain()
    ensures PlainInv(LineStart)
  {
    assert Fields([], [0, 0]) == [[]];
  }

  lemma PlainComma(s: LineState)
    requires PlainInv(s)
    ensures StepPlain(s, ',').Next? && PlainInv(StepPlain(s, ',').st)
  {
    StepKeepsInv(NotEscape, s, ',');
    StepEcho(NotEscape, s, ',');
    CloseEmptyField(s.line, s.splits + [|s.line|]);
  }

  /** Closing a field at the end of the buffer adds an empty field: the joined text gains a comma. */
  lemma CloseEmptyField(line: seq<char>, b: seq<int>)
    requires Bounds(line, b) && Last(b) == |line| && |b| > 1
    ensures Bounds(line, b + [|line|])
    ensures Join(Fields(line, b + [|line|])) == Join(Fields(line, b)) + [',']
  {
    FieldsSnoc(line, b, |line|);
    assert line[|line|..|line|] == [];
    JoinEmptyField(Fields(line, b));
  }

  lemma PlainOrdinary(s: LineState, c: char)
    requires PlainInv(s) && c != ',' && c != '\n'
    ensures StepPlain(s, c).Next? && PlainInv(StepPlain(s, c).st)
  {
    StepKeepsInv(NotEscape, s, c);
    StepEcho(NotEscape, s, c);
    var l := s.line + [c];
    assert l[..|l| - 1] == s.line;
    DropLastChar(l, s.splits);
    NotInSnoc(s.line, c, ',');
    NotInSnoc(s.line, c, '\n');
  }

  lemma NotInSnoc(line: seq<char>, c: char, x: char)
    requires x !in line && c != x
    ensures x !in line + [c]
  {
  }

  lemma SplitLast(line: seq<char>, L: int)
    requires 0 <= L < |line|
    ensures line[L..|line|] == line[L..|line| - 1] + [Last(line)]
  {
    assert line[L..|line|] == line[L..|line| - 1] + [line[|line| - 1]];
  }

  /** The last unit of the open field is the last unit of the joined text: removing it from the buffer removes it there. */
  lemma DropLastChar(line: seq<char>, b: seq<int>)
    requires Bounds(line, b) && Last(b) < |line|
    ensures Bounds(line, b + [|line|]) && Bounds(line[..|line| - 1], b + [|line| - 1])
    ensures Join(Fields(line, b + [|line|])) == Join(Fields(line[..|line| - 1], b + [|line| - 1])) + [Last(line)]
  {
    var L := Last(b);
    var n := |line|;
    var l := line[..n - 1];
    FieldsSnoc(line, b, n);
    FieldsCut(line, b, n - 1);
    SplitLast(line, L);
    JoinDropLast(Fields(line, b), line[L..n - 1], Last(line), Fields(line, b + [n]), Fields(l, b + [n - 1]));
  }

  lemma JoinDropLast(fs: seq<seq<char>>, f: seq<char>, c: char, x: seq<seq<char>>, y: seq<seq<char>>)
    requires x == fs + [f + [c]] && y == fs + [f]
    ensures Join(x) == Join(y) + [c]
  {
    JoinSnoc(fs, f, [c]);
  }

  /** Cutting the buffer at `k` and closing the open field there. */
  lemma FieldsCut(line: seq<char>, b: seq<int>, k: int)
    requires Bounds(line, b) && Last(b) <= k <= |line|
    ensures Bounds(line[..k], b + [k])
    ensures Fields(line[..k], b + [k]) == Fields(line, b) + [line[Last(b)..k]]
  {
    FieldsPrefix(line, k, b);
    FieldsSnoc(line[..k], b, k);
    assert line[..k][Last(b)..k] == line[Last(b)..k];
  }

  /** Cutting the buffer anywhere after the last boundary leaves the fields as they are. */
  lemma FieldsPrefix(line: seq<char>, k: int, b: seq<int>)
    requires Bounds(line, b) && Last(b) <= k <= |line|
    ensures Bounds(line[..k], b) && Fields(line[..k], b) == Fields(line, b)
  {
    assert line[..k][..Last(b)] == line[..Last(b)];
    FieldsAgree(line[..k], line, b);
  }

  /** A line feed right after a carriage return: both leave the record. */
  lemma PlainCRLF(s: LineState)
    requires PlainInv(s) && s.prev == '\r'
    ensures StepPlain(s, '\n').Stop? && PlainRecord(StepPlain(s, '\n').st)
  {
    var line := s.line;
    var n := |line|;
    var l := line[..n - 1];
    DropCRLine(s);
    var t := StepPlain(s, '\n').st;
    assert t.line == l && t.splits == s.splits + [n - 1] && t.echo == s.echo[..|s.echo| - 1];
    DropLastChar(line, s.splits);
    NotInPrefix(line, n - 1, ',');
    NotInPrefix(line, n - 1, '\n');
  }

  lemma NotInPrefix(line: seq<char>, k: int, x: char)
    requires 0 <= k <= |line| && x !in line
    ensures x !in line[..k]
  {
    assert line == line[..k] + line[k..];
  }

  lemma PlainNewline(s: LineState)
    requires PlainInv(s)
    ensures StepPlain(s, '\n').Stop? && PlainRecord(StepPlain(s, '\n').st)
  {
    if s.prev == '\r' {
      PlainCRLF(s);
    } else {
      StepKeepsInv(NotEscape, s, '\n');
      StepEcho(NotEscape, s, '\n');
    }
  }

  lemma StepPlainRecord(s: LineState, c: char)
    requires PlainInv(s)
    ensures StepPlain(s, c).Next? ==> PlainInv(StepPlain(s, c).st)
    ensures StepPlain(s, c).Stop? ==> PlainRecord(StepPlain(s, c).st)
    ensures !StepPlain(s, c).StepFault?
  {
    if c == ',' {
      PlainComma(s);
    } else if c == '\n' {
      PlainNewline(s);
    } else {
      PlainOrdinary(s, c);
    }
  }

  lemma {:induction false} RunPlainRecord(s: LineState, input: seq<char>)
    requires PlainInv(s)
    ensures RunLine(NotEscape, s, input).Ended? ==> PlainRecord(RunLine(NotEscape, s, input).st)
    ensures RunLine(NotEscape, s, input).Exhausted? ==> PlainInv(RunLine(NotEscape, s, input).st)
    ensures !RunLine(NotEscape, s, input).Faulted?
    decreases |input|
  {
    if |input| > 0 {
      StepPlainRecord(s, input[0]);
      var r := StepPlain(s, input[0]);
      if r.Next? {
        RunPlainRecord(r.st, input[1..]);
      }
    }
  }

  /**
   * `NotEscape` splitting and comma joining are inverse: joining the fields
   * of an ended record with commas gives back exactly the echoed record, and
   * no field holds a comma or a line feed. When the input runs out first
   * the same holds only once the buffer's end is added as a boundary, which
   * the returned list does not hold.
   */
  lemma PlainFieldsJoin(input: seq<char>)
    ensures var r := ReadLine(NotEscape, input);
      r.Ended? ==> PlainRecord(r.st)
    ensures var r := ReadLine(NotEscape, input);
      r.Exhausted? ==> PlainInv(r.st)
  {
    StartPlain();
    RunPlainRecord(LineStart, input);
  }

  // ---------------------------------------------------------------------
  // Trimming an unquoted field
  // ---------------------------------------------------------------------

  /** How many whitespace characters the field starts with. */
  function Lead(f: seq<char>): (n: nat)
    ensures n <= |f|
    ensures n < |f| ==> !IsWhiteSpace(f[n])
  {
    if |f| == 0 then 0 else if IsWhiteSpace(f[0]) then 1 + Lead(f[1..]) else 0
  }

  /** Where the field's trailing whitespace starts. */
  function End(f: seq<char>): (n: nat)
    ensures n <= |f|
    ensures n > 0 ==> !IsWhiteSpace(f[n - 1])
  {
    if |f| == 0 then 0 else if IsWhiteSpace(Last(f)) then End(f[..|f| - 1]) else |f|
  }

  /** `Lead` and `End` cut off exactly the whitespace at either end. */
  lemma {:induction false} LeadEndWhite(f: seq<char>)
    ensures forall i :: 0 <= i < Lead(f) ==> IsWhiteSpace(f[i])
    ensures forall i :: End(f) <= i < |f| ==> IsWhiteSpace(f[i])
    decreases |f|
  {
    if |f| > 0 {
      LeadEndWhite(f[1..]);
      LeadEndWhite(f[..|f| - 1]);
    }
  }

  /** A field with a non-whitespace character keeps at least that one. */
  lemma LeadBeforeEnd(f: seq<char>)
    requires Lead(f) < |f|
    ensures Lead(f) < End(f)
  {
    LeadEndWhite(f);
  }

  /** The field without its leading and trailing whitespace. */
  function Trim(f: seq<char>): (t: seq<char>)
    requires Lead(f) <= End(f)
  {
    f[Lead(f)..End(f)]
  }

  lemma {:induction false} LeadSnoc(f: seq<char>, c: char)
    ensures Lead(f + [c]) == if Lead(f) == |f| && IsWhiteSpace(c) then |f| + 1 else Lead(f)
    decreases |f|
  {
    if |f| > 0 {
      assert (f + [c])[0] == f[0];
      assert (f + [c])[1..] == f[1..] + [c];
      if IsWhiteSpace(f[0]) {
        LeadSnoc(f[1..], c);
      }
    } else {
      assert f + [c] == [c];
      assert [c][1..] == [];
    }
  }

  lemma EndSnoc(f: seq<char>, c: char)
    ensures End(f + [c]) == if IsWhiteSpace(c) then End(f) else |f| + 1
  {
    assert (f + [c])[..|f|] == f;
  }

  /** A field of ordinary characters: no quote, comma or line feed. */
  predicate Ordinary(f: seq<char>)
  {
    forall i :: 0 <= i < |f| ==> f[i] != ',' && f[i] != '"' && f[i] != '\n'
  }

  /** Where a trim-mode field starts: right after a boundary, outside quotes. */
  predicate FieldStart(s: LineState)
  {
    !s.esc && s.seqst && s.pos.srcStart == s.pos.dstStart == |s.line|
  }

  /**
   * The state after the ordinary characters `f` of a field: the whitespace
   * prefix moved `dstStart`, and once a non-whitespace character has been
   * seen `dstEnd` sits right after the last one.
   */
  ghost predicate TrimSeg(s0: LineState, f: seq<char>, t: LineState)
  {
    var base := |s0.line|;
    && t.line == s0.line + f && t.splits == s0.splits && t.echo == s0.echo + f && !t.esc
    && t.pos.srcStart == base && t.pos.dstStart == base + Lead(f)
    && t.seqst == (Lead(f) == |f|)
    && (Lead(f) < |f| ==> t.pos.dstEnd == base + End(f))
    && (|f| > 0 ==> t.pos.srcEnd == base + |f| && t.prev == Last(f))
    && (|f| == 0 ==> t == s0)
  }

  lemma TrimStep(s0: LineState, g: seq<char>, t: LineState, c: char)
    requires FieldStart(s0) && TrimSeg(s0, g, t)
    requires c != ',' && c != '"' && c != '\n'
    ensures StepTrim(t, c).Next? && TrimSeg(s0, g + [c], StepTrim(t, c).st)
  {
    LeadSnoc(g, c);
    EndSnoc(g, c);
    assert t.line + [c] == s0.line + (g + [c]);
    assert t.echo + [c] == s0.echo + (g + [c]);
  }

  lemma {:induction false} TrimRun(s0: LineState, f: seq<char>)
    requires FieldStart(s0) && Ordinary(f)
    ensures RunLine(UseEscape, s0, f).Exhausted?
    ensures TrimSeg(s0, f, RunLine(UseEscape, s0, f).st)
    decreases |f|
  {
    if |f| == 0 {
      assert s0.line + f == s0.line && s0.echo + f == s0.echo;
    } else {
      var g := f[..|f| - 1];
      var c := Last(f);
      assert f == g + [c];
      assert Ordinary(g) by {
        forall i | 0 <= i < |g| ensures g[i] == f[i] { }
      }
      TrimRun(s0, g);
      RunConcat(UseEscape, s0, g, [c]);
      var t := RunLine(UseEscape, s0, g).st;
      TrimStep(s0, g, t, c);
      assert [c][1..] == [];
      assert RunLine(UseEscape, t, [c]) == Exhausted(StepTrim(t, c).st);
    }
  }

  /**
   * Trim mode stores exactly the field without its surrounding whitespace:
   * for ordinary characters `f` holding at least one non-whitespace
   * character, the closing comma leaves the buffer as it was plus `Trim(f)`,
   * adds the new length as a boundary and starts the next field.
   */
  lemma TrimmedField(s0: LineState, f: seq<char>)
    requires FieldStart(s0) && Ordinary(f) && Lead(f) < |f|
    ensures Lead(f) <= End(f)
    ensures var r := RunLine(UseEscape, s0, f + [',']);
      && r.Exhausted? && r.st.line == s0.line + Trim(f)
      && r.st.splits == s0.splits + [|s0.line| + |Trim(f)|]
      && FieldStart(r.st)
  {
    TrimRun(s0, f);
    RunConcat(UseEscape, s0, f, [',']);
    var t := RunLine(UseEscape, s0, f).st;
    TrimComma(s0, f, t);
    assert [','][1..] == [];
    assert RunLine(UseEscape, t, [',']) == Exhausted(StepTrim(t, ',').st);
  }

  /**
   * The same for the last field of a record: for ordinary characters `f`
   * holding a non-whitespace character, the line feed ends the record with
   * the buffer as it was plus `Trim(f)` and the new length as the last
   * boundary, leaving `rest` unread. A carriage return ending `f` is
   * whitespace, so it is trimmed either way.
   */
  lemma TrimmedLastField(s0: LineState, f: seq<char>, rest: seq<char>)
    requires FieldStart(s0) && Ordinary(f) && Lead(f) < |f|
    ensures Lead(f) <= End(f)
    ensures var r := RunLine(UseEscape, s0, f + ['\n'] + rest);
      && r.Ended? && r.rest == rest && r.st.line == s0.line + Trim(f)
      && r.st.splits == s0.splits + [|r.st.line|]
  {
    TrimRun(s0, f);
    var t := RunLine(UseEscape, s0, f).st;
    TrimLineFeed(s0, f, t, rest);
    assert f + ['\n'] + rest == f + (['\n'] + rest);
    RunConcat(UseEscape, s0, f, ['\n'] + rest);
  }

  lemma TrimLineFeed(s0: LineState, f: seq<char>, t: LineState, rest: seq<char>)
    requires FieldStart(s0) && TrimSeg(s0, f, t) && Lead(f) < |f|
    ensures Lead(f) <= End(f)
    ensures var r := RunLine(UseEscape, t, ['\n'] + rest);
      && r.Ended? && r.rest == rest && r.st.line == s0.line + Trim(f)
      && r.st.splits == s0.splits + [|r.st.line|]
  {
    NewlineWindow(s0, f, t);
    NewlineRecord(t, rest, s0.splits, s0.line + Trim(f));
  }

  /** A record ended by CR LF: the carriage return is dropped and the field is trimmed as before. */
  lemma TrimmedLastFieldCRLF(s0: LineState, f: seq<char>, rest: seq<char>)
    requires FieldStart(s0) && Ordinary(f) && Lead(f) < |f|
    ensures Lead(f) <= End(f)
    ensures var r := RunLine(UseEscape, s0, f + ['\r', '\n'] + rest);
      && r.Ended? && r.rest == rest && r.st.line == s0.line + Trim(f)
      && r.st.splits == s0.splits + [|r.st.line|]
  {
    var g := f + ['\r'];
    TrimAddsCR(f);
    assert g + ['\n'] + rest == f + ['\r', '\n'] + rest;
    TrimmedLastField(s0, g, rest);
  }

  /** An ordinary field followed by a carriage return is still ordinary, and trims to the same text. */
  lemma TrimAddsCR(f: seq<char>)
    requires Ordinary(f) && Lead(f) < |f|
    ensures Ordinary(f + ['\r']) && Lead(f + ['\r']) == Lead(f) < |f|
    ensures Lead(f) <= End(f) && End(f + ['\r']) == End(f)
    ensures Trim(f + ['\r']) == Trim(f)
  {
    OrdinarySnoc(f, '\r');
    LeadSnoc(f, '\r');
    EndSnoc(f, '\r');
    LeadBeforeEnd(f);
    SliceOfSnoc(f, '\r', Lead(f), End(f));
  }

  lemma OrdinarySnoc(f: seq<char>, c: char)
    requires Ordinary(f) && c != ',' && c != '"' && c != '\n'
    ensures Ordinary(f + [c])
  {
    var g := f + [c];
    forall i | 0 <= i < |g| ensures g[i] != ',' && g[i] != '"' && g[i] != '\n' {
      if i < |f| { assert g[i] == f[i]; }
    }
  }

  lemma SliceOfSnoc<T>(f: seq<T>, c: T, i: int, j: int)
    requires 0 <= i <= j <= |f|
    ensures (f + [c])[i..j] == f[i..j]
  {
  }

  /** A line feed outside quotes ends the record with whatever `AjustLine` leaves, once any carriage return is dropped. */
  lemma NewlineEnds(t: LineState, rest: seq<char>)
    requires !t.esc && DropCR(t).Some? && Adjust(DropCR(t).value.pos, DropCR(t).value.line).Some?
    ensures var s1 := DropCR(t).value;
      var l := Adjust(s1.pos, s1.line).value;
      RunLine(UseEscape, t, ['\n'] + rest) == Ended(s1.(seqst := false, line := l, splits := s1.splits + [|l|]), rest)
  {
    assert (['\n'] + rest)[0] == '\n';
    assert (['\n'] + rest)[1..] == rest;
  }

  lemma NewlineRecord(t: LineState, rest: seq<char>, splits: seq<int>, kept: seq<char>)
    requires !t.esc && DropCR(t).Some? && DropCR(t).value.splits == splits
    requires Adjust(DropCR(t).value.pos, DropCR(t).value.line) == Some(kept)
    ensures var r := RunLine(UseEscape, t, ['\n'] + rest);
      r.Ended? && r.rest == rest && r.st.line == kept && r.st.splits == splits + [|kept|]
  {
    NewlineEnds(t, rest);
  }

  /** After such a field the line feed's `AjustLine` keeps exactly the trimmed field, with or without a carriage return. */
  lemma NewlineWindow(s0: LineState, f: seq<char>, t: LineState)
    requires FieldStart(s0) && TrimSeg(s0, f, t) && Lead(f) < |f|
    ensures Lead(f) <= End(f)
    ensures DropCR(t).Some? && DropCR(t).value.splits == s0.splits
    ensures Adjust(DropCR(t).value.pos, DropCR(t).value.line) == Some(s0.line + Trim(f))
  {
    LeadBeforeEnd(f);
    if t.prev != '\r' {
      AdjustTrims(s0.line, f, t.pos, t.line);
    } else {
      var g := f[..|f| - 1];
      TrimDropsCR(f);
      assert t.line[..|t.line| - 1] == s0.line + g;
      var s1 := DropCR(t).value;
      AdjustTrims(s0.line, g, s1.pos, s1.line);
    }
  }

  /** A carriage return ending a field is trailing whitespace: trimming ignores it. */
  lemma TrimDropsCR(f: seq<char>)
    requires |f| > 0 && Last(f) == '\r' && Lead(f) < |f|
    ensures var g := f[..|f| - 1];
      && f == g + ['\r'] && Lead(g) == Lead(f) < |g| && End(g) == End(f)
      && Lead(g) <= End(g) && Trim(g) == Trim(f)
  {
    var g := f[..|f| - 1];
    assert f == g + ['\r'];
    LeadSnoc(g, '\r');
    EndSnoc(g, '\r');
    LeadBeforeEnd(f);
  }

  /** At the end of a field with a non-whitespace character, `AjustLine` leaves exactly the trimmed field. */
  lemma AdjustTrims(prefix: seq<char>, f: seq<char>, p: Pointer, line: seq<char>)
    requires Lead(f) < |f| && line == prefix + f
    requires p.srcStart == |prefix| && p.srcEnd == |prefix| + |f|
    requires p.dstStart == |prefix| + Lead(f) && p.dstEnd == |prefix| + End(f)
    ensures Lead(f) < End(f)
    ensures Adjust(p, line) == Some(prefix + Trim(f))
  {
    LeadBeforeEnd(f);
    WindowOfConcat(prefix, f, p, line, Lead(f), End(f));
  }

  /** Keeping the window `lo..hi` of a field that ends the buffer. */
  lemma WindowOfConcat(prefix: seq<char>, f: seq<char>, p: Pointer, line: seq<char>, lo: int, hi: int)
    requires line == prefix + f && 0 <= lo <= hi <= |f|
    requires p.srcStart == |prefix| && p.srcEnd == |line|
    requires p.dstStart == |prefix| + lo && p.dstEnd == |prefix| + hi
    ensures Adjust(p, line) == Some(prefix + f[lo..hi])
  {
    var b := |prefix|;
    AdjustKeepsWindow(p, line);
    assert line[..b] == prefix;
    assert line[p.dstStart..p.dstEnd] == f[lo..hi];
  }

  lemma TrimComma(s0: LineState, f: seq<char>, t: LineState)
    requires FieldStart(s0) && TrimSeg(s0, f, t) && Lead(f) < |f|
    ensures Lead(f) <= End(f)
    ensures var n := StepTrim(t, ',');
      && n.Next? && n.st.line == s0.line + Trim(f)
      && n.st.splits == s0.splits + [|s0.line| + |Trim(f)|]
      && FieldStart(n.st)
  {
    var b := |s0.line|;
    AdjustTrims(s0.line, f, t.pos, t.line);
    var kept := s0.line + Trim(f);
    var n := t.(line := kept, splits := t.splits + [|kept|], echo := t.echo + [','], seqst := true,
                pos := t.pos.(srcStart := |kept|, dstStart := |kept|), prev := ',');
    assert StepTrim(t, ',') == Next(n);
  }

  /**
   * A field of whitespace only leaves `dstEnd` where the previous field put
   * it, so the window `AjustLine` is given is not inside the field whenever
   * that stale value lies before the field's end.
   */
  lemma BlankFieldKeepsStaleEnd(s0: LineState, f: seq<char>)
    requires FieldStart(s0) && Ordinary(f) && Lead(f) == |f|
    ensures var t := RunLine(UseEscape, s0, f);
      t.Exhausted? && t.st.pos.dstEnd == s0.pos.dstEnd && t.st.pos.dstStart == |s0.line| + |f|
  {
    TrimRun(s0, f);
    var t := RunLine(UseEscape, s0, f).st;
    if |f| > 0 {
      BlankKeepsEnd(s0, f);
    }
  }

  lemma {:induction false} BlankKeepsEnd(s0: LineState, f: seq<char>)
    requires FieldStart(s0) && Ordinary(f) && Lead(f) == |f|
    ensures RunLine(UseEscape, s0, f).Exhausted?
    ensures RunLine(UseEscape, s0, f).st.pos.dstEnd == s0.pos.dstEnd
    decreases |f|
  {
    TrimRun(s0, f);
    if |f| > 0 {
      var g := f[..|f| - 1];
      var c := Last(f);
      assert f == g + [c];
      assert Ordinary(g) by {
        forall i | 0 <= i < |g| ensures g[i] == f[i] { }
      }
      LeadSnoc(g, c);
      BlankKeepsEnd(s0, g);
      RunConcat(UseEscape, s0, g, [c]);
      var t := RunLine(UseEscape, s0, g).st;
      assert [c][1..] == [];
      assert RunLine(UseEscape, t, [c]) == Exhausted(StepTrim(t, c).st);
    }
  }

  // ---------------------------------------------------------------------
  // Quoted fields
  // ---------------------------------------------------------------------

  /** A field body as it is written between quotes: every quote doubled. */
  function Escape(b: seq<char>): (e: seq<char>)
    ensures |e| >= |b|
  {
    if |b| == 0 then []
    else Escape(b[..|b| - 1]) + (if Last(b) == '"' then ['"', '"'] else [Last(b)])
  }

  /** What the escape modes store of a quoted body: the commas inside quotes go only to the echo. */
  function Stored(b: seq<char>): (t: seq<char>)
    ensures |t| <= |b|
  {
    if |b| == 0 then []
    else Stored(b[..|b| - 1]) + (if Last(b) == ',' then [] else [Last(b)])
  }

  /** A body whose doubled quotes all come after a stored character: the first is no comma, quote, CR or LF. */
  predicate QuotableBody(b: seq<char>)
  {
    |b| > 0 ==> b[0] != ',' && b[0] != '"' && b[0] != '\n' && b[0] != '\r'
  }

  /** Where a quote opens an escape: outside quotes, with the field's start and end both at the buffer's end. */
  predicate QuoteReady(mode: ReadMode, s: LineState)
  {
    && !s.esc && s.pos.srcStart == s.pos.srcEnd == |s.line|
    && (mode == UseEscape ==> s.pos.dstStart == |s.line|)
  }

  /** The state inside the quotes after the escaped form of `b`. */
  ghost predicate QuoteSeg(mode: ReadMode, s0: LineState, b: seq<char>, t: LineState)
  {
    var base := |s0.line|;
    && t.esc && t.line == s0.line + Stored(b) && t.splits == s0.splits
    && t.pos.srcStart == base
    && (|b| == 0 ==> t.pos.srcEnd == base)
    && (|b| > 0 ==> base < t.pos.srcEnd <= |t.line|)
    && (t.prev == '\r' ==> base + 1 < |t.line| && Last(t.line) == '\r' && t.pos.srcEnd == |t.line| && |t.echo| > 0)
    && (mode == UseEscape ==> !t.seqst && t.pos.dstStart == base)
  }

  /** How one body character is written between quotes. */
  function Unit(c: char): seq<char>
  {
    if c == '"' then ['"', '"'] else [c]
  }

  lemma EscapeSnoc(b: seq<char>, c: char)
    ensures Escape(b + [c]) == Escape(b) + Unit(c)
  {
    assert (b + [c])[..|b|] == b;
  }

  lemma StoredSnoc(b: seq<char>, c: char)
    ensures Stored(b + [c]) == Stored(b) + (if c == ',' then [] else [c])
  {
    assert (b + [c])[..|b|] == b;
  }

  /** A quote where a field starts opens the escape and stores nothing. */
  lemma OpenQuote(mode: ReadMode, s0: LineState)
    requires mode != NotEscape && QuoteReady(mode, s0)
    ensures StepChar(mode, s0, '"').Next? && QuoteSeg(mode, s0, [], StepChar(mode, s0, '"').st)
  {
    assert s0.line + Stored([]) == s0.line;
  }

  /** An ordinary character inside quotes is stored and ends the field so far. */
  lemma QuoteOrdinary(mode: ReadMode, s0: LineState, b: seq<char>, t: LineState, c: char)
    requires mode != NotEscape && QuoteSeg(mode, s0, b, t)
    requires c != ',' && c != '"' && c != '\n' && (|b| == 0 ==> c != '\r')
    ensures StepChar(mode, t, c).Next? && QuoteSeg(mode, s0, b + [c], StepChar(mode, t, c).st)
  {
    StoredSnoc(b, c);
    assert t.line + [c] == s0.line + Stored(b + [c]);
  }

  /** A comma inside quotes goes to the echo only. */
  lemma QuoteComma(mode: ReadMode, s0: LineState, b: seq<char>, t: LineState)
    requires mode != NotEscape && QuoteSeg(mode, s0, b, t) && |b| > 0
    ensures StepChar(mode, t, ',').Next? && QuoteSeg(mode, s0, b + [','], StepChar(mode, t, ',').st)
  {
    StoredSnoc(b, ',');
  }

  /** A line feed inside quotes is stored, after the carriage return before it if there is one. */
  lemma QuoteNewline(mode: ReadMode, s0: LineState, b: seq<char>, t: LineState)
    requires mode != NotEscape && QuoteSeg(mode, s0, b, t) && |b| > 0
    ensures StepChar(mode, t, '\n').Next? && QuoteSeg(mode, s0, b + ['\n'], StepChar(mode, t, '\n').st)
  {
    StoredSnoc(b, '\n');
    if t.prev == '\r' {
      QuoteCRLF(mode, s0, b, t);
    } else {
      assert t.line + ['\n'] == s0.line + Stored(b + ['\n']);
    }
  }

  lemma QuoteCRLF(mode: ReadMode, s0: LineState, b: seq<char>, t: LineState)
    requires mode != NotEscape && QuoteSeg(mode, s0, b, t) && |b| > 0 && t.prev == '\r'
    ensures StepChar(mode, t, '\n').Next? && QuoteSeg(mode, s0, b + ['\n'], StepChar(mode, t, '\n').st)
  {
    StoredSnoc(b, '\n');
    var kept := t.line[..|t.line| - 1];
    assert kept + ['\r', '\n'] == t.line + ['\n'];
    assert t.line + ['\n'] == s0.line + Stored(b + ['\n']);
  }

  /** A doubled quote inside quotes closes and reopens the escape and stores one quote. */
  lemma QuotePair(mode: ReadMode, s0: LineState, b: seq<char>, t: LineState)
    requires mode != NotEscape && QuoteSeg(mode, s0, b, t) && |b| > 0
    ensures var r := RunLine(mode, t, ['"', '"']);
      r.Exhausted? && QuoteSeg(mode, s0, b + ['"'], r.st)
  {
    StoredSnoc(b, '"');
    var t1 := StepChar(mode, t, '"').st;
    assert StepChar(mode, t, '"').Next? && !t1.esc && t1.prev == '"' && t1.line == t.line;
    assert t1.pos.srcStart == t.pos.srcStart && t1.pos.srcEnd == t.pos.srcEnd;
    assert t.line + ['"'] == s0.line + Stored(b + ['"']);
    assert ['"', '"'][1..] == ['"'];
    assert ['"'][1..] == [];
  }

  /** One body character in its escaped form. */
  lemma QuoteUnit(mode: ReadMode, s0: LineState, b: seq<char>, t: LineState, c: char)
    requires mode != NotEscape && QuoteSeg(mode, s0, b, t) && QuotableBody(b + [c])
    ensures var r := RunLine(mode, t, Unit(c));
      r.Exhausted? && QuoteSeg(mode, s0, b + [c], r.st)
  {
    if c == '"' {
      QuotePair(mode, s0, b, t);
    } else {
      assert [c][1..] == [];
      if c == ',' {
        QuoteComma(mode, s0, b, t);
      } else if c == '\n' {
        QuoteNewline(mode, s0, b, t);
      } else {
        QuoteOrdinary(mode, s0, b, t, c);
      }
    }
  }

  lemma {:induction false} QuoteRun(mode: ReadMode, s0: LineState, t0: LineState, body: seq<char>)
    requires mode != NotEscape && QuoteSeg(mode, s0, [], t0) && QuotableBody(body)
    ensures var r := RunLine(mode, t0, Escape(body));
      r.Exhausted? && QuoteSeg(mode, s0, body, r.st)
    decreases |body|
  {
    if |body| == 0 {
      assert RunLine(mode, t0, Escape(body)) == Exhausted(t0);
    } else {
      var b, c := body[..|body| - 1], Last(body);
      assert body == b + [c];
      assert QuotableBody(b) by {
        if |b| > 0 { assert b[0] == body[0]; }
      }
      QuoteRun(mode, s0, t0, b);
      EscapeSnoc(b, c);
      RunConcat(mode, t0, Escape(b), Unit(c));
      QuoteUnit(mode, s0, b, RunLine(mode, t0, Escape(b)).st, c);
    }
  }

  /** The closing quote and the comma: the buffer is kept as it is and its length becomes a boundary. */
  lemma CloseQuote(mode: ReadMode, s0: LineState, b: seq<char>, t: LineState)
    requires mode != NotEscape && QuoteSeg(mode, s0, b, t)
    ensures var r := RunLine(mode, t, ['"', ',']);
      r.Exhausted? && r.st.line == t.line && r.st.splits == t.splits + [|t.line|]
  {
    var t1 := StepChar(mode, t, '"').st;
    assert StepChar(mode, t, '"').Next? && !t1.esc && t1.line == t.line && t1.splits == t.splits;
    assert t1.pos.srcStart == t.pos.srcStart && t1.pos.srcEnd == t.pos.srcEnd;
    if mode == UseEscape {
      assert t1.pos.dstStart == t1.pos.srcStart && t1.pos.dstEnd == |t1.line|;
      assert Adjust(t1.pos, t1.line) == Some(t1.line);
    }
    assert ['"', ','][1..] == [','];
    assert [','][1..] == [];
  }

  /**
   * A quoted field in either escape mode, from where a quote opens an
   * escape: `"`, the body with every quote doubled, `"` and `,` add the body
   * to the buffer with each doubled quote stored once and the commas left
   * out, and the new length as one boundary.
   */
  lemma QuotedField(mode: ReadMode, s0: LineState, body: seq<char>)
    requires mode != NotEscape && QuoteReady(mode, s0) && QuotableBody(body)
    ensures var r := RunLine(mode, s0, ['"'] + Escape(body) + ['"', ',']);
      && r.Exhausted? && r.st.line == s0.line + Stored(body)
      && r.st.splits == s0.splits + [|r.st.line|]
  {
    OpenQuote(mode, s0);
    var t0 := StepChar(mode, s0, '"').st;
    assert RunLine(mode, s0, ['"']) == Exhausted(t0);
    QuoteRun(mode, s0, t0, body);
    var t := RunLine(mode, t0, Escape(body)).st;
    CloseQuote(mode, s0, body, t);
    RunConcat(mode, s0, ['"'], Escape(body));
    RunConcat(mode, s0, ['"'] + Escape(body), ['"', ',']);
  }

  /** Without commas in the body, the quoted field stores exactly the body. */
  lemma {:induction false} StoredNoComma(b: seq<char>)
    requires forall i :: 0 <= i < |b| ==> b[i] != ','
    ensures Stored(b) == b
    decreases |b|
  {
    if |b| > 0 {
      StoredNoComma(b[..|b| - 1]);
      assert b == b[..|b| - 1] + [Last(b)];
    }
  }
}
