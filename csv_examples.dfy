/**
 * Whole `ReadSplitLine` calls on small inputs, one per behaviour of the
 * three modes, including the ones that lose or damage data.
 */
module CsvExamples {
  import opened CsvLine

  const THead: seq<char> := " a ,"
  const TMid: seq<char> := " b "
  const TEnd: seq<char> := "\n"
  const TAfterHead: LineState := LineState(false, true, ',', Pointer(1, 3, 1, 2), "a", [0, 1], " a ,")
  const TAfterMid: LineState := LineState(false, false, ' ', Pointer(1, 4, 2, 3), "a b ", [0, 1], " a , b ")

  lemma TrimmedHead()
    ensures ReadLine(UseEscape, THead) == Exhausted(TAfterHead)
  {
  }

  lemma TrimmedMid()
    ensures RunLine(UseEscape, TAfterHead, TMid) == Exhausted(TAfterMid)
  {
  }

  lemma TrimmedEnd()
    ensures var r := RunLine(UseEscape, TAfterMid, TEnd);
      r.Ended? && r.st.line == "ab" && r.st.splits == [0, 1, 2] && r.rest == [] && r.st.echo == " a , b "
  {
  }

  /** Trim mode removes the whitespace around each field. */
  lemma TrimmedFields()
    ensures var r := ReadLine(UseEscape, THead + TMid + TEnd);
      r.Ended? && r.st.line == "ab" && r.st.splits == [0, 1, 2] && r.rest == [] && r.st.echo == " a , b "
  {
    TrimmedHead();
    TrimmedMid();
    TrimmedEnd();
    RunConcat(UseEscape, LineStart, THead, TMid);
    RunConcat(UseEscape, LineStart, THead + TMid, TEnd);
  }

  const QOpen: seq<char> := "\"1\n"
  const QClose: seq<char> := "2\"\"4\","
  const QMid: seq<char> := " 5,"
  const QLast: seq<char> := " 678"
  const QEnd: seq<char> := "\nnext"
  const QAfterOpen: LineState := LineState(true, false, '\n', Pointer(0, 1, 0, 2), "1\n", [0], "\"1\n")
  const QAfterClose: LineState := LineState(false, true, ',', Pointer(5, 5, 5, 5), "1\n2\"4", [0, 5], "\"1\n2\"\"4\",")
  const QAfterMid: LineState := LineState(false, true, ',', Pointer(6, 7, 6, 7), "1\n2\"45", [0, 5, 6], "\"1\n2\"\"4\", 5,")
  const QAfterLast: LineState :=
    LineState(false, false, '8', Pointer(6, 10, 7, 10), "1\n2\"45 678", [0, 5, 6], "\"1\n2\"\"4\", 5, 678")

  lemma QuotedOpen()
    ensures ReadLine(UseEscape, QOpen) == Exhausted(QAfterOpen)
  {
  }

  lemma QuotedClose()
    ensures RunLine(UseEscape, QAfterOpen, QClose) == Exhausted(QAfterClose)
  {
  }

  lemma QuotedMid()
    ensures RunLine(UseEscape, QAfterClose, QMid) == Exhausted(QAfterMid)
  {
  }

  lemma QuotedLast()
    ensures RunLine(UseEscape, QAfterMid, QLast) == Exhausted(QAfterLast)
  {
  }

  lemma QuotedEnd()
    ensures var r := RunLine(UseEscape, QAfterLast, QEnd);
      && r.Ended? && r.st.line == "1\n2\"45678" && r.st.splits == [0, 5, 6, 9] && r.rest == "next"
      && r.st.echo == "\"1\n2\"\"4\", 5, 678"
  {
  }

  /**
   * A quoted field holding a line feed and a doubled quote, then two
   * trimmed fields; the rest of the input is left for the next call.
   */
  lemma QuotedNewlineAndDoubledQuote()
    ensures var r := ReadLine(UseEscape, QOpen + QClose + QMid + QLast + QEnd);
      && r.Ended? && r.st.line == "1\n2\"45678" && r.st.splits == [0, 5, 6, 9] && r.rest == "next"
      && r.st.echo == "\"1\n2\"\"4\", 5, 678"
  {
    QuotedOpen();
    QuotedClose();
    QuotedMid();
    QuotedLast();
    QuotedEnd();
    RunConcat(UseEscape, LineStart, QOpen, QClose);
    RunConcat(UseEscape, LineStart, QOpen + QClose, QMid);
    RunConcat(UseEscape, LineStart, QOpen + QClose + QMid, QLast);
    RunConcat(UseEscape, LineStart, QOpen + QClose + QMid + QLast, QEnd);
  }

  /** A doubled quote inside an escape stores one quote. */
  lemma DoubledQuote()
    ensures var r := ReadLine(UseEscapeNoTrim, "\"a\"\"b\"\n");
      r.Ended? && r.st.line == "a\"b" && r.st.splits == [0, 3]
  {
  }

  const CrHead: seq<char> := "\"a\r\n"
  const CrTail: seq<char> := "b\",c\r\n"
  const CrState: LineState := LineState(true, true, '\n', Pointer(0, 1, 0, 0), "a\r\n", [0], "\"a\r\n")

  lemma CarriageReturnsHead()
    ensures ReadLine(UseEscapeNoTrim, CrHead) == Exhausted(CrState)
  {
  }

  lemma CarriageReturnsTail()
    ensures var r := RunLine(UseEscapeNoTrim, CrState, CrTail);
      && r.Ended? && r.st.line == "a\r\nbc" && r.st.splits == [0, 4, 5]
      && r.st.echo == "\"a\r\nb\",c" && r.rest == []
  {
  }

  /** CR LF inside quotes is kept; CR LF ending the record is removed from the buffer and the echo. */
  lemma CarriageReturns()
    ensures var r := ReadLine(UseEscapeNoTrim, CrHead + CrTail);
      && r.Ended? && r.st.line == "a\r\nbc" && r.st.splits == [0, 4, 5]
      && r.st.echo == "\"a\r\nb\",c"
  {
    CarriageReturnsHead();
    CarriageReturnsTail();
    RunConcat(UseEscapeNoTrim, LineStart, CrHead, CrTail);
  }

  lemma EscapedCommaNoTrim()
    ensures var r := ReadLine(UseEscapeNoTrim, "\"a,b\"\n");
      r.Ended? && r.st.line == "ab" && r.st.splits == [0, 2] && r.st.echo == "\"a,b\""
  {
  }

  lemma EscapedCommaTrim()
    ensures var r := ReadLine(UseEscape, "\"a,b\"\n");
      r.Ended? && r.st.line == "ab" && r.st.splits == [0, 2]
  {
  }

  /** A comma inside quotes is echoed but neither stored nor a boundary: the field loses it. */
  lemma EscapedCommaDropped()
    ensures var r := ReadLine(UseEscapeNoTrim, "\"a,b\"\n");
      r.Ended? && r.st.line == "ab" && r.st.splits == [0, 2] && r.st.echo == "\"a,b\""
    ensures var r := ReadLine(UseEscape, "\"a,b\"\n");
      r.Ended? && r.st.line == "ab" && r.st.splits == [0, 2]
  {
    EscapedCommaNoTrim();
    EscapedCommaTrim();
  }

  /** Without escaping, quotes are ordinary characters and every comma is a boundary. */
  lemma PlainQuotes()
    ensures var r := ReadLine(NotEscape, "\"a,b\"\n");
      r.Ended? && r.st.line == "\"ab\"" && r.st.splits == [0, 2, 4]
  {
  }

  /** Input that runs out before a line feed: the last field has no closing boundary. */
  lemma NoTerminalBoundary()
    ensures var r := ReadLine(NotEscape, "a,b");
      r.Exhausted? && r.st.line == "ab" && r.st.splits == [0, 1]
    ensures var r := ReadLine(UseEscape, "a, b ");
      r.Exhausted? && r.st.line == "a b " && r.st.splits == [0, 1]
  {
  }

  const SHead: seq<char> := "ab,"
  const SBlank: seq<char> := "  ,"
  const SAfterHead: LineState := LineState(false, true, ',', Pointer(2, 2, 2, 2), "ab", [0, 2], "ab,")
  const SAfterBlank: LineState := LineState(false, true, ',', Pointer(0, 4, 0, 2), "", [0, 2, 0], "ab,  ,")

  lemma StaleHead()
    ensures ReadLine(UseEscape, SHead) == Exhausted(SAfterHead)
  {
  }

  /** The blank field leaves `dstEnd` at 2 while `srcEnd` reaches 4, so all four units are removed. */
  lemma StaleBlank()
    ensures RunLine(UseEscape, SAfterHead, SBlank) == Exhausted(SAfterBlank)
  {
  }

  /**
   * A whitespace-only field in trim mode: `dstEnd` still points into the
   * previous field, so `AjustLine` removes too much. Here the first field is
   * wiped from the buffer and the boundaries go backwards.
   */
  lemma StaleWindowWipesField()
    ensures var r := ReadLine(UseEscape, SHead + SBlank + "x\n");
      r.Ended? && r.st.line == "x" && r.st.splits == [0, 2, 0, 1]
  {
    StaleHead();
    StaleBlank();
    RunConcat(UseEscape, LineStart, SHead, SBlank);
    RunConcat(UseEscape, LineStart, SHead + SBlank, "x\n");
  }

  /** The same with nothing after the blank field: `RemoveAt` runs on an empty buffer and throws. */
  lemma StaleWindowThrows()
    ensures ReadLine(UseEscape, SHead + SBlank + "\n").Faulted?
  {
    StaleHead();
    StaleBlank();
    RunConcat(UseEscape, LineStart, SHead, SBlank);
    RunConcat(UseEscape, LineStart, SHead + SBlank, "\n");
  }
  const QBlank: LineState := LineState(false, false, ' ', Pointer(0, 2, 0, 1), "a ", [0], "a ")
  const QTrimmed: LineState := LineState(false, true, ',', Pointer(1, 2, 1, 1), "a", [0, 1], "a ,")
  const QSplit: LineState := LineState(false, true, ',', Pointer(2, 2, 2, 2), "ab", [0, 1, 2], "a ,\"b,")
  const QBare: LineState := LineState(false, true, ',', Pointer(1, 1, 1, 1), "a", [0, 1], "a,")

  /** The blank after `a` is outside the window `[dstStart, dstEnd)` but inside `[srcStart, srcEnd)`. */
  lemma QuoteBlank()
    ensures ReadLine(UseEscape, "a ") == Exhausted(QBlank)
  {
  }

  /** After `a ,` the comma has moved `srcStart` to 1 but `srcEnd` still counts the trimmed blank. */
  lemma QuoteTrimmedHead()
    ensures RunLine(UseEscape, QBlank, ",") == Exhausted(QTrimmed)
  {
  }

  /** So the quote is an ordinary quote and the comma after `b` ends a field. */
  lemma QuoteNotOpened()
    ensures RunLine(UseEscape, QTrimmed, "\"b,") == Exhausted(QSplit)
  {
  }

  lemma QuoteNotOpenedTail()
    ensures var r := RunLine(UseEscape, QSplit, "c\"\n");
      r.Ended? && r.st.line == "abc" && r.st.splits == [0, 1, 2, 3]
  {
  }

  lemma QuoteBareHead()
    ensures ReadLine(UseEscape, "a,") == Exhausted(QBare)
  {
  }

  lemma QuoteOpenedTail()
    ensures var r := RunLine(UseEscape, QBare, "\"b,c\"\n");
      r.Ended? && r.st.line == "abc" && r.st.splits == [0, 1, 3]
  {
  }

  /** The quote after a trimmed field: four fields. */
  lemma QuoteAfterBlank()
    ensures var r := ReadLine(UseEscape, "a ,\"b,c\"\n");
      r.Ended? && r.st.line == "abc" && r.st.splits == [0, 1, 2, 3]
  {
    var a, b, c, d := "a ", ",", "\"b,", "c\"\n";
    assert "a ,\"b,c\"\n" == a + b + c + d;
    QuoteBlank();
    QuoteTrimmedHead();
    QuoteNotOpened();
    QuoteNotOpenedTail();
    RunConcat(UseEscape, LineStart, a, b);
    RunConcat(UseEscape, LineStart, a + b, c);
    RunConcat(UseEscape, LineStart, a + b + c, d);
  }

  /** The quote right after the comma: three fields. */
  lemma QuoteAfterComma()
    ensures var r := ReadLine(UseEscape, "a,\"b,c\"\n");
      r.Ended? && r.st.line == "abc" && r.st.splits == [0, 1, 3]
  {
    var a, b := "a,", "\"b,c\"\n";
    assert "a,\"b,c\"\n" == a + b;
    QuoteBareHead();
    QuoteOpenedTail();
    RunConcat(UseEscape, LineStart, a, b);
  }

  /**
   * A quote right after a trimmed field: the comma restarts `srcStart` but
   * leaves `srcEnd` on the trailing blank, so the quote does not open an
   * escape and the comma inside it splits the field. Without the blank the
   * same quote opens an escape and the comma stays inside the field.
   */
  lemma QuoteAfterTrimmedField()
    ensures var r := ReadLine(UseEscape, "a ,\"b,c\"\n");
      r.Ended? && r.st.line == "abc" && r.st.splits == [0, 1, 2, 3]
    ensures var r := ReadLine(UseEscape, "a,\"b,c\"\n");
      r.Ended? && r.st.line == "abc" && r.st.splits == [0, 1, 3]
  {
    QuoteAfterBlank();
    QuoteAfterComma();
  }
}
