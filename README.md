# CSV splitter and interned value model

A Dafny model of the core of a C# CSV reader. It covers three parts.

**The record splitter.** `CsvSpliter` reads characters in blocks from a stream into `charBuffer`. It builds one record in the reusable line buffer `oneLineBuffer` and returns the list of field boundaries. The character state machine has three modes:

- `UseEscape`: quotes escape, and whitespace around fields is trimmed in place by `Pointer.AjustLine`;
- `UseEscapeNoTrim`: quotes escape, no trimming;
- `NotEscape`: every comma is a boundary.

`ReadGroup` turns each adjacent pair of boundaries into a value through the intern cache.

**The value classifier.** `ValueObject` classifies its text lazily, with a hand-written scanner, as Empty, Integer, Double or String, and memoises the result. The memo may be upgraded once to a date. Hashing is 32-bit FNV-1 over the UTF-16 bytes; the model reproduces those bytes for text in the Basic Multilingual Plane (see "Left out"). Equality compares content.

**The lookup key and the cache.** `ValueKey` is a zero-copy view of a range of the line buffer, with a hash computed in advance. `ValueCache` is a two-tier intern table: a `confirmed` table, plus a `cache` table of probation entries with a generation counter. It is swept once it holds more than 10 000 entries.

## Layout

- `wrappers.dfy`: `Option` and `Result`.
- `value_types.dfy`: the shared value types.
  - the type tag;
  - `Int32` and the unchecked narrowing `Wrap32`;
  - `DoubleVal`, a symbolic double: `(sign, mantissa, decimal exponent)` or a widened integer;
  - `DateTime`, held as ticks;
  - the classified `Variant`;
  - `Row`, the accessor table every variant class exposes.
- `value_empty.dfy`, `value_integer.dfy`, `value_double.dfy`: the accessor tables of `ValueEmpty`, `ValueInteger` and `ValueDouble`.
- `number_scan.dfy`: `GetValue`, `ConvertNumber` and `CalcExponentConvert` as specification functions. It also holds an independent definition of integer text and of a well-formed exponent, and the lemmas connecting the two.
- `fnv_hash.dfy`: the FNV-1 byte walk of `ValueObject.GetHashCode` and the per-unit fold of `ValueKey.SetKey`, proved equal.
- `value_object.dfy`: the classes `ValueObject` (the memo is a mutable field) and `ValueKey`.
- `value_cache.dfy`: the class `ValueCache`. Its two dictionaries are map fields keyed by the text.
- `csv_line.dfy`: the per-character state machine of each mode as a step function on the locals of one `ReadSplitLine` call (`LineState`), and `RunLine`/`ReadLine` over the input. It also holds the `AjustLine` specification and the lemmas about boundaries, the echo, the fields, and trimming.
- `csv_spliter.dfy`: the imperative model.
  - `AjustLine`;
  - the class `CsvSpliter`, with `charBuffer` as an array, `charIndex`, the unread stream and the line buffer;
  - the refill and scan loops of `ReadSplitLine`, proved against `ReadLine`;
  - `ReadGroup`, `EndOfBuffer` and `CreateSpliter`;
  - the three per-character switches.
- `csv_examples.dfy`: concrete records run through the state machine.

### Behaviours kept as the code has them

The CSV splitter does the following, and the model reproduces each case; `csv_examples.dfy` shows them on concrete records:

- A comma inside quotes is echoed, but it is neither stored nor a boundary: `"a,b"` reads as `ab` (`EscapedCommaDropped`).
- Input that ends before a line feed returns its boundaries without a closing one, and in trim mode the last field stays untrimmed (`NoTerminalBoundary`, `ReadLineBoundaries`).
- In trim mode, a whitespace-only field leaves `dstEnd` where the previous field set it (`BlankFieldKeepsStaleEnd`). `AjustLine` then runs with a window outside the field:
  - it can wipe a following field (`StaleWindowWipesField`);
  - or it can throw on an empty list (`StaleWindowThrows`, modelled as the `Faulted` outcome).
- `AjustLine`'s clean behaviour is stated under the precondition `srcStart <= dstStart <= dstEnd <= srcEnd == Count` (`AdjustKeepsWindow`). `TrimmedField` proves that an unquoted, comma-ended field with a non-whitespace character meets it. `TrimmedLastField` and `TrimmedLastFieldCRLF` prove the same for the unquoted last field of a record, ended by LF or by CR LF.
- In trim mode, the comma after a field resets `srcStart` but not `srcEnd`. After a field with trailing whitespace the two differ, so a quote that follows does not open an escape: `a ,"b,c"` reads as `abc` with four fields, while `a,"b,c"` reads as `abc` with three (`QuoteAfterTrimmedField`). `QuotedField` therefore starts from a state where `srcEnd` is at the buffer's end too.
- Inside quotes, a doubled quote is stored once only when the `default` branch has already moved `srcEnd` past `srcStart` (CsvSpliter.cs:108-110, 154). A comma or an LF inside quotes is handled by its own branch and leaves `srcEnd` in place, and a CR followed by LF moves it back to `srcStart`. So `QuotedField` takes a body that does not start with a comma, a quote, a CR or an LF. Excluding every leading CR is more than needed: a CR that no LF follows would be harmless.

## Model

| member | source | states |
|---|---|---|
| `CsvLine.AdjustKeepsWindow` | SplitFormts/Csv/CsvSpliter.cs:24-36 | With `srcStart <= dstStart <= dstEnd <= srcEnd == Count`: everything before `srcStart` is kept, the window `[dstStart, dstEnd)` moves to `srcStart`, and the length becomes `srcStart + (dstEnd - dstStart)`. |
| `CsvLine.WindowOfConcat` | SplitFormts/Csv/CsvSpliter.cs:24-36 | For a field that ends the buffer, `AjustLine` leaves the text before the field followed by exactly the window of the field. |
| `CsvSpliters.AjustLine` | SplitFormts/Csv/CsvSpliter.cs:24-36 | The copy loop and the `RemoveAt` loop compute exactly `Adjust`. `None` is the `ArgumentException` thrown when the window or the surplus falls outside the list. |
| `CsvSpliters.CopyWindowDown` | SplitFormts/Csv/CsvSpliter.cs:26-30 | When `srcStart < dstStart` and the window is non-empty, the forward copy moves `[dstStart, dstEnd)` down to `srcStart` and keeps every other character. A window outside the list is `None`, the indexer's exception. Otherwise the list is unchanged. |
| `CsvSpliters.RemoveSurplus` | SplitFormts/Csv/CsvSpliter.cs:31-35 | Removes exactly `surplus` characters from the end. A surplus of 0 or less removes nothing. A surplus longer than the list is `None`, the exception of `RemoveAt(-1)`. |
| `CsvSpliters.TrimChar` | SplitFormts/Csv/CsvSpliter.cs:83-158 | The trim-mode switch on one character equals the step function `StepTrim`, branch for branch. |
| `CsvSpliters.NoTrimChar` | SplitFormts/Csv/CsvSpliter.cs:215-272 | The no-trim switch equals `StepNoTrim`. |
| `CsvSpliters.PlainChar` | SplitFormts/Csv/CsvSpliter.cs:327-355 | The no-escape switch equals `StepPlain`. |
| `CsvSpliters.CsvSpliter.Step` | SplitFormts/Csv/CsvSpliter.cs:80-159 | Dispatching on the splitter's mode gives `StepChar` for that mode. |
| `CsvLine.RunConcat` | SplitFormts/Csv/CsvSpliter.cs:74-78 | Scanning `a + b` equals scanning `a`, then resuming on `b` from where `a` left off. This is what lets a record span several blocks. |
| `CsvSpliters.CsvSpliter.ScanBlock` | SplitFormts/Csv/CsvSpliter.cs:80-159 | The loop over one block equals `RunLine` over the block. At a record-ending LF, the unread rest of the block is at index 0 and `charIndex` is its length. |
| `CsvSpliters.CsvSpliter.Refill` | SplitFormts/Csv/CsvSpliter.cs:74-77 | With `charIndex <= 0`, reads the next block and leaves the unread input and the line unchanged. It reports more input exactly when characters arrived. Nothing arrives only when the buffer has length 0 or the stream is exhausted. |
| `CsvSpliters.CsvSpliter.ScanRound` | SplitFormts/Csv/CsvSpliter.cs:79-165 | One round of the outer loop. A throw, an ended record, or an exhausted block agrees with `RunLine` over the whole unread input. After an exhausted block, `charIndex` is 0 and strictly less input is unread. |
| `CsvSpliters.CsvSpliter.ReadSplitLine` | SplitFormts/Csv/CsvSpliter.cs:63-169 | The refill loop returns what `ReadLine` gives on the unread input (`Reports`). A line with a record-ending LF leaves exactly the rest unread. Input that runs out leaves nothing unread. A throw is `None`. |
| `CsvSpliters.CsvSpliter.ReadBlock` | SplitFormts/Csv/CsvSpliter.cs:76 | Copies `min(Length, remaining)` characters of the stream into `charBuffer` and drops them from the stream. |
| `CsvSpliters.CsvSpliter.ShiftBlock` | SplitFormts/Csv/CsvSpliter.cs:134-136 | `Array.Copy(charBuffer, i + 1, charBuffer, 0, clen)` moves the unread characters to the front, and every element from index `clen` on keeps its value. |
| `CsvLine.StepKeepsInv` | SplitFormts/Csv/CsvSpliter.cs:80-159 | Every step keeps boundary 0 first and keeps a pending CR stored in the line. In the non-trim modes, it also keeps the boundaries non-decreasing and within the line. A record-ending step leaves at least two boundaries, the last at the line's end, still sorted in the non-trim modes. Only trim mode can throw. |
| `CsvLine.RunKeepsInv` | SplitFormts/Csv/CsvSpliter.cs:63-169 | The same over any input: an exhausted call keeps the invariant, an ended call has its last boundary at the line's end, and the non-trim modes never throw. |
| `CsvLine.ReadLineBoundaries` | SplitFormts/Csv/CsvSpliter.cs:70-96 | Every result starts with boundary 0. The non-trim modes never fault, and their boundaries are non-decreasing and within the line. A record ended by LF has the line length as its last boundary. |
| `CsvLine.StepEcho` | SplitFormts/Csv/CsvSpliter.cs:116-142 | Each character that does not end the record is appended to `resbuf`. The ending LF is not appended, and it removes a CR echoed right before it. |
| `CsvLine.RunEchoExhausted` | SplitFormts/Csv/CsvSpliter.cs:63-169 | A call that runs out of input appends all of it to `resbuf`. |
| `CsvLine.RunEnded` | SplitFormts/Csv/CsvSpliter.cs:133-140 | A record ends at an LF in the input, and the unread rest starts right after it. In no-escape mode, no earlier LF precedes it. |
| `CsvLine.RunEchoEnded` | SplitFormts/Csv/CsvSpliter.cs:116-142 | An ended record's echo is everything before its LF, without a final CR. |
| `CsvLine.ReadLineEcho` | SplitFormts/Csv/CsvSpliter.cs:116-142 | `resbuf` receives every consumed character except the terminating LF and the CR right before it. The rest of the input starts just after that LF. In no-escape mode no LF precedes it. Input that runs out is echoed whole. |
| `CsvLine.PlainFieldsJoin` | SplitFormts/Csv/CsvSpliter.cs:309-366 | In no-escape mode, a finished record's fields, cut at its boundaries, join with commas back to the echoed text. No field contains a comma or an LF. |
| `CsvLine.FieldsAt` | SplitFormts/Csv/CsvSpliter.cs:457-467 | Field `i` is `line[b[i]..b[i+1]]`. |
| `CsvLine.TrimRun` | SplitFormts/Csv/CsvSpliter.cs:144-155 | Over the ordinary characters of a field, trim mode stores them all and advances `dstStart` past the leading whitespace. It sets `dstEnd` after the last non-whitespace character. |
| `CsvLine.TrimmedField` | SplitFormts/Csv/CsvSpliter.cs:84-96 | An unquoted field of ordinary characters with a non-whitespace character, followed by a comma, leaves exactly the field without its leading and trailing whitespace, with a boundary at its end. |
| `CsvLine.TrimmedLastField` | SplitFormts/Csv/CsvSpliter.cs:116-155 | An unquoted last field with a non-whitespace character, followed by an LF, ends the record with exactly the field without its surrounding whitespace (a CR ending it included), a boundary at the buffer's new end, and the rest of the input unread. |
| `CsvLine.TrimmedLastFieldCRLF` | SplitFormts/Csv/CsvSpliter.cs:116-140 | The same for a field followed by CR LF: the CR is removed and the field is trimmed as before. |
| `CsvLine.NewlineWindow` | SplitFormts/Csv/CsvSpliter.cs:118-137 | After such a field, the LF's `AjustLine`, run once a preceding CR is removed, keeps exactly the trimmed field. |
| `CsvLine.QuotedField` | SplitFormts/Csv/CsvSpliter.cs:84-155 | In both escape modes, from a field start with `srcEnd` at the buffer's end: `"`, the body with every quote doubled, `"` and `,` add the body to the buffer with each doubled quote stored once and its commas left out, and one boundary at the buffer's new end. |
| `CsvLine.QuoteRun` | SplitFormts/Csv/CsvSpliter.cs:98-155 | Inside quotes, the escaped form of a body keeps the escape open and stores the body without its commas. LF and CR LF are kept. `srcStart` stays at the field's start. |
| `CsvLine.CloseQuote` | SplitFormts/Csv/CsvSpliter.cs:84-114 | The closing quote and the comma after it keep the buffer as it is and add its length as a boundary; in trim mode `AjustLine` removes nothing. |
| `CsvLine.StoredNoComma` | SplitFormts/Csv/CsvSpliter.cs:93-95 | A quoted body without commas is stored exactly. |
| `CsvLine.AdjustTrims` | SplitFormts/Csv/CsvSpliter.cs:87 | With the window trim mode builds, `AjustLine` keeps exactly `Trim(field)`. |
| `CsvLine.TrimComma` | SplitFormts/Csv/CsvSpliter.cs:84-96 | The unescaped comma after such a field stores the trimmed field, adds its end as a boundary, and starts the next field. |
| `CsvLine.BlankFieldKeepsStaleEnd` | SplitFormts/Csv/CsvSpliter.cs:144-155 | A whitespace-only field leaves `dstEnd` at the previous field's value while `dstStart` passes the whole field. |
| `CsvLine.LeadEndWhite` | SplitFormts/Csv/CsvSpliter.cs:147-149 | `Lead` and `End` cut off exactly the leading and the trailing whitespace. |
| `CsvSpliters.CsvSpliter.EndOfBuffer` | SplitFormts/Csv/CsvSpliter.cs:403-408 | True exactly when no unread character is left in `charBuffer`. |
| `CsvSpliters.CsvSpliter.constructor` | SplitFormts/Csv/CsvSpliter.cs:412-423 | A fresh buffer of the requested size, nothing read, an empty line buffer, a fresh key and an empty cache. |
| `CsvSpliters.ModeOf` | SplitFormts/Csv/CsvReadMode.cs:4-14 | The three enum values 0, 1 and 2 map to the three modes, and nothing else maps to a mode. |
| `CsvSpliters.CreateSpliter` | SplitFormts/Csv/CsvSpliter.cs:431-445 | Each known mode gives a splitter in that mode over the stream. Any other value is the `ArgumentException`. A negative size is the array-size exception. |
| `CsvSpliters.CsvSpliter.ReadGroup` | SplitFormts/Csv/CsvSpliter.cs:457-467 | It returns `splits.Count - 1` values, and value `i` holds exactly `line[splits[i]..splits[i+1])`. `confirmed` is untouched. A throwing read is `LineFault`, and only a throwing read. In the two non-trimming modes the call always succeeds, since the boundaries are sorted and inside the line. |
| `CsvSpliters.CsvSpliter.GroupValues` | SplitFormts/Csv/CsvSpliter.cs:461-465 | The loop keys each range with `SetKey` and takes the value from `GetCache`. The values come out one per adjacent pair of boundaries, in order, each with its range's text. Boundaries that start at 0 or later, are sorted and end inside the line always give the values; a range exception means some range left the line. |
| `CsvSpliters.CsvSpliter.FieldValue` | SplitFormts/Csv/CsvSpliter.cs:462-463 | One iteration: `SetKey`, then `GetCache`. A value means the range fits the line, and the value holds exactly the field's text. `confirmed` is untouched. The range exception happens exactly when a non-empty range leaves the line. The cache fails exactly for a reversed range whose empty text is already in `cache`, so a forward range that fits always gives a value. |
| `CsvExamples.TrimmedFields` | SplitFormts/Csv/CsvSpliter.cs:144-155 | `" a , b "` with an LF reads as `ab` with boundaries 0, 1, 2. |
| `CsvExamples.QuotedNewlineAndDoubledQuote` | SplitFormts/Csv/CsvSpliter.cs:98-142 | An LF inside quotes is kept, and a doubled quote stores one quote. The record ends at the first unquoted LF, and the rest stays unread. |
| `CsvExamples.DoubledQuote` | SplitFormts/Csv/CsvSpliter.cs:224-238 | `"a""b"` reads as `a"b`. |
| `CsvExamples.CarriageReturns` | SplitFormts/Csv/CsvSpliter.cs:240-263 | CR LF inside quotes is kept. The CR LF that ends the record is removed from the line and from the echo. |
| `CsvExamples.EscapedCommaDropped` | SplitFormts/Csv/CsvSpliter.cs:92-95 | In both escape modes, `"a,b"` reads as `ab` with a single field. |
| `CsvExamples.PlainQuotes` | SplitFormts/Csv/CsvSpliter.cs:348-352 | In no-escape mode, quotes are stored and the quoted comma is a boundary. |
| `CsvExamples.NoTerminalBoundary` | SplitFormts/Csv/CsvSpliter.cs:161-166 | Input without a final LF ends with no closing boundary. In trim mode the last field is untrimmed. |
| `CsvExamples.StaleWindowWipesField` | SplitFormts/Csv/CsvSpliter.cs:87-91 | `ab,  ,x` reads as line `x` with boundaries 0, 2, 0, 1. |
| `CsvExamples.QuoteAfterTrimmedField` | SplitFormts/Csv/CsvSpliter.cs:84-112 | `a ,"b,c"` with an LF reads as `abc` with boundaries 0, 1, 2, 3: the quote does not open an escape. `a,"b,c"` reads as `abc` with boundaries 0, 1, 3. |
| `CsvExamples.StaleWindowThrows` | SplitFormts/Csv/CsvSpliter.cs:24-36 | `ab,  ,` with an LF throws inside `AjustLine`. |
| `ValueTypes.Wrap32` | SplitFormts/Values/ValueObject.cs:326-327 | `(int)v` keeps `v` modulo 2^32 and leaves values up to `int.MaxValue` unchanged. |
| `ValueEmpty.TableFacts` | SplitFormts/Values/ValueEmpty.cs:12-115 | `TypeEmpty`. All six predicates are true. The getters give 0, 0 and `DateTime.MinValue` without throwing. `StringValue` is empty. All nullable getters are null. |
| `ValueInteger.TableFacts` | SplitFormts/Values/ValueInteger.cs:21-97 | `TypeInt`. Integer, double, string and number are true; empty and date are false. Both integer getters return the value, both double getters return it widened, `DateValue` throws and `DateValueOrNull` is null. |
| `ValueInteger.StringValueRoundTrip` | SplitFormts/Values/ValueInteger.cs:41 | The decimal rendering of every `int` classifies back as that same integer. |
| `ValueDouble.TableFacts` | SplitFormts/Values/ValueDouble.cs:21-97 | `TypeDouble`. Double, string and number are true; integer, empty and date are false. `IntegerValue` and `DateValue` throw, their nullable twins are null, and both double getters return the payload. |
| `NumberScan.ScanDigits` | SplitFormts/Values/ValueObject.cs:262-296 | Before a `.`, the mantissa loop reaches the end without a `.` or an exponent exactly when the rest is digits that never trip the `ulong.MaxValue / 10` guard. It then holds their decimal value. |
| `NumberScan.ScanFraction` | SplitFormts/Values/ValueObject.cs:262-275 | After the `.`, the mantissa loop reaches the end without an exponent exactly when the rest is digits that never trip the `ulong.MaxValue / 10` guard. The value then accumulates them, and each counts as one fraction digit. |
| `NumberScan.IntegerClassification` | SplitFormts/Values/ValueObject.cs:312-333 | A text classifies as Integer exactly when it is an optional sign followed by digits within `2^31` (after `-`) or `long.MaxValue` (otherwise). The value is then the negation, or the unchecked 32-bit narrowing. |
| `NumberScan.ExponentMeaning` | SplitFormts/Values/ValueObject.cs:372-410 | `CalcExponentConvert` succeeds exactly on an optional sign (counted only when something follows it) and digits below 308, and yields that signed value. |
| `NumberScan.MalformedExponentScalesByTenth` | SplitFormts/Values/ValueObject.cs:299-310 | As written: a mantissa followed by `e`/`E` and a text that is not a well-formed exponent still yields a Double, scaled by 10^-1. |
| `NumberScan.StrictExponentMeaning` | SplitFormts/Values/ValueObject.cs:299-310 | With the check in place, an exponent marker with text after it yields a Double exactly when that text is a well-formed exponent and the combined exponent is within [-308, 308]. The Double then carries that exponent. A marker that ends the text keeps its as-written reading, scaled by the fraction digits only. |
| `NumberScan.AgreesOnWellFormedExponent` | SplitFormts/Values/ValueObject.cs:299-310 | When the marker ends the text or a well-formed exponent follows it, the corrected and the as-written conversions agree. |
| `NumberScan.DecimalClassification` | SplitFormts/Values/ValueObject.cs:262-366 | A text without an exponent marker and with a `.` after its sign classifies as Double exactly when it is one or more digits, `.`, and zero or more digits, with neither digit run tripping the `ulong.MaxValue / 10` guard. The Double is then the digits' value times 10 to the minus the number of fraction digits. |
| `NumberScan.StrictAgreesWithoutExponent` | SplitFormts/Values/ValueObject.cs:262-296 | Without an exponent marker, the corrected and the as-written conversions agree. |
| `NumberScan.DanglingExponentSign` | SplitFormts/Values/ValueObject.cs:380-401 | `1e-` reads as 1 × 10^-1 as written, and as a String with the check. |
| `NumberScan.PlainDecimalIsDouble` | CsvTestProject/CsvValueTest.cs:12-15 | `3.14` classifies as the Double 314 × 10^-2. |
| `NumberScan.Int32BoundsAreIntegers` | CsvTestProject/CsvValueTest.cs:42-50 | `2147483647` and `-2147483648` classify as those Integers. |
| `NumberScan.BareSignIsEmpty` | SplitFormts/Values/ValueObject.cs:257-259 | `+` and `-` alone classify as Empty. |
| `NumberScan.PositiveExponentIsDouble` | CsvTestProject/CsvValueTest.cs:22-25 | `1.23e+12` classifies as the Double 123 × 10^10. |
| `NumberScan.NegativeExponentIsDouble` | CsvTestProject/CsvValueTest.cs:27-30 | `2.43E-19` classifies as the Double 243 × 10^-21. |
| `FnvHash.BytesAt` | SplitFormts/Values/ValueObject.cs:433-436 | The byte walk reads the low byte, then the high byte, of each code unit. |
| `FnvHash.BytesAgree` | SplitFormts/Values/ValueKey.cs:144-150 | FNV-1 over the in-memory bytes equals the two-rounds-per-unit fold `SetKey` computes, for every text. |
| `ValueObjects.Slice` | SplitFormts/Values/ValueObject.cs:200-212 | `chars.CopyTo(st, temp, 0, ed - st)` copies `ed - st` units starting at `st` when `ed > st`, and nothing otherwise. |
| `ValueObjects.ValueObject.constructor` | SplitFormts/Values/ValueObject.cs:184-194 | The empty text starts with the memo set to `ValueEmpty.Empty`. Any other text starts unevaluated. |
| `ValueObjects.ValueObject.FromSpan` | SplitFormts/Values/ValueObject.cs:200-212 | Copies `buffer[st..ed)` with the memo unevaluated, or is the empty value with the memo set to `ValueEmpty.Empty` when `ed <= st`. |
| `ValueObjects.ValueObject.Instance` | SplitFormts/Values/ValueObject.cs:49-57 | Classifies with `ValueString.Instance` on first use and stores the result. After that, it returns the memo unchanged. |
| `ValueObjects.ValueObject.GetValue` | SplitFormts/Values/ValueObject.cs:221-236 | Strips one leading `+` or `-` (only `-` makes the number negative) and converts the rest. |
| `ValueObjects.ValueObject.ConvertNumber` | SplitFormts/Values/ValueObject.cs:244-366 | The mantissa loop, the exponent step and the integer/double choice compute `Converted`, whose meaning the `NumberScan` lemmas state. |
| `ValueObjects.ValueObject.CalcExponentConvert` | SplitFormts/Values/ValueObject.cs:372-410 | The sign step and the digit loop compute `Exponent`, which `ExponentMeaning` characterises. |
| `ValueObjects.ValueObject.ConvertDate` | SplitFormts/Values/ValueObject.cs:415-425 | A parsed date when `TryParse` accepts the text. Otherwise it is the classification with `InstanceOfDayChecked` as the string fallback, and never a date. |
| `ValueObjects.ValueObject.DateMemo` | SplitFormts/Values/ValueObject.cs:108-116 | The memo is replaced only while it is null or `ValueString.Instance`, and never ends as `ValueString.Instance`. So the date parse runs at most once. |
| `ValueObjects.ValueObject.IsDate` | SplitFormts/Values/ValueObject.cs:141-149 | On a fresh or string memo, it is true exactly when the text parses as a date or is empty after its sign. Otherwise it answers from the stored memo. |
| `ValueObjects.ValueObject.DateValueOrNull` | SplitFormts/Values/ValueObject.cs:108-116 | On a fresh or string memo, it gives the parsed date, or null. |
| `ValueObjects.ValueObject.Properties` | SplitFormts/Values/ValueObject.cs:62-154 | The delegating getters (`ValueObjectType`, `IntegerValue`, `DoubleValue`, `DateValue`, `IntegerValueOrNull`, `IsEmpty`, `IsInteger`, `IsDouble`, `IsNumber`) are the accessor table of the memoised variant. The row's `isString`, `isDate`, `doubleValueOrNull` and `dateValueOrNull` entries are not what `ValueObject` answers; its own `IsString`, `IsDate`, `DoubleValueOrNull` and `DateValueOrNull` rows give those. |
| `ValueObjects.ValueObject.DoubleValueOrNull` | SplitFormts/Values/ValueObject.cs:102 | As written: the instance's `IntegerValueOrNull`, widened. |
| `ValueObjects.ForwardedDoubleOrNull` | SplitFormts/Values/ValueObject.cs:102 | The forwarded accessor is non-null exactly for Integer values. |
| `ValueObjects.DoubleOrNullOf` | SplitFormts/Values/ValueDouble.cs:61 | The accessor as the variant tables define it: the payload for a Double, and the table's own entry for every modelled variant. |
| `ValueObjects.DoubleValueOrNullDropsDoubles` | SplitFormts/Values/ValueObject.cs:102 | For every Double, the forwarded accessor is null while the table holds the payload. `3.14` shows it. |
| `ValueObjects.ForwardingAgreesOffDoubles` | SplitFormts/Values/ValueObject.cs:102 | Off Doubles, the forwarded and the corrected accessor agree. |
| `ValueObjects.ValueObject.IsString` | SplitFormts/Values/ValueObject.cs:136 | Always true. |
| `ValueObjects.ValueObject.ToString` | SplitFormts/Values/ValueObject.cs:479-482 | The text itself, whatever the memo holds. |
| `ValueObjects.ValueObject.Length` | SplitFormts/Values/ValueObject.cs:157-162 | The length of the text. |
| `ValueObjects.ValueObject.At` | SplitFormts/Values/ValueObject.cs:171-176 | Unit `index` of the text. |
| `ValueObjects.ValueObject.GetHashCode` | SplitFormts/Values/ValueObject.cs:429-441 | The byte loop computes FNV-1 over the text's bytes, which equals the per-unit fold. |
| `ValueObjects.ValueObject.Equals` | SplitFormts/Values/ValueObject.cs:446-475 | True exactly for a value with the same text, or a key whose range holds the same text. False for anything else. |
| `ValueObjects.SameUnits` | SplitFormts/Values/ValueObject.cs:451-454 | The comparison loop is true exactly when the two ranges hold the same units. |
| `ValueObjects.ValueKey.constructor` | SplitFormts/Values/ValueKey.cs:13-19 | An empty range over an empty buffer. |
| `ValueObjects.ValueKey.SetKey` | SplitFormts/Values/ValueKey.cs:136-151 | Stores the buffer and the range, then stores the FNV-1 fold of the range's text. A non-empty range outside the buffer throws before the hash is stored. |
| `ValueObjects.HashRange` | SplitFormts/Values/ValueKey.cs:144-150 | The hash loop completes exactly when the range is empty or lies inside the buffer. It then gives the two-rounds-per-unit FNV-1 fold of the range's text. |
| `ValueObjects.ValueKey.Length` | SplitFormts/Values/ValueKey.cs:107-112 | `ed - st`: the text length for a proper range, and negative exactly for a reversed one. |
| `ValueObjects.ValueKey.At` | SplitFormts/Values/ValueKey.cs:121-126 | Reads the buffer at `st + index`, which is unit `index` of the key's text. |
| `ValueObjects.ValueKey.GetHashCode` | SplitFormts/Values/ValueKey.cs:155-158 | The hash stored by the last `SetKey`, never recomputed; while it is current, it is the fold of the text. |
| `ValueObjects.ValueKey.Equals` | SplitFormts/Values/ValueKey.cs:163-179 | True exactly for a value with the key's text. False for any other object, including another key. |
| `ValueObjects.ValueKey.Properties` | SplitFormts/Values/ValueKey.cs:28-104 | `TypeEmpty`. Every predicate is false. The getters give 0, 0 and `DateTime.MinValue`. Every nullable getter is null. |
| `ValueObjects.ValueKey.StringValue` | SplitFormts/Values/ValueKey.cs:48 | Always empty. |
| `ValueObjects.EqualsSymmetric` | SplitFormts/Values/ValueKey.cs:163-179 | A key and a value agree on equality from either side. |
| `ValueObjects.EqualKeyHashesAlike` | SplitFormts/Values/ValueKey.cs:144-150 | A key with a current hash hashes like every value it equals. |
| `ValueObjects.EqualValuesHashAlike` | SplitFormts/Values/ValueObject.cs:429-475 | Equal values hash alike, and equality is symmetric. |
| `ValueCaches.Probe` | SplitFormts/Values/ValueCache.cs:78-81 | A key finds the entry stored under its text. A reversed range finds nothing. |
| `ValueCaches.ProbeFindsEqualValues` | SplitFormts/Values/ValueCache.cs:78-81 | The probe finds exactly the values the key equals. |
| `ValueCaches.Promoted` | SplitFormts/Values/ValueCache.cs:93-97 | The sweep moves exactly the entries with a generation above 0. |
| `ValueCaches.NothingToPromote` | SplitFormts/Values/ValueCache.cs:93-97 | With every generation at 0, the sweep moves nothing. |
| `ValueCaches.Inserted` | SplitFormts/Values/ValueCache.cs:88-89 | Adding a value under its own text keeps every entry keyed by its text, grows the probation table by one, and keeps the generations at 0. |
| `ValueCaches.SweptTable` | SplitFormts/Values/ValueCache.cs:92-98 | A finished sweep leaves `confirmed` plus the promoted entries, with no clash. |
| `ValueCaches.PromoteAll` | SplitFormts/Values/ValueCache.cs:93-97 | The `foreach` completes exactly when no promoted text is already in `confirmed`, which is when `Add` never throws. It then leaves `confirmed` plus the promoted entries. |
| `ValueCaches.ValueCache.constructor` | SplitFormts/Values/ValueCache.cs:58-62 | Both tables start empty. |
| `ValueCaches.ValueCache.Sweep` | SplitFormts/Values/ValueCache.cs:92-99 | Succeeds exactly when no promoted text is already confirmed. It then adds the promoted entries to `confirmed` and clears the probation table. |
| `ValueCaches.ValueCache.GetCache` | SplitFormts/Values/ValueCache.cs:74-101 | Looks in `confirmed`, then in `cache`, then creates and adds a value. A hit returns the stored instance and changes nothing. A miss adds a fresh value with generation 0, clearing the table past 10 000 entries. The result always holds the range's text. The table stays at most 10 000 entries. `confirmed` never changes. |
| `ValueCaches.ValueCache.Add` | SplitFormts/Values/ValueCache.cs:88-99 | The miss branch: a fresh value for the range joins the table with generation 0. A text already present is the `Add` exception, and nothing changes. Past 10 000 entries the table is cleared, and `confirmed` stays as it was. |
| `ValueCaches.ValueCache.GetCacheCounting` | SplitFormts/Values/ValueCache.cs:81-84 | With the increment stored back, a hit in `cache` raises that entry's generation, and a sweep promotes exactly the entries hit before it. |
| `ValueCaches.ValueCache.AddCounting` | SplitFormts/Values/ValueCache.cs:88-99 | The miss branch with counted generations: past 10 000 entries, `confirmed` gains exactly the promoted entries of the grown table, and the table is cleared. |
| `ValueCaches.HitEntriesArePromoted` | SplitFormts/Values/ValueCache.cs:93-97 | An entry hit before the sweep is found in `confirmed` afterwards, holding the same instance. |

## Left out

- The stream is a sequence of characters, and `StreamReader.ReadBlock` and `Peek` are read off it. Stream construction, disposal, the reader wrapper in `CsvStreamReader.cs`, and async use are not part of this model.
- CsvSpliters.CsvSpliter.ReadSplitLine: the echo to `resbuf` is always computed. The `resbuf == null` case, in which nothing is echoed, is not distinguished.
- CsvSpliters.CsvSpliter.ReadSplitLine: the state after an exception is left unspecified. Only the fact that the call throws is modelled, as `None`.
- `CsvLine`: the three `ReadSplitLine` loops share one refill loop, with the per-character switch chosen by mode. The three switches are kept separate, as `TrimChar`, `NoTrimChar` and `PlainChar`.
- Text is a sequence of Dafny `char`s, which are Unicode scalar values, while a C# `char` is a UTF-16 code unit. The two agree on text in the Basic Multilingual Plane. A character above U+FFFF is one element here and two surrogate units in the source, so lengths, indices and boundaries differ for such text (`😀,a` with an LF gives boundaries 0, 2, 3 in the source and 0, 1, 2 here). Lone surrogates cannot be represented.
- FnvHash.BytesAt: the low and high byte are those of the UTF-16 code unit only for characters up to U+FFFF; above, `High` drops bits 16 to 20 and the source's two surrogate units are not walked.
- ValueObjects.ValueObject.GetHashCode: equals the source's UTF-16 byte hash only for text in the Basic Multilingual Plane, for the reason above.
- ValueObjects.ValueKey.SetKey: the stored hash equals the source's only for text in the Basic Multilingual Plane; the stored range and the exception are exact.
- ValueObjects.HashRange: the fold equals the source's only for text in the Basic Multilingual Plane; when it completes is exact.
- `char.IsWhiteSpace` is written out as the Unicode white-space set it accepts.
- The memory-mapped variant under `CsvStream/` is not part of this model.
- ValueObjects.ValueObject.ConvertNumber: doubles are symbolic. A Double holds `(sign, mantissa, exponent)`, and the floating-point scaling loops are not evaluated. So a value whose scaled magnitude would exceed `double.MaxValue`, and which the source turns into a String, is modelled as a Double.
- ValueDouble's payload and its `StringValue` rendering are opaque.
- `DateTime.TryParse` is a parameter `parse`, and a date is an opaque tick count.
- `ValueString` and `ValueDateTime` are not part of this model. They appear as the variants `StringV(dayChecked)` and `DateV`, and their accessor tables are not modelled (`RowOf` is `None` for them). Their nullable integer and double accessors are taken to be null.
- ValueObjects.ValueObject.IsDate and ValueObjects.ValueObject.DateValueOrNull: these rest on what the interface documents for the two missing classes (SplitFormts/Values/IValueObject.cs:53-81), not on their code. A `ValueString`, including the day-checked instance, is taken to answer `IsDate` false and `DateValueOrNull` null. A `ValueDateTime` is taken to answer `IsDate` true and `DateValueOrNull` with its parsed date (`IsDateOf`, `DateOrNullOf`).
- ValueInteger.StringValue assumes the invariant culture's `-` and digits.
- ValueObjects.ValueKey: the key holds the line buffer as a value, a snapshot taken at `SetKey` time. Aliasing the live `List<char>`, whose later changes a reused key would see, is not modelled.
- ValueCaches.ValueCache.GetCache: the dictionaries are maps keyed by the text. That is what the hash and `Equals` of both key kinds amount to, as `ProbeFindsEqualValues` and `EqualKeyHashesAlike` show. The requirement that the key was set on the same range is what `ReadGroup`, its only caller, does.
- ValueCaches.ValueCache.GetCache: after the `Dictionary.Add` exception for a text already present, the result is `Failure(DuplicateKey)` and the tables are left as they were.

## Findings

| source | as written | input that shows it | evidently intended | confidence | as-written member | corrected member |
|---|---|---|---|---|---|---|
| SplitFormts/Values/ValueObject.cs:299-310 | After `e`/`E`, an exponent that is malformed, has a dangling sign, or reaches 308 leaves `exp_v = -1` and still yields a Double | `1e-` gives 1 × 10^-1; `1ex` gives the same | Such text falls back to String; a marker that ends the text keeps its reading | not executed | `NumberScan.MalformedExponentScalesByTenth` | `NumberScan.StrictExponentMeaning` |
| SplitFormts/Values/ValueObject.cs:102 | `DoubleValueOrNull` returns `Instance.IntegerValueOrNull` | `3.14` gives null although the value is a Double | The instance's own `DoubleValueOrNull` | not executed | `ValueObjects.DoubleValueOrNullDropsDoubles` | `ValueObjects.DoubleOrNullOf` |
| SplitFormts/Values/ValueCache.cs:81-84 | `pair.generation++` increments a copy of the struct, so stored generations stay 0 and the sweep never promotes | Any text requested twice and then pushed past 10 000 entries is not confirmed | The incremented entry is stored back, so repeated values are kept by the sweep | not executed | `ValueCaches.ValueCache.GetCache` | `ValueCaches.ValueCache.GetCacheCounting` |
