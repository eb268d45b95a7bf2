/** `parseEntryBlock` (src/utils/logParser.ts:101-196): the fields of one log entry read
    from its block of lines — the level letter, the raw and decoded timestamp, the trailing
    `{"SourceContext":"…"}` tag, the message, and for error entries the exception records —
    and the parse status that says how much of this succeeded. */
module EntryParser {
  import opened Wrappers
  import opened Text
  import opened LogTypes
  import opened Timestamps
  import opened Exceptions

  // ---------------------------------------------------------------- extractClassName

  /** `extractClassName(sourceContext)`: the last `.`-separated segment, or the whole
      name when that segment is empty. */
  function ExtractClassName(sourceContext: string): string {
    if LastPiece(sourceContext, '.') != "" then LastPiece(sourceContext, '.') else sourceContext
  }

  /** A name without dots, or ending in a dot, is its own class name; otherwise the class
      name is the non-empty text after the last dot. */
  lemma ClassNameIsLastSegment(sc: string)
    ensures '.' !in sc ==> ExtractClassName(sc) == sc
    ensures (sc == "" || sc[|sc| - 1] == '.') ==> ExtractClassName(sc) == sc
    ensures sc != "" && sc[|sc| - 1] != '.' ==>
              var r := ExtractClassName(sc);
              r != "" && '.' !in r && |r| <= |sc| && sc[|sc| - |r|..] == r
              && (|r| == |sc| || sc[|sc| - |r| - 1] == '.')
  {
    LastPieceIsTail(sc, '.');
    var t := LastPiece(sc, '.');
    if |t| < |sc| {
      assert sc[|sc| - |t| - 1] in sc;
    }
    if t != "" {
      assert t[|t| - 1] == sc[|sc| - 1];
    }
  }

  // ---------------------------------------------------------------- LOG_ENTRY_START

  function LevelOfLetter(c: char): (r: Option<Level>)
    ensures r.Some? ==> LevelCode(r.value) == c
  {
    if c == 'I' then Some(Info)
    else if c == 'W' then Some(Warning)
    else if c == 'E' then Some(Error)
    else None
  }

  /** A match of the entry start pattern: the level, where the timestamp capture starts
      and ends, and the length of the whole match (the timestamp and the whitespace after
      it included). */
  datatype StartMatch = StartMatch(level: Level, tsStart: nat, tsEnd: nat, length: nat)

  /** `^([IWE])\s+(timestamp)\s+` on `line`. Each `\s+` is followed by a digit or by the
      end of the match, so only its greedy run can succeed. */
  function MatchStart(line: string): (r: Option<StartMatch>)
    ensures r.Some? ==> 2 <= r.value.tsStart < r.value.tsEnd < r.value.length <= |line|
    ensures r.Some? ==> LevelCode(r.value.level) == line[0]
    ensures r.Some? ==> MatchTimestampAt(line, r.value.tsStart, false).Some?
    ensures r.Some? ==> r.value.tsEnd == MatchTimestampAt(line, r.value.tsStart, false).value.meridiem + 2
  {
    if |line| == 0 || LevelOfLetter(line[0]).None? then None
    else
      var i1 := SkipWs(line, 1);
      if i1 == 1 || MatchTimestampAt(line, i1, false).None? then None
      else
        var e := MatchTimestampAt(line, i1, false).value.meridiem + 2;
        if SkipWs(line, e) == e then None
        else Some(StartMatch(LevelOfLetter(line[0]).value, i1, e, SkipWs(line, e)))
  }

  /** `LOG_ENTRY_START.test(line)`. */
  predicate IsStart(line: string) {
    MatchStart(line).Some?
  }

  /** A start line begins with I, W or E, so a blank line never starts an entry. */
  lemma BlankIsNoStart(line: string)
    requires AllWs(line)
    ensures !IsStart(line)
  {
  }

  /** `startMatch[2]`. */
  function TimestampRaw(line: string): string
    requires IsStart(line)
  {
    line[MatchStart(line).value.tsStart..MatchStart(line).value.tsEnd]
  }

  /** `parseTimestamp(timestampRaw)`, which on a captured timestamp always finds the
      pattern, so that the `new Date(ts)` fallback is never taken. */
  function TimestampOf(line: string): (r: DateParts)
    requires IsStart(line)
    ensures ParseTimestamp(TimestampRaw(line)) == Some(r)
  {
    CapturedTimestampParses(line);
    ParseTimestamp(TimestampRaw(line)).value
  }

  lemma CapturedTimestampParses(line: string)
    requires IsStart(line)
    ensures ParseTimestamp(TimestampRaw(line)).Some?
  {
    var sm := MatchStart(line).value;
    var tm := MatchTimestampAt(line, sm.tsStart, false).value;
    assert TimestampRaw(line) == line[sm.tsStart..tm.meridiem + 2];
    ParseMatchedTimestamp(line, sm.tsStart);
  }

  /** `firstLine.substring(startMatch[0].length)`. */
  function AfterTimestamp(line: string): string
    requires IsStart(line)
  {
    line[MatchStart(line).value.length..]
  }

  // ---------------------------------------------------------------- SOURCE_CONTEXT_PATTERN

  const SourceTag := "{\"SourceContext\":\""
  /** The text whose last occurrence ends the message. */
  const SourceTagPrefix := "{\"SourceContext\":"

  /** Where `\{"SourceContext":"([^"]+)"\}\s*$` matches at `p`: the index of the quote
      closing the captured name, or -1. The name runs to the first quote, since `[^"]`
      cannot pass one. */
  function SourceContextAt(s: string, p: nat): (r: int)
    ensures r == -1 || (p + 18 < r && r + 2 <= |s|)
  {
    if MatchesAt(s, SourceTag, p, false) then
      var q := FindFrom(s, "\"", p + 18, false);
      if q > p + 18 && q + 1 < |s| && s[q + 1] == '}' && AllWs(s[q + 2..]) then q else -1
    else -1
  }

  /** The leftmost match of the tag pattern, or -1. */
  function FindSourceContext(s: string): (r: int)
    ensures r == -1 || (0 <= r && SourceContextAt(s, r) >= 0)
    ensures forall k: nat :: (r == -1 || k < r) ==> SourceContextAt(s, k) < 0
  {
    var f := (k: nat) => SourceContextAt(s, k) >= 0;
    var p := FindFirst(f, 0, |s|);
    assert forall k: nat :: (p == -1 || k < p) ==> SourceContextAt(s, k) < 0 by {
      forall k: nat | p == -1 || k < p ensures SourceContextAt(s, k) < 0 {
        if k < |s| { assert !f(k); }
      }
    }
    p
  }

  /** `sourceMatch ? sourceMatch[1] : 'Unknown'`. */
  function SourceContextOf(full: string): string {
    var p := FindSourceContext(full);
    if p < 0 then "Unknown" else full[p + 18..SourceContextAt(full, p)]
  }

  lemma TagPrefixChars(s: string, m: nat)
    ensures MatchesAt(s, SourceTagPrefix, m, false) ==>
              m + 17 <= |s| && s[m] == '{' && s[m + 1] == '"' && s[m + 2] == 'S'
  {
    MatchesAtChars(s, SourceTagPrefix, m, false);
  }

  lemma QuoteChar(s: string, k: nat)
    ensures MatchesAt(s, "\"", k, false) <==> k < |s| && s[k] == '"'
  {
    MatchesAtChars(s, "\"", k, false);
  }

  /** Wherever the tag pattern matches, the last `{"SourceContext":` in the text is where
      the match starts: the name holds no quote, and only whitespace follows the tag. */
  lemma SourceTagIsLast(s: string, p: nat)
    requires SourceContextAt(s, p) >= 0
    ensures LastIndexOf(s, SourceTagPrefix) == p
  {
    var q := SourceContextAt(s, p);
    MatchesAtChars(s, SourceTag, p, false);
    assert SourceTagPrefix == SourceTag[..17];
    MatchesAtChars(s, SourceTagPrefix, p, false);
    assert MatchesAt(s, SourceTagPrefix, p, false);
    QuoteChar(s, q);
    forall m: nat | p < m ensures !MatchesAt(s, SourceTagPrefix, m, false) {
      TagPrefixChars(s, m);
      if m < p + 18 {
        assert CharEq(s[p + (m - p)], SourceTag[m - p], false);
      } else if m + 1 < q {
        QuoteChar(s, m + 1);
      } else if m >= q + 2 && m < |s| {
        assert s[m] == s[q + 2..][m - q - 2];
      }
    }
  }

  /** The message: the trimmed text before the tag when it matches, else all of it
      trimmed. */
  function MessageOf(full: string): string {
    var p := FindSourceContext(full);
    if p < 0 then Trim(full)
    else
      SourceTagIsLast(full, p);
      Trim(full[..LastIndexOf(full, SourceTagPrefix)])
  }

  // ---------------------------------------------------------------- the entry

  const NoStartError := "Could not identify log entry start pattern"
  const ExceptionError := "Could not parse exception details"
  const MissingSourceError := "Missing SourceContext metadata"

  /** `fullContent`: the text after the timestamp and, when the block has more than one
      line, the other lines after a line break. */
  function FullContent(lines: seq<string>, lineCount: int): string
    requires |lines| >= 1 && IsStart(lines[0])
  {
    if lineCount > 1 then AfterTimestamp(lines[0]) + "\n" + JoinLines(lines[1..])
    else AfterTimestamp(lines[0])
  }

  /** The test at src/utils/logParser.ts:170 for looking for exception records. */
  predicate LooksLikeException(level: Level, message: string) {
    level == Error && Contains(message, "<") && Contains(message, "Exception")
  }

  /** The records of the message, when there are at least two. */
  function NestedField(message: string): Option<seq<ExceptionInfo>> {
    if |NestedFrom(message, 0)| > 1 then Some(NestedFrom(message, 0)) else None
  }

  /** The entry with the exception fields filled in from `message`, or marked partial when
      no primary exception can be found. */
  function WithException(base: LogEntry, message: string): LogEntry {
    if ExtractPrimaryException(message).None? then
      base.(parseStatus := Partial, parseError := Some(ExceptionError))
    else
      base.(exceptionType := Some(ExtractPrimaryException(message).value.typ),
            exceptionMessage := Some(ExtractPrimaryException(message).value.message),
            stackTrace := Some(ExtractPrimaryException(message).value.stackTrace),
            nestedExceptions := NestedField(message))
  }

  /** `startMatch[1]`. */
  function EntryLevel(line: string): Level
    requires IsStart(line)
  {
    MatchStart(line).value.level
  }

  /** The entry before the exception and status checks. */
  function BaseEntry(lines: seq<string>, rawContent: string, lineNumber: nat, lineCount: int, id: nat): LogEntry
    requires |lines| >= 1 && IsStart(lines[0])
  {
    LogEntry(id, EntryLevel(lines[0]), TimestampOf(lines[0]), TimestampRaw(lines[0]),
             MessageOf(FullContent(lines, lineCount)), SourceContextOf(FullContent(lines, lineCount)),
             ExtractClassName(SourceContextOf(FullContent(lines, lineCount))), rawContent, lineNumber,
             lineCount, Parsed, None, None, None, None, None, None)
  }

  /** The exception check of an error entry. */
  function CheckException(e: LogEntry): LogEntry {
    if LooksLikeException(e.level, e.message) then WithException(e, e.message) else e
  }

  /** The check for the source context tag, which only error entries may lack. */
  function CheckSource(e: LogEntry, full: string): LogEntry {
    if FindSourceContext(full) < 0 && e.level != Error then
      e.(parseStatus := Partial, parseError := Some(MissingSourceError))
    else e
  }

  /** The entry read from a block whose first line matches the start pattern. */
  function StartedEntry(lines: seq<string>, rawContent: string, lineNumber: nat, lineCount: int, id: nat): LogEntry
    requires |lines| >= 1 && IsStart(lines[0])
  {
    CheckSource(CheckException(BaseEntry(lines, rawContent, lineNumber, lineCount, id)), FullContent(lines, lineCount))
  }

  /** The body of `parseEntryBlock` once the block's lines are known: `lines[0]` is the
      first line; `now` is the `new Date()` taken for a block with no start line. */
  function EntryOf(lines: seq<string>, rawContent: string, lineNumber: nat, lineCount: int, id: nat, now: DateParts): LogEntry
    requires |lines| >= 1
  {
    if !IsStart(lines[0]) then
      LogEntry(id, Info, now, "", rawContent, "Unknown", "Unknown", rawContent, lineNumber,
               lineCount, Unparsed, None, None, None, None, Some(NoStartError), None)
    else StartedEntry(lines, rawContent, lineNumber, lineCount, id)
  }

  /** `parseEntryBlock(rawContent, …)` as written: it splits `rawContent` on `\r?\n`
      again, which also removes a carriage return that ended a line of the block. */
  function ParseEntryBlockAsWritten(rawContent: string, lineNumber: nat, lineCount: int, id: nat, now: DateParts): LogEntry {
    EntryOf(SplitLines(rawContent), rawContent, lineNumber, lineCount, id, now)
  }

  /** The block parser reading the lines the block was built from, whose join is its raw
      content. */
  function BlockEntry(lines: seq<string>, lineNumber: nat, lineCount: int, id: nat, now: DateParts): (r: LogEntry)
    requires |lines| >= 1
    ensures r.parseStatus == Unparsed <==> !IsStart(lines[0])
  {
    UnparsedExactlyWithoutStart(lines, JoinLines(lines), lineNumber, lineCount, id, now);
    EntryOf(lines, JoinLines(lines), lineNumber, lineCount, id, now)
  }

  /** `parseEntryBlock`, step by step as the source builds the entry, reading the block's
      own lines. */
  method ParseEntryBlock(lines: seq<string>, lineNumber: nat, lineCount: int, id: nat, now: DateParts)
    returns (entry: LogEntry)
    requires |lines| >= 1
    ensures entry == BlockEntry(lines, lineNumber, lineCount, id, now)
  {
    var rawContent := JoinLines(lines);
    var firstLine := lines[0];
    if !IsStart(firstLine) {
      entry := LogEntry(id, Info, now, "", rawContent, "Unknown", "Unknown", rawContent, lineNumber,
                        lineCount, Unparsed, None, None, None, None, Some(NoStartError), None);
      return;
    }
    var level := MatchStart(firstLine).value.level;
    var fullContent := FullContent(lines, lineCount);
    var sourceContext := SourceContextOf(fullContent);
    var message := MessageOf(fullContent);
    entry := LogEntry(id, level, TimestampOf(firstLine), TimestampRaw(firstLine), message, sourceContext,
                      ExtractClassName(sourceContext), rawContent, lineNumber, lineCount, Parsed,
                      None, None, None, None, None, None);
    if LooksLikeException(level, message) {
      var primary := ExtractPrimaryException(message);
      if primary.Some? {
        entry := entry.(exceptionType := Some(primary.value.typ),
                        exceptionMessage := Some(primary.value.message),
                        stackTrace := Some(primary.value.stackTrace));
        var allExceptions := ParseNestedExceptions(message);
        if |allExceptions| > 1 {
          entry := entry.(nestedExceptions := Some(allExceptions));
        }
      } else {
        entry := entry.(parseStatus := Partial, parseError := Some(ExceptionError));
      }
    }
    if FindSourceContext(fullContent) < 0 && level != Error {
      entry := entry.(parseStatus := Partial, parseError := Some(MissingSourceError));
    }
  }

  // ---------------------------------------------------------------- properties

  /** A block whose first line does not match the start pattern is the only source of an
      unparsed entry; its message is the raw content. */
  lemma UnparsedExactlyWithoutStart(lines: seq<string>, rawContent: string, lineNumber: nat, lineCount: int, id: nat, now: DateParts)
    requires |lines| >= 1
    ensures EntryOf(lines, rawContent, lineNumber, lineCount, id, now).parseStatus == Unparsed <==> !IsStart(lines[0])
    ensures !IsStart(lines[0]) ==>
              EntryOf(lines, rawContent, lineNumber, lineCount, id, now).message == rawContent
              && EntryOf(lines, rawContent, lineNumber, lineCount, id, now).parseError == Some(NoStartError)
              && EntryOf(lines, rawContent, lineNumber, lineCount, id, now).timestamp == now
  {
    if IsStart(lines[0]) {
      StatusRules(lines, rawContent, lineNumber, lineCount, id);
    }
  }

  /** An entry before its checks: parsed, with no exception fields and no error. */
  predicate Unchecked(e: LogEntry) {
    e.parseStatus == Parsed && e.exceptionType.None? && e.exceptionMessage.None?
    && e.stackTrace.None? && e.nestedExceptions.None? && e.parseError.None?
  }

  /** The entry with the fields the checks may set put back to their unchecked values. */
  function Cleared(e: LogEntry): LogEntry {
    e.(parseStatus := Parsed, exceptionType := None, exceptionMessage := None, stackTrace := None,
       nestedExceptions := None, parseError := None)
  }

  /** The exception check changes only the exception fields, the status and the error. It
      marks the entry partial exactly when an error message looks like an exception but
      holds no primary record; otherwise, on an error entry with a primary record, it sets
      the type (a dotted word name ending in `Exception` or `Error`), the trimmed message,
      the frames of the first record of that type, and the nested list only when there are
      at least two records, the first of them the primary one. */
  lemma CheckExceptionRules(e: LogEntry)
    requires Unchecked(e)
    ensures Cleared(CheckException(e)) == e
    ensures CheckException(e).parseStatus == Partial <==>
              LooksLikeException(e.level, e.message) && ExtractPrimaryException(e.message).None?
    ensures CheckException(e).parseStatus == Partial ==> CheckException(e).parseError == Some(ExceptionError)
    ensures CheckException(e).parseStatus != Partial ==> Unchecked(Cleared(CheckException(e))) && CheckException(e).parseStatus == Parsed && CheckException(e).parseError.None?
    ensures CheckException(e).exceptionType.Some? || CheckException(e).exceptionMessage.Some?
            || CheckException(e).stackTrace.Some? || CheckException(e).nestedExceptions.Some? ==>
              e.level == Error && CheckException(e).exceptionType.Some?
              && CheckException(e).exceptionMessage.Some? && CheckException(e).stackTrace.Some?
    ensures CheckException(e).exceptionType.Some? ==>
              IsExceptionType(CheckException(e).exceptionType.value)
              && CheckException(e).exceptionMessage.value == Trim(CheckException(e).exceptionMessage.value)
              && CheckException(e).stackTrace == Some(StackForType(e.message, CheckException(e).exceptionType.value))
    ensures CheckException(e).nestedExceptions.Some? ==>
              CheckException(e).nestedExceptions == Some(NestedFrom(e.message, 0))
              && |CheckException(e).nestedExceptions.value| >= 2
              && CheckException(e).nestedExceptions.value[0].typ == CheckException(e).exceptionType.value
  {
    if NestedFrom(e.message, 0) != [] {
      NestedStartsWithPrimary(e.message);
    }
  }

  /** The fields read from a start line: its level letter, the captured timestamp and its
      decoding, the source context (`"Unknown"` without the tag) and the message, which is
      the trimmed text before the tag's match. */
  lemma BaseFields(lines: seq<string>, rawContent: string, lineNumber: nat, lineCount: int, id: nat)
    requires |lines| >= 1 && IsStart(lines[0])
    ensures Unchecked(BaseEntry(lines, rawContent, lineNumber, lineCount, id))
    ensures LevelCode(BaseEntry(lines, rawContent, lineNumber, lineCount, id).level) == lines[0][0]
    ensures BaseEntry(lines, rawContent, lineNumber, lineCount, id).timestampRaw == TimestampRaw(lines[0])
    ensures ParseTimestamp(BaseEntry(lines, rawContent, lineNumber, lineCount, id).timestampRaw)
            == Some(BaseEntry(lines, rawContent, lineNumber, lineCount, id).timestamp)
    ensures FindSourceContext(FullContent(lines, lineCount)) < 0 ==>
              BaseEntry(lines, rawContent, lineNumber, lineCount, id).sourceContext == "Unknown"
              && BaseEntry(lines, rawContent, lineNumber, lineCount, id).message == Trim(FullContent(lines, lineCount))
    ensures FindSourceContext(FullContent(lines, lineCount)) >= 0 ==>
              BaseEntry(lines, rawContent, lineNumber, lineCount, id).message
              == Trim(FullContent(lines, lineCount)[..FindSourceContext(FullContent(lines, lineCount))])
    ensures BaseEntry(lines, rawContent, lineNumber, lineCount, id).className
            == ExtractClassName(BaseEntry(lines, rawContent, lineNumber, lineCount, id).sourceContext)
    ensures BaseEntry(lines, rawContent, lineNumber, lineCount, id).rawContent == rawContent
  {
    var full := FullContent(lines, lineCount);
    if FindSourceContext(full) >= 0 {
      SourceTagIsLast(full, FindSourceContext(full));
    }
  }

  /** How the parse status of a started entry is chosen: never unparsed; partial with
      "Missing SourceContext metadata" for a non-error entry without the tag; otherwise the
      status the exception check gave; and the checks change nothing but the status, the
      error and the exception fields. */
  lemma StatusRules(lines: seq<string>, rawContent: string, lineNumber: nat, lineCount: int, id: nat)
    requires |lines| >= 1 && IsStart(lines[0])
    ensures Cleared(StartedEntry(lines, rawContent, lineNumber, lineCount, id)) == BaseEntry(lines, rawContent, lineNumber, lineCount, id)
    ensures StartedEntry(lines, rawContent, lineNumber, lineCount, id).parseStatus != Unparsed
    ensures FindSourceContext(FullContent(lines, lineCount)) < 0 && EntryLevel(lines[0]) != Error ==>
              StartedEntry(lines, rawContent, lineNumber, lineCount, id).parseStatus == Partial
              && StartedEntry(lines, rawContent, lineNumber, lineCount, id).parseError == Some(MissingSourceError)
    ensures FindSourceContext(FullContent(lines, lineCount)) >= 0 || EntryLevel(lines[0]) == Error ==>
              StartedEntry(lines, rawContent, lineNumber, lineCount, id)
              == CheckException(BaseEntry(lines, rawContent, lineNumber, lineCount, id))
    ensures StartedEntry(lines, rawContent, lineNumber, lineCount, id).parseStatus == Parsed <==>
              StartedEntry(lines, rawContent, lineNumber, lineCount, id).parseError.None?
  {
    BaseFields(lines, rawContent, lineNumber, lineCount, id);
    CheckExceptionRules(BaseEntry(lines, rawContent, lineNumber, lineCount, id));
  }

  /** Where the block's lines hold no carriage return before a line break, splitting the
      raw content again gives back the same lines, so the source's parser and the block
      parser agree. */
  lemma AsWrittenAgrees(lines: seq<string>, lineNumber: nat, lineCount: int, id: nat, now: DateParts)
    requires |lines| >= 1
    requires forall k :: 0 <= k < |lines| ==> '\n' !in lines[k]
    requires forall k :: 0 <= k < |lines| - 1 ==> DropCR(lines[k]) == lines[k]
    ensures ParseEntryBlockAsWritten(JoinLines(lines), lineNumber, lineCount, id, now)
            == BlockEntry(lines, lineNumber, lineCount, id, now)
  {
    SplitJoinLinesExact(lines);
  }

  // ---------------------------------------------------------------- the carriage return

  /** A start line of a file with "\r\r\n" line ends: the block keeps one carriage return,
      which the last `\s+` of the start pattern consumes. */
  const CrLine := "E 2024-01-15 3:45:22 PM\r"
  /** The same line once splitting on `\r?\n` has removed that carriage return. */
  const BareLine := "E 2024-01-15 3:45:22 PM"

  /** `t` begins with the characters of the sample line. */
  predicate LikeBare(t: string) {
    |t| >= 23 && forall k :: 0 <= k < 23 ==> t[k] == BareLine[k]
  }

  lemma LikeBareOf(t: string)
    requires |t| >= 23 && t[..23] == BareLine
    ensures LikeBare(t)
  {
    forall k | 0 <= k < 23 ensures t[k] == BareLine[k] {
      assert t[..23][k] == t[k];
    }
  }

  lemma SampleDate(t: string)
    requires LikeBare(t)
    ensures t[0] == 'E' && SkipWs(t, 1) == 2 && DateAt(t, 2) && SkipWs(t, 12) == 13
  {
    assert t[1] == ' ' && t[2] == '2';
    assert t[12] == ' ' && t[13] == '3';
  }

  lemma SampleClock(t: string)
    requires LikeBare(t)
    ensures ClockAt(t, 13, false) == Some((14, 21))
  {
    assert HourEnd(t, 13) == Some(14);
    assert t[20] == ' ' && t[21] == 'P';
    assert SkipWs(t, 20) == 21;
  }

  /** On text that begins like the sample line, the timestamp match starts at 2 and its
      `PM` at 21. */
  lemma SampleTimestamp(t: string)
    requires |t| >= 23 && t[..23] == BareLine
    ensures t[0] == 'E' && SkipWs(t, 1) == 2
    ensures MatchTimestampAt(t, 2, false) == Some(TsMatch(13, 14, 21))
  {
    LikeBareOf(t);
    SampleDate(t);
    SampleClock(t);
    MatchTimestampFromParts(t, 2, false, TsMatch(13, 14, 21));
  }

  /** The start pattern matches the line with its carriage return, but not the line without
      it, where nothing is left for the last `\s+`. */
  lemma CarriageReturnDecidesStart()
    ensures IsStart(CrLine)
    ensures !IsStart(BareLine)
  {
    assert CrLine[..23] == BareLine;
    SampleTimestamp(CrLine);
    SampleTimestamp(BareLine);
    assert SkipWs(CrLine, 23) == 24;
    assert SkipWs(BareLine, 23) == 23;
  }

  /** Splitting the block's raw content again drops the carriage return. */
  lemma ResplitDropsCr(tail: string)
    requires '\n' !in tail
    ensures SplitLines(JoinLines([CrLine, tail])) == [BareLine, tail]
  {
    var lines := [CrLine, tail];
    assert '\n' !in CrLine;
    SplitJoinLines(lines);
    assert DropCR(CrLine) == BareLine;
  }

  /** The source's parser reads a block that starts with `CrLine` as unparsed, since its
      re-split first line fails the start pattern; the block parser reads it as an error
      entry. */
  lemma AsWrittenLosesEntry(tail: string, now: DateParts)
    requires '\n' !in tail
    ensures ParseEntryBlockAsWritten(JoinLines([CrLine, tail]), 1, 2, 0, now).parseStatus == Unparsed
    ensures BlockEntry([CrLine, tail], 1, 2, 0, now).parseStatus != Unparsed
  {
    CarriageReturnDecidesStart();
    ResplitDropsCr(tail);
    var lines := [CrLine, tail];
    UnparsedExactlyWithoutStart([BareLine, tail], JoinLines(lines), 1, 2, 0, now);
    UnparsedExactlyWithoutStart(lines, JoinLines(lines), 1, 2, 0, now);
  }

  /** A carriage return that ends a line other than the last stays in the block's lines but
      not in the re-split content, so the messages differ: for the line
      `E 2024-01-15 3:45:22 PM a\r` followed by `b`, the source's message is `a\nb` and the
      block parser's is `a\r\nb` (`SampleRest`). */
  lemma AsWrittenDropsInnerCr(first: string, now: DateParts)
    requires |first| == 26 && first[..23] == BareLine && first[23..] == " a\r"
    ensures ParseEntryBlockAsWritten(JoinLines([first, "b"]), 1, 2, 0, now).message
            != BlockEntry([first, "b"], 1, 2, 0, now).message
  {
    AsWrittenInnerCrMessage(first, now);
    BlockInnerCrMessage(first, now);
  }

  lemma AsWrittenInnerCrMessage(first: string, now: DateParts)
    requires |first| == 26 && first[..23] == BareLine && first[23..] == " a\r"
    ensures ParseEntryBlockAsWritten(JoinLines([first, "b"]), 1, 2, 0, now).message == first[24..25] + "\n" + "b"
  {
    InnerCrResplit(first);
    InnerCrMessage(first[..25], first[24..25], JoinLines([first, "b"]), now);
  }

  lemma BlockInnerCrMessage(first: string, now: DateParts)
    requires |first| == 26 && first[..23] == BareLine && first[23..] == " a\r"
    ensures BlockEntry([first, "b"], 1, 2, 0, now).message == first[24..] + "\n" + "b"
  {
    InnerCrMessage(first, first[24..], JoinLines([first, "b"]), now);
  }

  /** Splitting the block's content again drops the carriage return of its first line. */
  lemma InnerCrResplit(first: string)
    requires |first| == 26 && first[..23] == BareLine && first[23..] == " a\r"
    ensures SplitLines(JoinLines([first, "b"])) == [first[..25], "b"]
    ensures first[..25][..23] == BareLine && first[..25][23..] == " a"
  {
    assert first[..25][..23] == first[..23];
    assert first[..25][23..] == first[23..][..2];
    assert '\n' !in first by {
      forall k | 0 <= k < 26 ensures first[k] != '\n' {
        if k < 23 { assert first[k] == first[..23][k]; } else { assert first[k] == first[23..][k - 23]; }
      }
    }
    SplitJoinLines([first, "b"]);
  }

  /** The message of the sample line followed by a space and `rest`, then the line `b`. */
  lemma InnerCrMessage(first: string, rest: string, rawContent: string, now: DateParts)
    requires 1 <= |rest| <= 2 && rest[0] == 'a'
    requires |first| == 24 + |rest| && first[..23] == BareLine && first[23..] == " " + rest
    ensures EntryOf([first, "b"], rawContent, 1, 2, 0, now).message == rest + "\n" + "b"
  {
    InnerLineStarts(first, rest);
    TwoLineMessage(first, "b", rawContent, 1, 0, now);
    RestMessage(rest);
  }

  lemma RestMessage(rest: string)
    requires 1 <= |rest| <= 2 && rest[0] == 'a'
    ensures MessageOf(rest + "\n" + "b") == rest + "\n" + "b"
  {
    var full := rest + "\n" + "b";
    assert full[0] == 'a' && full[|full| - 1] == 'b';
    ShortMessage(full);
  }

  /** The message of a two-line block with a start line. */
  lemma TwoLineMessage(first: string, second: string, rawContent: string, lineNumber: nat, id: nat, now: DateParts)
    requires IsStart(first)
    ensures EntryOf([first, second], rawContent, lineNumber, 2, id, now).message
            == MessageOf(AfterTimestamp(first) + "\n" + second)
  {
    StatusRules([first, second], rawContent, lineNumber, 2, id);
    assert [first, second][1..] == [second];
  }

  /** The sample start line followed by a space and the text `rest`. */
  lemma InnerLineStarts(t: string, rest: string)
    requires |t| >= 25 && t[..23] == BareLine && t[23..] == " " + rest && rest[0] == 'a'
    ensures IsStart(t) && AfterTimestamp(t) == rest
  {
    SampleTimestamp(t);
    assert t[23] == t[23..][0] && t[24] == t[23..][1];
    assert SkipWs(t, 23) == 24;
    assert t[24..] == rest;
  }

  /** A text too short for the tag, with no white space at either end, is its own message. */
  lemma ShortMessage(full: string)
    requires |full| < 18 && |full| > 0 && !IsWs(full[0]) && !IsWs(full[|full| - 1])
    ensures MessageOf(full) == full
  {
    assert SkipWs(full, 0) == 0;
    assert SkipWsBack(full, |full|) == |full|;
  }
}
