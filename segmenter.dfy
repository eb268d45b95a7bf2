/** `parseLogFile` (src/utils/logParser.ts:201-260): the text is split into lines, the
    lines are grouped into blocks, each starting at a line that matches the entry start
    pattern and running up to the next one, and each block is read as one entry. */
module Segmenter {
  import opened Text
  import opened LogTypes
  import opened EntryParser
  import Exceptions

  /** One entry block: `startLine` is the 1-based number of its first line, `endLine` what
      the source records as its end, and `lines` the lines it holds. */
  datatype Block = Block(startLine: nat, endLine: nat, lines: seq<string>)

  /** `endLine - startLine + 1`, the `lineCount` handed to the block parser. */
  function LineCount(b: Block): int {
    b.endLine - b.startLine + 1
  }

  /** The first index from `j` on whose line passes `isStart`, or the number of lines. The
      first pass depends on the start pattern only through which lines it accepts, so its
      functions take that test as a parameter. */
  function NextStartFrom(isStart: string -> bool, lines: seq<string>, j: nat): (r: nat)
    requires j <= |lines|
    ensures j <= r <= |lines|
    ensures r < |lines| ==> isStart(lines[r])
    ensures forall k :: j <= k < r ==> !isStart(lines[k])
    decreases |lines| - j
  {
    if j == |lines| || isStart(lines[j]) then j else NextStartFrom(isStart, lines, j + 1)
  }

  /** The blocks from the start line at index `a` to the end. */
  function BlocksFrom(isStart: string -> bool, lines: seq<string>, a: nat): (r: seq<Block>)
    requires a < |lines| && isStart(lines[a])
    ensures |r| >= 1 && NonEmptyBlocks(r)
    decreases |lines| - a
  {
    var b := NextStartFrom(isStart, lines, a + 1);
    [Block(a + 1, b, lines[a..b])] + (if b < |lines| then BlocksFrom(isStart, lines, b) else [])
  }

  /** The blocks of the first pass: the lines before the first start line are dropped. */
  function SegmentBy(isStart: string -> bool, lines: seq<string>): (r: seq<Block>)
    ensures NonEmptyBlocks(r)
  {
    var a := NextStartFrom(isStart, lines, 0);
    if a == |lines| then [] else BlocksFrom(isStart, lines, a)
  }

  /** The blocks of the first pass of `parseLogFile`. */
  function Segment(lines: seq<string>): seq<Block> {
    SegmentBy(IsStart, lines)
  }

  /** No blank line starts an entry, so skipping blank lines before the first block drops
      no start line. */
  lemma BlankLinesStartNothing()
    ensures forall line {:trigger Trim(line)} :: Trim(line) == "" ==> !IsStart(line)
  {
    forall line | Trim(line) == "" ensures !IsStart(line) {
      BlankIsNoStart(line);
    }
  }

  /** The state of the first pass before line `i` once a block has begun: the block began
      on line number `currentBlockStart`, holds the lines read since, and the blocks pushed
      so far followed by the blocks from its start line are all the blocks. */
  predicate InBlock(isStart: string -> bool, lines: seq<string>, i: nat, currentBlockStart: int,
                    currentBlockLines: seq<string>, entryBlocks: seq<Block>)
  {
    1 <= currentBlockStart <= i <= |lines| && isStart(lines[currentBlockStart - 1])
    && NextStartFrom(isStart, lines, currentBlockStart) >= i
    && currentBlockLines == lines[currentBlockStart - 1..i]
    && entryBlocks + BlocksFrom(isStart, lines, currentBlockStart - 1) == SegmentBy(isStart, lines)
  }

  /** The first pass of `parseLogFile`, with `currentBlockStart` -1 until the first start
      line, for a start test that no blank line passes. */
  method SegmentLines(lines: seq<string>, isStart: string -> bool) returns (entryBlocks: seq<Block>)
    requires forall line {:trigger Trim(line)} :: Trim(line) == "" ==> !isStart(line)
    ensures entryBlocks == SegmentBy(isStart, lines)
  {
    entryBlocks := [];
    var currentBlockStart: int := -1;
    var currentBlockLines: seq<string> := [];
    for i := 0 to |lines|
      invariant currentBlockStart == -1 ==> NextStartFrom(isStart, lines, 0) >= i && entryBlocks == []
      invariant currentBlockStart != -1 ==>
                  InBlock(isStart, lines, i, currentBlockStart, currentBlockLines, entryBlocks)
    {
      var line := lines[i];
      if currentBlockStart == -1 && Trim(line) == "" {
        continue;
      }
      if isStart(line) {
        if currentBlockStart != -1 && |currentBlockLines| > 0 {
          StartNext(isStart, lines, i, currentBlockStart, currentBlockLines, entryBlocks);
          entryBlocks := entryBlocks + [Block(currentBlockStart, i, currentBlockLines)];
        } else {
          StartFirst(isStart, lines, i);
        }
        currentBlockStart := i + 1;
        currentBlockLines := [line];
      } else if currentBlockStart != -1 {
        Continue(isStart, lines, i, currentBlockStart, currentBlockLines, entryBlocks);
        currentBlockLines := currentBlockLines + [line];
      }
    }
    if currentBlockStart != -1 && |currentBlockLines| > 0 {
      Finish(isStart, lines, currentBlockStart, currentBlockLines, entryBlocks);
      entryBlocks := entryBlocks + [Block(currentBlockStart, |lines|, currentBlockLines)];
    } else {
      FinishEmpty(isStart, lines);
    }
  }

  /** The first start line begins the first block. */
  lemma StartFirst(isStart: string -> bool, lines: seq<string>, i: nat)
    requires i < |lines| && isStart(lines[i]) && NextStartFrom(isStart, lines, 0) >= i
    ensures InBlock(isStart, lines, i + 1, i + 1, [lines[i]], [])
  {
    SliceOne(lines, i);
    FirstBlock(isStart, lines, i);
  }

  lemma SliceOne<T>(s: seq<T>, i: nat)
    requires i < |s|
    ensures s[i..i + 1] == [s[i]]
  {
  }

  lemma FirstBlock(isStart: string -> bool, lines: seq<string>, i: nat)
    requires i < |lines| && isStart(lines[i]) && NextStartFrom(isStart, lines, 0) >= i
    ensures [] + BlocksFrom(isStart, lines, i) == SegmentBy(isStart, lines)
  {
    assert NextStartFrom(isStart, lines, 0) == i;
    var r := BlocksFrom(isStart, lines, i);
    assert SegmentBy(isStart, lines) == r;
    assert [] + r == r;
  }

  /** A later start line ends the current block, which is pushed, and begins the next. */
  lemma StartNext(isStart: string -> bool, lines: seq<string>, i: nat, currentBlockStart: int,
                  currentBlockLines: seq<string>, entryBlocks: seq<Block>)
    requires InBlock(isStart, lines, i, currentBlockStart, currentBlockLines, entryBlocks)
    requires i < |lines| && isStart(lines[i])
    ensures InBlock(isStart, lines, i + 1, i + 1, [lines[i]],
                    entryBlocks + [Block(currentBlockStart, i, currentBlockLines)])
  {
    assert [lines[i]] == lines[i..i + 1];
    NextBlock(isStart, lines, currentBlockStart - 1, i);
    Exceptions.AppendStep(entryBlocks, BlocksFrom(isStart, lines, currentBlockStart - 1),
                          Block(currentBlockStart, i, currentBlockLines), BlocksFrom(isStart, lines, i),
                          SegmentBy(isStart, lines));
  }

  /** Any other line continues the current block. */
  lemma Continue(isStart: string -> bool, lines: seq<string>, i: nat, currentBlockStart: int,
                 currentBlockLines: seq<string>, entryBlocks: seq<Block>)
    requires InBlock(isStart, lines, i, currentBlockStart, currentBlockLines, entryBlocks)
    requires i < |lines| && !isStart(lines[i])
    ensures InBlock(isStart, lines, i + 1, currentBlockStart, currentBlockLines + [lines[i]], entryBlocks)
  {
    SliceExtend(lines, currentBlockStart - 1, i);
  }

  /** At the end the current block is the last one. */
  lemma Finish(isStart: string -> bool, lines: seq<string>, currentBlockStart: int,
               currentBlockLines: seq<string>, entryBlocks: seq<Block>)
    requires InBlock(isStart, lines, |lines|, currentBlockStart, currentBlockLines, entryBlocks)
    ensures entryBlocks + [Block(currentBlockStart, |lines|, currentBlockLines)] == SegmentBy(isStart, lines)
  {
    LastBlock(isStart, lines, currentBlockStart - 1);
  }

  /** Without a start line there is no block. */
  lemma FinishEmpty(isStart: string -> bool, lines: seq<string>)
    requires NextStartFrom(isStart, lines, 0) >= |lines|
    ensures SegmentBy(isStart, lines) == []
  {
  }

  lemma SliceExtend<T>(s: seq<T>, a: nat, i: nat)
    requires a <= i < |s|
    ensures s[a..i] + [s[i]] == s[a..i + 1]
  {
  }

  /** A start line at `i` with none between the start line at `a` and it ends the block
      from `a`. */
  lemma NextBlock(isStart: string -> bool, lines: seq<string>, a: nat, i: nat)
    requires a < i < |lines| && isStart(lines[a]) && isStart(lines[i])
    requires NextStartFrom(isStart, lines, a + 1) >= i
    ensures BlocksFrom(isStart, lines, a) == [Block(a + 1, i, lines[a..i])] + BlocksFrom(isStart, lines, i)
  {
  }

  /** The block from the last start line runs to the end. */
  lemma LastBlock(isStart: string -> bool, lines: seq<string>, a: nat)
    requires a < |lines| && isStart(lines[a])
    requires NextStartFrom(isStart, lines, a + 1) >= |lines|
    ensures BlocksFrom(isStart, lines, a) == [Block(a + 1, |lines|, lines[a..])]
  {
    assert lines[a..NextStartFrom(isStart, lines, a + 1)] == lines[a..];
    Exceptions.AppendEmpty([Block(a + 1, |lines|, lines[a..])]);
  }

  // ---------------------------------------------------------------- entries

  /** The entry of the `k`-th block. */
  function EntryOfBlock(b: Block, k: nat, now: DateParts): LogEntry
    requires |b.lines| >= 1
  {
    BlockEntry(b.lines, b.startLine, LineCount(b), k, now)
  }

  predicate NonEmptyBlocks(blocks: seq<Block>) {
    forall k :: 0 <= k < |blocks| ==> |blocks[k].lines| >= 1
  }

  /** The second pass: block `k` becomes the entry with id `k`. */
  function EntriesOf(blocks: seq<Block>, now: DateParts): (r: seq<LogEntry>)
    requires NonEmptyBlocks(blocks)
    ensures |r| == |blocks|
  {
    seq(|blocks|, k requires 0 <= k < |blocks| => EntryOfBlock(blocks[k], k, now))
  }

  /** What `parseLogFile(content)` returns, with the block parser reading each block's own
      lines. */
  function ParseLog(content: string, now: DateParts): seq<LogEntry> {
    EntriesOf(Segment(SplitLines(content)), now)
  }

  /** What `parseLogFile(content)` returns as written: each block is handed over as its raw
      content, which the block parser splits on `\r?\n` again. */
  function ParseLogAsWritten(content: string, now: DateParts): seq<LogEntry> {
    AsWrittenOfLines(SplitLines(content), now)
  }

  /** Where no line of the content but the last ends in a carriage return, re-splitting each
      block gives back its lines, so the parser as written and `ParseLog` agree. */
  lemma AsWrittenFileAgrees(content: string, now: DateParts)
    requires forall k :: 0 <= k < |SplitLines(content)| - 1 ==> DropCR(SplitLines(content)[k]) == SplitLines(content)[k]
    ensures ParseLogAsWritten(content, now) == ParseLog(content, now)
  {
    LinesAgree(SplitLines(content), now);
  }

  function AsWrittenOfLines(lines: seq<string>, now: DateParts): seq<LogEntry> {
    var blocks := Segment(lines);
    seq(|blocks|, k requires 0 <= k < |blocks| =>
          ParseEntryBlockAsWritten(JoinLines(blocks[k].lines), blocks[k].startLine, LineCount(blocks[k]), k, now))
  }

  lemma LinesAgree(lines: seq<string>, now: DateParts)
    requires forall j :: 0 <= j < |lines| ==> '\n' !in lines[j]
    requires forall j :: 0 <= j < |lines| - 1 ==> DropCR(lines[j]) == lines[j]
    ensures AsWrittenOfLines(lines, now) == EntriesOf(Segment(lines), now)
  {
    SegmentWellFormed(lines);
    var blocks := Segment(lines);
    var a := AsWrittenOfLines(lines, now);
    var b := EntriesOf(blocks, now);
    forall k | 0 <= k < |blocks| ensures a[k] == b[k] {
      BlockAgrees(lines, blocks[k], k, now);
    }
  }

  lemma BlockAgrees(lines: seq<string>, b: Block, k: nat, now: DateParts)
    requires BlockOf(IsStart, lines, b)
    requires forall j :: 0 <= j < |lines| ==> '\n' !in lines[j]
    requires forall j :: 0 <= j < |lines| - 1 ==> DropCR(lines[j]) == lines[j]
    ensures ParseEntryBlockAsWritten(JoinLines(b.lines), b.startLine, LineCount(b), k, now)
            == EntryOfBlock(b, k, now)
  {
    forall j | 0 <= j < |b.lines| ensures '\n' !in b.lines[j] {
      assert b.lines[j] == lines[b.startLine - 1 + j];
    }
    forall j | 0 <= j < |b.lines| - 1 ensures DropCR(b.lines[j]) == b.lines[j] {
      assert b.lines[j] == lines[b.startLine - 1 + j];
    }
    AsWrittenAgrees(b.lines, b.startLine, LineCount(b), k, now);
  }

  /** `parseLogFile(content)`; `now` is the time an entry without a start line would get. */
  method ParseLogFile(content: string, now: DateParts) returns (entries: seq<LogEntry>)
    ensures entries == ParseLog(content, now)
  {
    var lines := SplitLines(content);
    BlankLinesStartNothing();
    var entryBlocks := SegmentLines(lines, IsStart);
    entries := [];
    for i := 0 to |entryBlocks|
      invariant |entries| == i
      invariant forall k :: 0 <= k < i ==> entries[k] == EntryOfBlock(entryBlocks[k], k, now)
    {
      var block := entryBlocks[i];
      var entry := ParseEntryBlock(block.lines, block.startLine, block.endLine - block.startLine + 1, i, now);
      EntriesStep(entries, entryBlocks, i, now);
      entries := entries + [entry];
    }
  }

  /** Pushing the entry of block `i` keeps the entries those of the blocks so far. */
  lemma EntriesStep(entries: seq<LogEntry>, blocks: seq<Block>, i: nat, now: DateParts)
    requires NonEmptyBlocks(blocks) && i < |blocks| && |entries| == i
    requires forall k :: 0 <= k < i ==> entries[k] == EntryOfBlock(blocks[k], k, now)
    ensures forall k :: 0 <= k < i + 1 ==>
              (entries + [EntryOfBlock(blocks[i], i, now)])[k] == EntryOfBlock(blocks[k], k, now)
  {
  }

  // ---------------------------------------------------------------- properties

  /** `b` is the slice of `lines` it claims to be: its first line passes the start test,
      no other line does, and its line count is the number of its lines. */
  predicate BlockOf(isStart: string -> bool, lines: seq<string>, b: Block) {
    |b.lines| >= 1 && b.startLine >= 1 && b.startLine - 1 + |b.lines| <= |lines|
    && b.lines == lines[b.startLine - 1..b.startLine - 1 + |b.lines|]
    && isStart(b.lines[0])
    && (forall j :: 1 <= j < |b.lines| ==> !isStart(b.lines[j]))
    && LineCount(b) == |b.lines|
  }

  predicate AllBlocksOf(isStart: string -> bool, lines: seq<string>, blocks: seq<Block>) {
    forall k :: 0 <= k < |blocks| ==> BlockOf(isStart, lines, blocks[k])
  }

  /** Each block starts on the line after the previous one ends. */
  predicate Chained(blocks: seq<Block>) {
    forall k :: 0 <= k < |blocks| - 1 ==> blocks[k + 1].startLine == blocks[k].startLine + LineCount(blocks[k])
  }

  lemma ConsBlocks(isStart: string -> bool, lines: seq<string>, x: Block, rest: seq<Block>)
    requires BlockOf(isStart, lines, x) && AllBlocksOf(isStart, lines, rest) && Chained(rest)
    requires rest != [] ==> rest[0].startLine == x.startLine + LineCount(x)
    ensures AllBlocksOf(isStart, lines, [x] + rest) && Chained([x] + rest)
  {
    var r := [x] + rest;
    forall k | 0 <= k < |r| ensures BlockOf(isStart, lines, r[k]) {
      if k > 0 { assert r[k] == rest[k - 1]; }
    }
    forall k | 0 <= k < |r| - 1 ensures r[k + 1].startLine == r[k].startLine + LineCount(r[k]) {
      if k > 0 { assert r[k] == rest[k - 1] && r[k + 1] == rest[k]; }
    }
  }

  /** The blocks from a start line are slices of the lines, chained one after the other
      from that line to the last line. */
  lemma {:induction false} BlocksFromWellFormed(isStart: string -> bool, lines: seq<string>, a: nat)
    requires a < |lines| && isStart(lines[a])
    ensures AllBlocksOf(isStart, lines, BlocksFrom(isStart, lines, a)) && Chained(BlocksFrom(isStart, lines, a))
    ensures BlocksFrom(isStart, lines, a)[0].startLine == a + 1
    ensures BlocksFrom(isStart, lines, a)[|BlocksFrom(isStart, lines, a)| - 1].endLine == |lines|
    decreases |lines| - a
  {
    var b := NextStartFrom(isStart, lines, a + 1);
    var x := Block(a + 1, b, lines[a..b]);
    assert BlockOf(isStart, lines, x) by {
      forall j | 1 <= j < |x.lines| ensures !isStart(x.lines[j]) {
        assert x.lines[j] == lines[a + j];
      }
    }
    if b < |lines| {
      BlocksFromWellFormed(isStart, lines, b);
      ConsBlocks(isStart, lines, x, BlocksFrom(isStart, lines, b));
    } else {
      ConsBlocks(isStart, lines, x, []);
    }
  }

  /** Every block of the first pass is a slice of the lines starting at a start line, the
      blocks are chained, the last one ends at the last line, and the lines before the
      first block hold no start line. */
  lemma SegmentByWellFormed(isStart: string -> bool, lines: seq<string>)
    ensures AllBlocksOf(isStart, lines, SegmentBy(isStart, lines)) && Chained(SegmentBy(isStart, lines))
    ensures SegmentBy(isStart, lines) == [] <==> forall k :: 0 <= k < |lines| ==> !isStart(lines[k])
    ensures SegmentBy(isStart, lines) != [] ==>
              SegmentBy(isStart, lines)[0].startLine == NextStartFrom(isStart, lines, 0) + 1
              && SegmentBy(isStart, lines)[|SegmentBy(isStart, lines)| - 1].endLine == |lines|
    ensures forall k :: 0 <= k < NextStartFrom(isStart, lines, 0) ==> !isStart(lines[k])
  {
    var a := NextStartFrom(isStart, lines, 0);
    if a < |lines| {
      BlocksFromWellFormed(isStart, lines, a);
    }
  }

  /** The same for the start pattern of the log format. */
  lemma SegmentWellFormed(lines: seq<string>)
    ensures AllBlocksOf(IsStart, lines, Segment(lines)) && Chained(Segment(lines))
    ensures Segment(lines) == [] <==> forall k :: 0 <= k < |lines| ==> !IsStart(lines[k])
    ensures Segment(lines) != [] ==>
              Segment(lines)[0].startLine == NextStartFrom(IsStart, lines, 0) + 1
              && Segment(lines)[|Segment(lines)| - 1].endLine == |lines|
    ensures forall k :: 0 <= k < NextStartFrom(IsStart, lines, 0) ==> !IsStart(lines[k])
  {
    SegmentByWellFormed(IsStart, lines);
  }

  /** The raw contents of the blocks. */
  function Contents(blocks: seq<Block>): (r: seq<string>)
    ensures |r| == |blocks|
  {
    if blocks == [] then [] else [JoinLines(blocks[0].lines)] + Contents(blocks[1..])
  }

  lemma {:induction false} JoinAppend(a: seq<string>, b: seq<string>)
    requires a != [] && b != []
    ensures JoinLines(a + b) == JoinLines(a) + "\n" + JoinLines(b)
    decreases |a|
  {
    if |a| == 1 {
      assert (a + b)[1..] == b;
    } else {
      assert (a + b)[1..] == a[1..] + b;
      JoinAppend(a[1..], b);
    }
  }

  /** The raw contents of the blocks from the start line at `a`: that block's, then those
      of the blocks from the next start line. */
  lemma ContentsStep(isStart: string -> bool, lines: seq<string>, a: nat)
    requires a < |lines| && isStart(lines[a])
    ensures NextStartFrom(isStart, lines, a + 1) < |lines| ==>
              Contents(BlocksFrom(isStart, lines, a))
              == [JoinLines(lines[a..NextStartFrom(isStart, lines, a + 1)])]
                 + Contents(BlocksFrom(isStart, lines, NextStartFrom(isStart, lines, a + 1)))
    ensures NextStartFrom(isStart, lines, a + 1) == |lines| ==>
              Contents(BlocksFrom(isStart, lines, a)) == [JoinLines(lines[a..])]
  {
    var r := BlocksFrom(isStart, lines, a);
    if NextStartFrom(isStart, lines, a + 1) < |lines| {
      assert r[1..] == BlocksFrom(isStart, lines, NextStartFrom(isStart, lines, a + 1));
    } else {
      assert lines[a..NextStartFrom(isStart, lines, a + 1)] == lines[a..];
      assert r[1..] == [];
    }
  }

  lemma JoinCons(x: string, ys: seq<string>)
    requires ys != []
    ensures JoinLines([x] + ys) == x + "\n" + JoinLines(ys)
  {
    assert ([x] + ys)[1..] == ys;
  }

  /** The blocks' raw contents joined with line breaks give the lines from the start line
      at `a` to the end, joined the same way. */
  lemma {:induction false} BlocksFromJoin(isStart: string -> bool, lines: seq<string>, a: nat)
    requires a < |lines| && isStart(lines[a])
    ensures JoinLines(Contents(BlocksFrom(isStart, lines, a))) == JoinLines(lines[a..])
    decreases |lines| - a
  {
    var b := NextStartFrom(isStart, lines, a + 1);
    ContentsStep(isStart, lines, a);
    if b < |lines| {
      BlocksFromJoin(isStart, lines, b);
      JoinCons(JoinLines(lines[a..b]), Contents(BlocksFrom(isStart, lines, b)));
      JoinAppend(lines[a..b], lines[b..]);
      assert lines[a..b] + lines[b..] == lines[a..];
    }
  }

  /** Nothing from the first start line on is lost or reordered by the first pass. */
  lemma SegmentJoin(lines: seq<string>)
    requires Segment(lines) != []
    ensures JoinLines(Contents(Segment(lines))) == JoinLines(lines[NextStartFrom(IsStart, lines, 0)..])
  {
    BlocksFromJoin(IsStart, lines, NextStartFrom(IsStart, lines, 0));
  }

  /** The entries of a log: ids 0..n-1 in order; each entry's line number, line count and
      raw content are those of its block, its line count is the number of lines its raw
      content splits into, and the next entry starts where it ends; no entry is
      unparsed. */
  lemma ParseLogEntries(content: string, now: DateParts)
    ensures |ParseLog(content, now)| == |Segment(SplitLines(content))|
    ensures forall k :: 0 <= k < |ParseLog(content, now)| ==>
              ParseLog(content, now)[k].id == k
              && ParseLog(content, now)[k].lineNumber == Segment(SplitLines(content))[k].startLine
              && ParseLog(content, now)[k].lineCount == |Segment(SplitLines(content))[k].lines| >= 1
              && ParseLog(content, now)[k].rawContent == JoinLines(Segment(SplitLines(content))[k].lines)
              && ParseLog(content, now)[k].parseStatus != Unparsed
    ensures forall k :: 0 <= k < |ParseLog(content, now)| - 1 ==>
              ParseLog(content, now)[k + 1].lineNumber
              == ParseLog(content, now)[k].lineNumber + ParseLog(content, now)[k].lineCount
  {
    var lines := SplitLines(content);
    var blocks := Segment(lines);
    SegmentWellFormed(lines);
    forall k | 0 <= k < |blocks|
      ensures ParseLog(content, now)[k].id == k
      ensures ParseLog(content, now)[k].lineNumber == blocks[k].startLine
      ensures ParseLog(content, now)[k].lineCount == |blocks[k].lines|
      ensures ParseLog(content, now)[k].rawContent == JoinLines(blocks[k].lines)
      ensures ParseLog(content, now)[k].parseStatus != Unparsed
    {
      assert BlockOf(IsStart, lines, blocks[k]);
      UnparsedExactlyWithoutStart(blocks[k].lines, JoinLines(blocks[k].lines), blocks[k].startLine,
                                  LineCount(blocks[k]), k, now);
      StatusRules(blocks[k].lines, JoinLines(blocks[k].lines), blocks[k].startLine, LineCount(blocks[k]), k);
      BaseFields(blocks[k].lines, JoinLines(blocks[k].lines), blocks[k].startLine, LineCount(blocks[k]), k);
    }
  }

  /** A block's line count is the number of lines its raw content splits into. */
  lemma LineCountMatchesContent(lines: seq<string>, b: Block)
    requires BlockOf(IsStart, lines, b)
    requires forall k :: 0 <= k < |lines| ==> '\n' !in lines[k]
    ensures |SplitLines(JoinLines(b.lines))| == LineCount(b)
  {
    forall j | 0 <= j < |b.lines| ensures '\n' !in b.lines[j] {
      assert b.lines[j] == lines[b.startLine - 1 + j];
    }
    SplitJoinLines(b.lines);
  }
}
