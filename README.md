# Log viewer core in Dafny

This project models the core of a log viewer for application logs in the
`LEVEL TIMESTAMP MESSAGE {"SourceContext":"…"}` layout. The core has two parts.

- **The parser** (`src/utils/logParser.ts`):
  - It splits the file into entry blocks at lines that match the entry-start
    pattern.
  - For each block it reads the level letter, the 12-hour timestamp, the trailing
    source-context tag and the message, and sets the parse status to parsed,
    partial or unparsed.
  - It extracts `<XException><Message>…</Message><StackTrace>…</StackTrace>`
    records from error messages.
  - It reduces the entries to statistics.
  - It has two display helpers.
- **The store** (`src/stores/logStore.ts`) holds the loaded entries, the filters,
  the filtered list and the selection. It has actions to:
  - load and clear a file;
  - select an entry;
  - merge filter changes;
  - toggle levels, list members and the unparsed switch;
  - jump cyclically between entries of one level.

Each regular expression of the parser is a hand-written recogniser over
`seq<char>`. Most of them return the index where a match lies or an `Option`
of its captures. The parts where the source works step by step are methods with
loops, each proved equal to a specification function:

- the two passes of `parseLogFile`;
- the `exec` loop of `parseNestedExceptions`;
- the accumulation loop of `calculateStats`.

The store is a class. Its invariant `Valid()` says that:

- `filteredEntries == FilterEntries(entries, filters)`;
- `stats` describes `entries` (or is absent for an empty store);
- the entry ids ascend.

Every action keeps the invariant, and `LoadFile` calls the parser model.

Modules, in dependency order:

- `Wrappers`: `Option`.
- `Text`: the JavaScript string built-ins used, over ASCII.
- `LogTypes`: the records of `src/types/index.ts`.
- `Timestamps`: `parseTimestamp`.
- `Exceptions`: the stack-trace splitter and the primary and nested exception
  extractors.
- `EntryParser`: `parseEntryBlock` and `extractClassName`.
- `Segmenter`: `parseLogFile`.
- `Stats`: `calculateStats`.
- `Display`: `formatFileSize` and `getDisplayMessage`.
- `Store`: `filterEntries` and the store class.

Three details of the code that the model keeps:

- The nested-exception pattern requires a `<StackTrace>` element.
- The short exception type removes the first occurrence of `System.`, and then
  the first occurrence of `Ifs.Cloud.Client.Exceptions.`, wherever it lies in the
  type.
- The first nested record has the same type as the primary exception. Its message
  may differ: the primary message is cut at the first `</Message>`, while a
  nested match ends at `</Message><StackTrace>`.

## Model

| member | source | states |
|---|---|---|
| LogTypes.WithLevel | src/stores/logStore.ts:169-172 | Setting the flag of level `l` to `v` gives `l` the value `v` and leaves the other three level flags as they were. |
| Timestamps.To24HourRoundTrip | src/utils/logParser.ts:18-21 | For a captured hour 1..12, the 24-hour hour lies in 0..23. Converting back to the 12-hour clock gives the same hour and the same AM/PM, so PM adds 12 except at 12, and 12 AM is 0. |
| Timestamps.To12HourRoundTrip | src/utils/logParser.ts:18-21 | Every hour 0..23 is the conversion of exactly one 12-hour reading, whose hour lies in 1..12. |
| Timestamps.MatchTimestampAt | src/utils/logParser.ts:14 | A match of `\d{4}-\d{2}-\d{2}\s+\d{1,2}:\d{2}:\d{2}\s+[AP]M` lies within the text. The hour has one or two digits, and the marker ends the match. |
| Timestamps.FindTimestamp | src/utils/logParser.ts:14 | `match` finds the leftmost position where the case-insensitive pattern matches, and there is no match before it. |
| Timestamps.ParseTimestamp | src/utils/logParser.ts:12-34 | The result is absent (the `new Date(ts)` fallback) exactly when the pattern matches nowhere in the text. Otherwise it is the decoding of the leftmost match. |
| Timestamps.DecodeFields | src/utils/logParser.ts:17-30 | The decoding of a match holds the year, day, minute and second read from their digits, and the month read from its digits minus one. The hour is the captured hour plus 12 for PM other than 12, 0 for 12 AM, and the captured hour otherwise. For a captured hour 1..12 it lies in 0..23 and converts back to the captured hour and marker. |
| Timestamps.ParseMatchedTimestamp | src/utils/logParser.ts:12-34 | The piece of a line that the entry-start pattern captures as the timestamp always decodes: the decoded components of the capture are those of the match inside the line. |
| Timestamps.MatchCaseInsensitive | src/utils/logParser.ts:4-14 | A match of the case-sensitive start pattern's timestamp is also the match of the case-insensitive `parseTimestamp` pattern at the same place. |
| Exceptions.Frames | src/utils/logParser.ts:50-52 | Trimming the lines and dropping the empty ones leaves frames that are non-empty, have no whitespace at either end and contain no line break. There are no more frames than lines. |
| Exceptions.ParseStackTrace | src/utils/logParser.ts:47-53 | The empty trace gives no frames. Every frame is non-empty and trimmed, and has no line break. |
| Exceptions.ParseStackTraceOfJoined | src/utils/logParser.ts:47-53 | Joining well-formed frames with line breaks and splitting them again gives back the same frames. |
| Exceptions.TypeRunEnd | src/utils/logParser.ts:60 | The greedy `[\w.]` run starting at `i` ends at the first character outside that class. |
| Exceptions.TypeTagAt | src/utils/logParser.ts:60 | `<type>` matched at `p` starts with `<` and ends with `>`. The type between them is made of word characters and dots and ends in `Exception` or `Error`. |
| Exceptions.TypeTagComplete | src/utils/logParser.ts:60 | Conversely, every `<type>` with such a type is found as the tag at its position. |
| Exceptions.PrimaryAt | src/utils/logParser.ts:83 | A match of `<type><Message>…</Message>` at `p` has its type tag at `p`, then `<Message>`. The message ends at the first `</Message>` after it, since the `*?` is lazy. |
| Exceptions.FindPrimary | src/utils/logParser.ts:83 | The primary match is the leftmost position where the pattern matches. No position before it matches. |
| Exceptions.StackAt | src/utils/logParser.ts:91-95 | The escaped-type pattern with `<StackTrace>`, matched at `q`, ends inside the text, and its stack capture lies after the message. |
| Exceptions.FindStack | src/utils/logParser.ts:91-95 | The stack match is the leftmost place where the case-insensitive pattern for the primary type matches, or none when it matches nowhere. |
| Exceptions.PrimaryType | src/utils/logParser.ts:86 | The captured primary type is made of word characters and dots and ends in `Exception` or `Error`. |
| Exceptions.PrimaryMessage | src/utils/logParser.ts:87 | The captured primary message is trimmed. |
| Exceptions.ExtractPrimaryException | src/utils/logParser.ts:77-99 | The result is absent exactly when the primary pattern matches nowhere. Otherwise its type is a dotted word name ending in `Exception` or `Error`, its message is trimmed and every frame is well formed. |
| Exceptions.NestedAt | src/utils/logParser.ts:60 | A nested match at `p` has its tag, then `<Message>`. The message ends at the first `</Message><StackTrace>`, and the stack ends at the first `</StackTrace>` after it. |
| Exceptions.FindNested | src/utils/logParser.ts:63 | `exec` from `lastIndex` finds the leftmost nested match at or after it. No position between them matches. |
| Exceptions.InfoOf | src/utils/logParser.ts:64-68 | A nested record has a dotted word type ending in `Exception` or `Error`, a trimmed message and well-formed frames. |
| Exceptions.NextFrom | src/utils/logParser.ts:63 | After a match, `lastIndex` moves strictly forward and stays within the text, so the loop ends. |
| Exceptions.NestedFrom | src/utils/logParser.ts:58-72 | The records found from `from` on are empty exactly when no nested match starts at or after `from`. |
| Exceptions.NestedFromWellFormed | src/utils/logParser.ts:58-72 | Every record in the nested list has a well-formed type and a trimmed message. |
| Exceptions.ParseNestedExceptions | src/utils/logParser.ts:58-72 | The `while (exec)` loop returns the non-overlapping left-to-right matches, each as its record. |
| Exceptions.NestedIsPrimary | src/utils/logParser.ts:60-83 | A nested match at `p` is also a primary match at `p`. |
| Exceptions.NestedStartsWithPrimary | src/utils/logParser.ts:58-99 | When there is a nested record, a primary exception exists, and the first record has the primary type. |
| Exceptions.NestedHasPrimaryStack | src/utils/logParser.ts:89-96 | When there is a nested record, the stack pattern for the primary type matches, so the primary stack trace comes from a real match. |
| EntryParser.ClassNameIsLastSegment | src/utils/logParser.ts:39-42 | A name without dots, or an empty one, or one ending in a dot, is returned whole. Otherwise the class name is the non-empty, dot-free text after the last dot. |
| EntryParser.LevelOfLetter | src/utils/logParser.ts:134 | The letter `I`, `W` or `E` decodes to the level whose code is that letter. |
| EntryParser.MatchStart | src/utils/logParser.ts:4 | A start match begins with the level letter. The timestamp it captures lies inside the line and is a timestamp match, and after it comes whitespace. |
| EntryParser.BlankIsNoStart | src/utils/logParser.ts:214 | A line of whitespace only never matches the start pattern. |
| EntryParser.TimestampOf | src/utils/logParser.ts:135-136 | The timestamp of a start line is the one `parseTimestamp` decodes from its captured text. |
| EntryParser.CapturedTimestampParses | src/utils/logParser.ts:135-136 | The captured timestamp always decodes, so the `new Date(ts)` fallback never happens for a start line. |
| EntryParser.SourceContextAt | src/utils/logParser.ts:7 | A match of `\{"SourceContext":"([^"]+)"\}\s*$` at `p` has a non-empty capture and ends the text. |
| EntryParser.FindSourceContext | src/utils/logParser.ts:145 | The source-context match is the leftmost place where the pattern matches. No position before it matches. |
| EntryParser.SourceTagIsLast | src/utils/logParser.ts:145-151 | Where the tag pattern matches, that `{"SourceContext":` is also the last one in the text. So `lastIndexOf` cuts the message exactly at the matched tag. |
| EntryParser.BlockEntry | src/utils/logParser.ts:104-132 | The block parser reading the block's own lines gives an unparsed entry exactly when the first line does not match the start pattern. |
| EntryParser.ParseEntryBlock | src/utils/logParser.ts:104-196 | The block parser, written as the assignments of the source, gives the entry that the field rules define for the block's lines. |
| EntryParser.UnparsedExactlyWithoutStart | src/utils/logParser.ts:114-132 | An entry is unparsed exactly when its first line does not match the start pattern. Such an entry keeps the raw text as its message, has the fixed parse error and gets the current time. |
| EntryParser.BaseFields | src/utils/logParser.ts:134-167 | A block with a start line gets its level from the first letter and its decoded raw timestamp. Without the tag, the source context is `Unknown` and the message is the trimmed content. With the tag, the message is the trimmed content before it. The class name is taken from the source context, the raw content is kept, and no check has run yet. |
| EntryParser.CheckExceptionRules | src/utils/logParser.ts:169-187 | The check changes only the exception fields, the status and the error. The entry becomes partial, with its fixed error, exactly when an error message has `<` and `Exception` but no primary record. Otherwise the status stays parsed. The fields are set only on error entries: a well-formed type, a trimmed message, the stack of the first record of that type, and the nested list only when there are at least two records, the first of them the primary type. |
| EntryParser.StatusRules | src/utils/logParser.ts:169-195 | A block with a start line is never unparsed. A non-error entry without the tag becomes partial with the missing-source error. Otherwise the entry is the result of the exception check. The status is parsed exactly when there is no parse error. |
| EntryParser.AsWrittenAgrees | src/utils/logParser.ts:104-111 | When no line before the last ends in a carriage return, re-splitting the raw content (as written) gives the same entry as reading the block's own lines. |
| EntryParser.AsWrittenDropsInnerCr | src/utils/logParser.ts:104-113 | For the sample start line followed by ` a\r`, then the line `b`, the message as written differs from the message read from the block's own lines: the re-split drops the carriage return. |
| EntryParser.CarriageReturnDecidesStart | src/utils/logParser.ts:4 | The sample line ending in a carriage return matches the start pattern. The same line without it does not. |
| EntryParser.ResplitDropsCr | src/utils/logParser.ts:110 | Splitting the joined block on `\r?\n` drops the carriage return that ends its first line. |
| EntryParser.AsWrittenLosesEntry | src/utils/logParser.ts:104-132 | For that block, the parser as written returns an unparsed entry. Reading the block's own lines gives an entry that is not unparsed. |
| Segmenter.NextStartFrom | src/utils/logParser.ts:210-219 | The next start line from `j` on really is a start line, and no line between `j` and it is one. |
| Segmenter.BlocksFrom | src/utils/logParser.ts:219-245 | The blocks from a start line on are at least one, and each has at least one line. |
| Segmenter.SegmentBy | src/utils/logParser.ts:202-245 | Every block has at least one line. |
| Segmenter.BlankLinesStartNothing | src/utils/logParser.ts:213-214 | A blank line never starts an entry, so skipping blank lines before the first block drops no start line. |
| Segmenter.SegmentLines | src/utils/logParser.ts:202-245 | The first pass, a loop over `currentBlockStart`, `currentBlockLines` and `entryBlocks`, gives the blocks the segmentation function defines. |
| Segmenter.EntriesOf | src/utils/logParser.ts:248-257 | The second pass makes one entry per block. |
| Segmenter.ParseLogFile | src/utils/logParser.ts:201-260 | The parser method, with both loops, returns exactly the entries of the specification `ParseLog`. |
| Segmenter.EntriesStep | src/utils/logParser.ts:248-257 | Pushing the entry of block `i` keeps the loop invariant: entry `k` is the entry of block `k` with id `k`. |
| Segmenter.SegmentWellFormed | src/utils/logParser.ts:202-245 | Every block is a run of consecutive input lines whose first line is a start line and whose other lines are not. Its line count is its number of lines. Each block starts on the line after the previous one ends. There are no blocks exactly when no line is a start line. The first block starts at the first start line, the last ends at the last line, and no line before the first start line is one. |
| Segmenter.SegmentJoin | src/utils/logParser.ts:202-245 | The block contents joined with line breaks equal the input lines from the first start line to the end, joined the same way. |
| Segmenter.AsWrittenFileAgrees | src/utils/logParser.ts:248-257 | When no line of the content before the last ends in a carriage return, the second pass as written, which hands each block over as its joined content, gives the same entries as `ParseLog`. |
| Segmenter.ParseLogEntries | src/utils/logParser.ts:201-260 | The parsed entries have ids 0..n-1 in order. Their line numbers are the blocks' start lines and their line counts are at least 1, the number of lines of the block. Their raw contents are the joined blocks, and none is unparsed. Each entry's line number is the previous one's plus its line count. |
| Segmenter.LineCountMatchesContent | src/utils/logParser.ts:225-253 | Splitting a block's joined content again gives as many lines as its line count. |
| Stats.CalculateStats | src/utils/logParser.ts:265-326 | The statistics loop gives the total, the level and not-parsed counts, the sorted, duplicate-free exception types and source contexts, and the earliest and latest timestamps of the entries. |
| Stats.AddNestedTypes | src/utils/logParser.ts:289-291 | Adding the nested exception types to a set gives that set together with exactly those types. |
| Stats.LevelCountsSum | src/utils/logParser.ts:282-299 | The four level counts add up to the number of entries, so errors, warnings and info add up to the total less the trace entries. |
| Stats.NotParsedSplit | src/utils/logParser.ts:301-304 | The not-parsed count is the partial count plus the unparsed count, which is the total less the parsed entries. |
| Stats.ExceptionTypesFromErrors | src/utils/logParser.ts:283-291 | A type is among the collected exception types exactly when some error entry has it as its non-empty primary type or as a nested type. |
| Stats.SourceContextsOfEntries | src/utils/logParser.ts:306-309 | A name is among the collected source contexts exactly when it is not `Unknown` and some entry has it. |
| Stats.BeforeTransitive | src/utils/logParser.ts:313-318 | The order of timestamps is transitive. |
| Stats.TimeRangeBounds | src/utils/logParser.ts:311-319 | The range ends are absent exactly when there are no entries. Otherwise both ends are timestamps of entries, no entry is earlier than the start, and none is later than the end. |
| Stats.StatsProperties | src/utils/logParser.ts:265-326 | For statistics that describe the entries: errors plus warnings plus info is the total less the trace entries; unparsed counts the partial and the unparsed ones; `Unknown` is never a listed source context; every listed exception type comes from an error entry; and the time range brackets every timestamp, being absent exactly for an empty list. |
| Stats.StatsDetermined | src/utils/logParser.ts:265-326 | The entries determine their statistics: two results for the same entries are equal, including the order of both sorted lists. |
| Text.SortedElements | src/utils/logParser.ts:322-323 | `Array.from(set).sort()` gives a strictly ascending list whose members are exactly the set's members. |
| Display.FormatFileSize | src/utils/logParser.ts:331-335 | Bytes are shown below 1024, kilobytes below 1024 * 1024 and megabytes from there on. The byte text is the decimal digits of the size, with no leading zero unless the size is 0, followed by ` B`. |
| Display.TagEnd | src/utils/logParser.ts:351 | A tag match at `i` is a `<`, at least one character other than `>`, and the first `>` after it. |
| Display.TagEndComplete | src/utils/logParser.ts:351 | Conversely, a `<` followed by one or more characters other than `>` and then a `>` is always matched as a tag ending at that `>`. |
| Display.StripTags | src/utils/logParser.ts:351 | Replacing the tags by single spaces never lengthens the text. A text with no `<`, or with no `>`, holds no tag and is kept as it is. |
| Display.StripTagsCopies | src/utils/logParser.ts:351 | A stretch of text where no tag starts is copied unchanged. The replacement of the whole text is that stretch followed by the replacement of the rest. |
| Display.StripTagsAtTag | src/utils/logParser.ts:351 | The text before the first tag is kept. That tag, from its `<` to its `>`, becomes one space, and the replacement goes on after the `>`. |
| Display.StripTagsNoTag | src/utils/logParser.ts:351 | A text where no tag starts comes back unchanged. |
| Display.StripTagsTagFree | src/utils/logParser.ts:351 | The result of replacing the tags holds no tag: the tag pattern matches at no position of it. |
| Display.CollapseWs | src/utils/logParser.ts:352 | After collapsing, the only whitespace is the space, and no two whitespace characters are adjacent. The result starts with a space exactly when the text started with whitespace. |
| Display.CollapseWsCopies | src/utils/logParser.ts:352 | A stretch of text without whitespace is copied unchanged. The collapse of the whole text is that stretch followed by the collapse of the rest. |
| Display.CollapseWsAtRun | src/utils/logParser.ts:352 | A whole run of whitespace, up to the next other character or the end, becomes exactly one space, and the collapse goes on after the run. |
| Display.CollapseKeepsText | src/utils/logParser.ts:352 | Collapsing whitespace keeps every other character, in order. |
| Display.TrimKeepsShape | src/utils/logParser.ts:353 | Trimming a collapsed text keeps it collapsed and drops no character other than whitespace. |
| Display.DisplayMessage | src/utils/logParser.ts:340-354 | An error entry with a non-empty exception type shows `[`, the short type, `] ` and then the exception message or `No message`. Any other entry shows its message without whitespace at either end. Its only whitespace is the space, it has no two whitespace characters in a row, and it keeps every other character of the tag-stripped message in order. |
| Text.RemoveFirst | src/utils/logParser.ts:343-345 | `replace` with a string pattern removes the leftmost occurrence of the pattern and keeps the text on either side of it; a text without the pattern is kept as it is. |
| Display.RemoveLeading | src/utils/logParser.ts:344-345 | A pattern at the very start of a text is the occurrence `replace` removes, and it leaves the rest untouched. |
| Display.ShortSystemType | src/utils/logParser.ts:343-345 | A type in the `System` namespace loses exactly that prefix. |
| Store.Filter | src/stores/logStore.ts:50 | `Array.filter` keeps exactly the elements that pass and is never longer than its input. |
| Store.FilterIsSubsequence | src/stores/logStore.ts:50 | The filtered list is a subsequence of its input, in the original order. |
| Store.FilterKeepsAll | src/stores/logStore.ts:50 | When every element passes, the filtered list is the input itself. |
| Store.FilterKeepsIdOrder | src/stores/logStore.ts:50 | Filtering entries whose ids ascend leaves ids that ascend. |
| Store.RemoveAll | src/stores/logStore.ts:183 | Filtering out `x` removes every occurrence of `x` and keeps every other member. |
| Store.ToggledMembership | src/stores/logStore.ts:180-205 | A list toggle flips the membership of the toggled name and no other. A present name is filtered out, leaving a subsequence; an absent one is appended at the end. |
| Store.ToggleTwice | src/stores/logStore.ts:180-205 | Toggling an absent name twice gives back the original list. |
| Store.FilterDropsLast | src/stores/logStore.ts:180-187 | Filtering out a name that was just appended to a list without it gives back that list. |
| Store.FilterEntries | src/stores/logStore.ts:49-113 | An entry is in the filtered list exactly when it is an input entry that passes every test: level flag, unparsed switch, search, source contexts, exception types, event names and time range. |
| Store.FilterEntriesIsSubsequence | src/stores/logStore.ts:49-50 | `filterEntries` returns a subsequence of the entries, in their order. |
| Store.FilterExclusions | src/stores/logStore.ts:52-102 | A surviving entry has its level enabled, and is parsed when unparsed entries are hidden. Under a non-empty type list it is an error with a listed primary or nested type. Under a non-empty event list its event name is listed. |
| Store.DefaultKeepsAll | src/stores/logStore.ts:39-47 | The default filters keep every entry. |
| Store.MergeLaws | src/stores/logStore.ts:155-157 | Merging an empty change leaves the filters as they are, and merging the same change twice is the same as merging it once. |
| Store.FindIdFrom | src/stores/logStore.ts:217 | `findIndex` gives the first index whose id is the selected one, or -1 when there is none. A `null` selection matches no entry. |
| Store.NextIn | src/stores/logStore.ts:212-220 | A jump to the next entry leaves the selection unchanged or selects an entry of the level. |
| Store.PrevIn | src/stores/logStore.ts:222-230 | A jump to the previous entry leaves the selection unchanged or selects an entry of the level. |
| Store.FindOwnId | src/stores/logStore.ts:217 | With distinct ids, `findIndex` for the id of entry `j` finds `j`. |
| Store.JumpFromOutside | src/stores/logStore.ts:212-230 | With no entry of the level, neither jump changes the selection. A selection that is not such an entry moves to the first entry (next) or the last (previous). |
| Store.JumpFromEntry | src/stores/logStore.ts:212-230 | From entry `j`, next selects entry `j + 1`, wrapping from the last to the first. Previous selects entry `j - 1`, wrapping from the first to the last. |
| Store.JumpsUndo | src/stores/logStore.ts:212-230 | With distinct ids, next followed by previous, and previous followed by next, both return to the selected entry. |
| Store.JumpListUnique | src/stores/logStore.ts:214 | When the entries' ids ascend, the entries of one level in their filtered list have distinct ids. |
| Store.StoreJumpsUndo | src/stores/logStore.ts:212-270 | In the store's filtered list, for any level, a jump forward and a jump back (in either order) return to a selected entry of that level. |
| Store.ParsedIdsAscending | src/utils/logParser.ts:248-256 | The ids of the parsed entries ascend. |
| Store.LogStore.constructor | src/stores/logStore.ts:116-122 | The initial store is empty, with default filters and no selection, and keeps the invariant. |
| Store.LogStore.LoadFile | src/stores/logStore.ts:125-138 | Loading parses the content and stores its entries and their statistics, the file information, no selection, the default filters and the whole list as filtered, keeping the invariant. |
| Store.LogStore.SetLoaded | src/stores/logStore.ts:130-137 | The `set` of `loadFile` stores the given entries, statistics and file information, with the default filters and no selection. |
| Store.LogStore.ClearFile | src/stores/logStore.ts:140-149 | Clearing empties the entries and the filtered list, removes the statistics, file information and selection, and restores the default filters. |
| Store.LogStore.SelectEntry | src/stores/logStore.ts:151-153 | Selecting changes the selection and nothing else. |
| Store.LogStore.SetFilters | src/stores/logStore.ts:155-164 | The filters become the merge of the old filters with the change, and the filtered list is recomputed from them. The entries, statistics, file information and selection are unchanged. |
| Store.LogStore.ToggleLevel | src/stores/logStore.ts:166-174 | Only the flag of the given level flips. Every other filter field and the rest of the store stay unchanged, and the invariant holds. |
| Store.LogStore.SetSearchQuery | src/stores/logStore.ts:176-178 | Only the search query changes among the filters, and the invariant holds. |
| Store.LogStore.ToggleSourceContext | src/stores/logStore.ts:180-187 | Only the source-context list changes, to its toggled form, and the invariant holds. |
| Store.LogStore.ToggleExceptionType | src/stores/logStore.ts:189-196 | Only the exception-type list changes, to its toggled form, and the invariant holds. |
| Store.LogStore.ToggleEventName | src/stores/logStore.ts:198-205 | Only the event-name list changes, to its toggled form, and the invariant holds. |
| Store.LogStore.ToggleShowUnparsed | src/stores/logStore.ts:207-210 | Only the unparsed switch flips, and the invariant holds. |
| Store.LogStore.JumpNext | src/stores/logStore.ts:212-220 | The selection becomes the next selection among the filtered entries of the level. Nothing else changes. |
| Store.LogStore.JumpPrev | src/stores/logStore.ts:222-230 | The selection becomes the previous selection among the filtered entries of the level. Nothing else changes. |
| Store.LogStore.JumpToNextError | src/stores/logStore.ts:212-220 | Cyclic jump to the next error entry, changing only the selection. |
| Store.LogStore.JumpToPrevError | src/stores/logStore.ts:222-230 | Cyclic jump to the previous error entry, changing only the selection. |
| Store.LogStore.JumpToNextWarning | src/stores/logStore.ts:232-240 | Cyclic jump to the next warning entry, changing only the selection. |
| Store.LogStore.JumpToPrevWarning | src/stores/logStore.ts:242-250 | Cyclic jump to the previous warning entry, changing only the selection. |
| Store.LogStore.JumpToNextTrace | src/stores/logStore.ts:252-260 | Cyclic jump to the next trace entry, changing only the selection. |
| Store.LogStore.JumpToPrevTrace | src/stores/logStore.ts:262-270 | Cyclic jump to the previous trace entry, changing only the selection. |

## Left out

- JavaScript `Date` values are not modelled. A timestamp is the record of the six
  components handed to the `Date` constructor, with the month counted from 0. It
  is not normalised: for example a captured month `13` or hour `25` is kept as it
  is. A captured year `0000` to `0099` is also kept as it is, where `new Date`
  takes it as 1900 plus the year. Timestamps are compared lexicographically on
  these components, which agrees with `Date` order only for components in range
  and years from 100 on. Invalid-date (NaN) comparisons
  are not modelled.
- Timestamps.ParseTimestamp: the `new Date(ts)` fallback for text without a
  timestamp is the absent value. It never occurs for a start line, as proved.
- The `new Date()` of the unparsed branch is the parameter
  `now`, which is passed down from `Store.LogStore.LoadFile`.
- Display.FormatFileSize: the kilobyte and megabyte texts use float division and
  `toFixed`, so only which branch is taken is modelled. The size is a natural
  number.
- `toLowerCase`, `trim`, `\s` and the order of `sort()` are modelled for ASCII
  only. Unicode case mapping and Unicode whitespace are left out. `sort()`
  compares UTF-16 code units, while `Text.Less` compares code points, so the two
  orders differ for characters outside the Basic Multilingual Plane.
- Display.DisplayMessage: the tag-stripped message is proved free of tags
  (`Display.StripTagsTagFree`), but the result after collapsing and trimming is
  not. Its contract states the whitespace shape and the characters kept.
- Segmenter.ParseLogFile: it hands each block's own lines to the block parser
  (`EntryParser.BlockEntry`) instead of re-splitting the joined content. Where a
  line of a block other than its last ends in a carriage return (a `\r\r\n`
  line end in the file), the entry keeps that carriage return in its message, and
  a first line with it stays a start line. The source drops the carriage return,
  which changes the message and can make the entry unparsed (see Findings).
  `Segmenter.ParseLogAsWritten` is the source's behaviour, and
  `Segmenter.AsWrittenFileAgrees` shows that the two agree on every content
  without such line ends.
- Store.LogStore.LoadFile: it parses with `Segmenter.ParseLog`, so it differs
  from the source in the same way as `Segmenter.ParseLogFile`.
- The first pass takes the start test as a parameter, and
  `ParseLogFile` passes it the start pattern's recogniser.
- `Partial<LogFilters>` is a record of optional fields (`FiltersPatch`). An explicit
  `undefined` value in the change is not modelled.
- The parser never sets `eventName`. The filter still handles it, as the store
  does.
- The statistics fields `trace`, `uniqueEventNames` and `detectedFormat`, and the
  entry fields `formatType` and `properties`, are declared but never filled by
  this code.
- `src/components/*`, `src/App.tsx` (rendering, hooks, clipboard, keyboard), the
  file reading in `src/components/FileUpload.tsx`, and `date-fns` formatting are
  user interface or I/O, and are not part of this model. The store's `create`,
  `get` and `set` plumbing is replaced by the fields and methods of a class.

## Findings

| source | as written | input that shows it | evidently intended | confidence | as-written member | corrected member |
|---|---|---|---|---|---|---|
| src/utils/logParser.ts:110 | `parseEntryBlock` splits the block's raw content on `\r?\n` again. When the first line of a block ends in a carriage return, the re-split removes it. `parseLogFile` had accepted that line as a start line (lines 202, 217), because the `\s+` at the end of the start pattern matched the carriage return. The line without it no longer matches, so the entry comes back unparsed. | The content `E 2024-01-15 3:45:22 PM\r\r\nmore`: its first line is `E 2024-01-15 3:45:22 PM\r`. | The block parser reads the lines the segmenter built the block from, so every block whose first line is a start line gives a parsed or partial entry. | not executed | EntryParser.AsWrittenLosesEntry | EntryParser.BlockEntry |
| src/utils/logParser.ts:110 | The same re-split also removes a carriage return that ends any other line of the block but the last, so the entry's message loses it, although the block's lines (line 225) kept it. | The content `E 2024-01-15 3:45:22 PM a\r\r\nb`: as written the message is `a\nb`, while the block's lines give `a\r\nb`. | The entry's message is read from the lines of its block, so its text is the text of those lines. | not executed | EntryParser.AsWrittenDropsInnerCr | EntryParser.BlockEntry |
