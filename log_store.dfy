/** The log store of src/stores/logStore.ts: the filter predicate `filterEntries`, the
    default filters, and the store object whose actions replace its fields. The store keeps
    `filteredEntries` equal to `filterEntries(entries, filters)` across every action. */
module Store {
  import opened Wrappers
  import opened Text
  import opened LogTypes
  import opened Stats
  import Segmenter

  // ---------------------------------------------------------------- lists

  /** `xs.filter(p)`. */
  function Filter<T>(xs: seq<T>, p: T -> bool): (r: seq<T>)
    ensures |r| <= |xs|
    ensures forall x :: x in r ==> x in xs && p(x)
    ensures forall x :: x in xs && p(x) ==> x in r
    decreases |xs|
  {
    if xs == [] then [] else (if p(xs[0]) then [xs[0]] else []) + Filter(xs[1..], p)
  }

  /** `xs` is `ys` with some elements left out, the rest in their order. */
  predicate SubseqOf<T(==)>(xs: seq<T>, ys: seq<T>)
    decreases |ys|
  {
    xs == [] || (ys != [] && ((xs[0] == ys[0] && SubseqOf(xs[1..], ys[1..])) || SubseqOf(xs, ys[1..])))
  }

  lemma {:induction false} FilterIsSubsequence<T>(xs: seq<T>, p: T -> bool)
    ensures SubseqOf(Filter(xs, p), xs)
    decreases |xs|
  {
    if xs != [] {
      FilterIsSubsequence(xs[1..], p);
      var r := Filter(xs, p);
      if p(xs[0]) {
        assert r == [xs[0]] + Filter(xs[1..], p);
        assert r[0] == xs[0] && r[1..] == Filter(xs[1..], p);
      } else {
        assert r == Filter(xs[1..], p);
      }
    }
  }

  lemma {:induction false} FilterKeepsAll<T>(xs: seq<T>, p: T -> bool)
    requires forall x :: x in xs ==> p(x)
    ensures Filter(xs, p) == xs
    decreases |xs|
  {
    if xs != [] {
      assert xs[0] in xs;
      assert forall x :: x in xs[1..] ==> x in xs;
      FilterKeepsAll(xs[1..], p);
      assert xs == [xs[0]] + xs[1..];
    }
  }

  predicate IdsAscending(es: seq<LogEntry>) {
    forall i, j :: 0 <= i < j < |es| ==> es[i].id < es[j].id
  }

  predicate UniqueIds(es: seq<LogEntry>) {
    forall i, j :: 0 <= i < j < |es| ==> es[i].id != es[j].id
  }

  /** Filtering keeps entries in their order, so ascending ids stay ascending. */
  lemma {:induction false} FilterKeepsIdOrder(es: seq<LogEntry>, p: LogEntry -> bool)
    requires IdsAscending(es)
    ensures IdsAscending(Filter(es, p))
    decreases |es|
  {
    if es != [] {
      FilterKeepsIdOrder(es[1..], p);
      var t := Filter(es[1..], p);
      forall x | x in t ensures es[0].id < x.id {
        var k :| 0 <= k < |es[1..]| && es[1..][k] == x;
        assert es[k + 1] == x;
      }
    }
  }

  /** `xs.filter(c => c !== x)`: every occurrence of `x` goes, every other element stays. */
  function RemoveAll(xs: seq<string>, x: string): (r: seq<string>)
    ensures x !in r
    ensures forall y :: y != x ==> (y in r <==> y in xs)
  {
    Filter(xs, (c: string) => c != x)
  }

  /** The list toggles: a listed element has all its occurrences removed, an unlisted one
      is appended. */
  function Toggled(xs: seq<string>, x: string): seq<string> {
    if x in xs then RemoveAll(xs, x) else xs + [x]
  }

  lemma ToggledMembership(xs: seq<string>, x: string)
    ensures x in Toggled(xs, x) <==> x !in xs
    ensures forall y :: y != x ==> (y in Toggled(xs, x) <==> y in xs)
    ensures x in xs ==> SubseqOf(Toggled(xs, x), xs)
    ensures x !in xs ==> Toggled(xs, x) == xs + [x]
  {
    FilterIsSubsequence(xs, (c: string) => c != x);
  }

  /** Toggling an unlisted element twice gives the list back. */
  lemma ToggleTwice(xs: seq<string>, x: string)
    requires x !in xs
    ensures Toggled(Toggled(xs, x), x) == xs
  {
    assert x in xs + [x];
    FilterDropsLast(xs, x);
  }

  lemma {:induction false} FilterDropsLast(xs: seq<string>, x: string)
    requires x !in xs
    ensures Filter(xs + [x], (c: string) => c != x) == xs
    decreases |xs|
  {
    if xs == [] {
      assert Filter([x], (c: string) => c != x) == [] + Filter([x][1..], (c: string) => c != x);
    } else {
      assert (xs + [x])[1..] == xs[1..] + [x];
      FilterDropsLast(xs[1..], x);
      assert xs == [xs[0]] + xs[1..];
    }
  }

  // ---------------------------------------------------------------- filterEntries

  /** `defaultFilters`: all four levels, no query, no lists, no time range, unparsed shown. */
  function DefaultFilters(): LogFilters {
    LogFilters(LevelFlags(true, true, true, true), "", [], [], [], TimeRange(None, None), true)
  }

  /** The search: the lower-cased query occurs in the lower-cased message, source context,
      exception message or type, some stack frame, raw text or event name. */
  predicate MatchesQuery(e: LogEntry, q: string) {
    || Contains(LowerString(e.message), q)
    || Contains(LowerString(e.sourceContext), q)
    || (e.exceptionMessage.Some? && Contains(LowerString(e.exceptionMessage.value), q))
    || (e.exceptionType.Some? && Contains(LowerString(e.exceptionType.value), q))
    || (e.stackTrace.Some? &&
        exists k :: 0 <= k < |e.stackTrace.value| && Contains(LowerString(e.stackTrace.value[k]), q))
    || Contains(LowerString(e.rawContent), q)
    || (e.eventName.Some? && Contains(LowerString(e.eventName.value), q))
  }

  /** The primary type (when non-empty) or some nested type is listed. */
  predicate HasListedException(e: LogEntry, types: seq<string>) {
    (e.exceptionType.Some? && e.exceptionType.value != "" && e.exceptionType.value in types)
    || (e.nestedExceptions.Some? &&
        exists k :: 0 <= k < |e.nestedExceptions.value| && e.nestedExceptions.value[k].typ in types)
  }

  /** The predicate `filterEntries` hands to `Array.filter`, test by test. */
  predicate Keep(f: LogFilters, e: LogEntry) {
    && LevelEnabled(f.levels, e.level)
    && (f.showUnparsed || e.parseStatus == Parsed)
    && (f.searchQuery == "" || MatchesQuery(e, LowerString(f.searchQuery)))
    && (|f.sourceContexts| == 0 || e.sourceContext in f.sourceContexts)
    && (|f.exceptionTypes| == 0 || (e.level == Error && HasListedException(e, f.exceptionTypes)))
    && (|f.eventNames| == 0 ||
        (e.eventName.Some? && e.eventName.value != "" && e.eventName.value in f.eventNames))
    && !(f.timeRange.start.Some? && Before(e.timestamp, f.timeRange.start.value))
    && !(f.timeRange.end.Some? && Before(f.timeRange.end.value, e.timestamp))
  }

  /** `filterEntries(entries, filters)`: the entries that pass every test, the rest dropped,
      in their order. */
  function FilterEntries(es: seq<LogEntry>, f: LogFilters): (r: seq<LogEntry>)
    ensures forall e :: e in r <==> e in es && Keep(f, e)
  {
    Filter(es, e => Keep(f, e))
  }

  lemma FilterEntriesIsSubsequence(es: seq<LogEntry>, f: LogFilters)
    ensures SubseqOf(FilterEntries(es, f), es)
  {
    FilterIsSubsequence(es, e => Keep(f, e));
  }

  /** What each filter excludes. */
  lemma FilterExclusions(es: seq<LogEntry>, f: LogFilters, e: LogEntry)
    requires e in FilterEntries(es, f)
    ensures LevelEnabled(f.levels, e.level)
    ensures !f.showUnparsed ==> e.parseStatus == Parsed
    ensures |f.exceptionTypes| > 0 ==> e.level == Error && HasListedException(e, f.exceptionTypes)
    ensures |f.eventNames| > 0 ==> e.eventName.Some? && e.eventName.value in f.eventNames
  {
  }

  /** The default filters let every entry through. */
  lemma DefaultKeepsAll(es: seq<LogEntry>)
    ensures FilterEntries(es, DefaultFilters()) == es
  {
    FilterKeepsAll(es, e => Keep(DefaultFilters(), e));
  }

  // ---------------------------------------------------------------- setFilters

  /** `Partial<LogFilters>`: the fields a `setFilters` call gives. */
  datatype FiltersPatch = FiltersPatch(
    levels: Option<LevelFlags>,
    searchQuery: Option<string>,
    sourceContexts: Option<seq<string>>,
    exceptionTypes: Option<seq<string>>,
    eventNames: Option<seq<string>>,
    timeRange: Option<TimeRange>,
    showUnparsed: Option<bool>)

  const NoChange := FiltersPatch(None, None, None, None, None, None, None)

  function Pick<T>(given: Option<T>, current: T): T {
    if given.Some? then given.value else current
  }

  /** `{ ...filters, ...patch }`. */
  function Merge(f: LogFilters, p: FiltersPatch): LogFilters {
    LogFilters(
      Pick(p.levels, f.levels),
      Pick(p.searchQuery, f.searchQuery),
      Pick(p.sourceContexts, f.sourceContexts),
      Pick(p.exceptionTypes, f.exceptionTypes),
      Pick(p.eventNames, f.eventNames),
      Pick(p.timeRange, f.timeRange),
      Pick(p.showUnparsed, f.showUnparsed))
  }

  /** Merging nothing changes nothing, and merging the same patch again changes nothing
      more. */
  lemma MergeLaws(f: LogFilters, p: FiltersPatch)
    ensures Merge(f, NoChange) == f
    ensures Merge(Merge(f, p), p) == Merge(f, p)
  {
  }

  // ---------------------------------------------------------------- jumps

  function OfLevel(es: seq<LogEntry>, l: Level): seq<LogEntry> {
    Filter(es, (e: LogEntry) => e.level == l)
  }

  /** `xs.findIndex(e => e.id === id)` from `k` on, with `null` never equal to an id. */
  function FindIdFrom(xs: seq<LogEntry>, id: Option<int>, k: nat): (r: int)
    requires k <= |xs|
    ensures r == -1 || (k <= r < |xs| && id == Some(xs[r].id))
    ensures forall m :: k <= m < |xs| && (r == -1 || m < r) ==> id != Some(xs[m].id)
    decreases |xs| - k
  {
    if k == |xs| then -1 else if id == Some(xs[k].id) then k else FindIdFrom(xs, id, k + 1)
  }

  function FindId(xs: seq<LogEntry>, id: Option<int>): int {
    FindIdFrom(xs, id, 0)
  }

  /** `jumpToNext*` on the list `m` of the entries of its level: nothing without such an
      entry, otherwise the one after the selected one, wrapping to the first. */
  function NextIn(m: seq<LogEntry>, sel: Option<int>): (r: Option<int>)
    ensures r == sel || exists k :: 0 <= k < |m| && r == Some(m[k].id)
  {
    if |m| == 0 then sel
    else
      var cur := FindId(m, sel);
      Some(m[if cur < |m| - 1 then cur + 1 else 0].id)
  }

  /** `jumpToPrev*` on the list `m`: the one before the selected one, wrapping to the last. */
  function PrevIn(m: seq<LogEntry>, sel: Option<int>): (r: Option<int>)
    ensures r == sel || exists k :: 0 <= k < |m| && r == Some(m[k].id)
  {
    if |m| == 0 then sel
    else
      var cur := FindId(m, sel);
      Some(m[if cur > 0 then cur - 1 else |m| - 1].id)
  }

  /** The selection after a jump to the next entry of level `l` in the filtered list. */
  function NextSelection(fe: seq<LogEntry>, l: Level, sel: Option<int>): Option<int> {
    NextIn(OfLevel(fe, l), sel)
  }

  /** The selection after a jump to the previous entry of level `l`. */
  function PrevSelection(fe: seq<LogEntry>, l: Level, sel: Option<int>): Option<int> {
    PrevIn(OfLevel(fe, l), sel)
  }

  /** With distinct ids the entry `j` is the one found for its own id. */
  lemma FindOwnId(xs: seq<LogEntry>, j: nat)
    requires UniqueIds(xs) && j < |xs|
    ensures FindId(xs, Some(xs[j].id)) == j
  {
  }

  /** Without an entry of the level the jumps leave the selection; from a selection that is
      none of those entries they go to the first (next) or the last (previous) one. */
  lemma JumpFromOutside(m: seq<LogEntry>, sel: Option<int>)
    requires forall k :: 0 <= k < |m| ==> sel != Some(m[k].id)
    ensures |m| == 0 ==> NextIn(m, sel) == sel && PrevIn(m, sel) == sel
    ensures |m| > 0 ==> NextIn(m, sel) == Some(m[0].id) && PrevIn(m, sel) == Some(m[|m| - 1].id)
  {
  }

  /** From the entry `j` of the level the jumps move one step along the list, wrapping
      around at either end. */
  lemma JumpFromEntry(m: seq<LogEntry>, j: nat)
    requires UniqueIds(m) && j < |m|
    ensures j < |m| - 1 ==> NextIn(m, Some(m[j].id)) == Some(m[j + 1].id)
    ensures j == |m| - 1 ==> NextIn(m, Some(m[j].id)) == Some(m[0].id)
    ensures j > 0 ==> PrevIn(m, Some(m[j].id)) == Some(m[j - 1].id)
    ensures j == 0 ==> PrevIn(m, Some(m[j].id)) == Some(m[|m| - 1].id)
  {
    FindOwnId(m, j);
  }

  /** With distinct ids, a jump back undoes a jump forward from an entry of the level, and
      the other way round. */
  lemma JumpsUndo(m: seq<LogEntry>, j: nat)
    requires UniqueIds(m) && j < |m|
    ensures PrevIn(m, NextIn(m, Some(m[j].id))) == Some(m[j].id)
    ensures NextIn(m, PrevIn(m, Some(m[j].id))) == Some(m[j].id)
  {
    JumpFromEntry(m, j);
    var n := if j < |m| - 1 then j + 1 else 0;
    var p := if j > 0 then j - 1 else |m| - 1;
    JumpFromEntry(m, n);
    JumpFromEntry(m, p);
  }

  /** Ascending ids, as the parser hands them out, are distinct in every list of entries
      the jumps look at. */
  lemma JumpListUnique(es: seq<LogEntry>, f: LogFilters, l: Level)
    requires IdsAscending(es)
    ensures UniqueIds(OfLevel(FilterEntries(es, f), l))
  {
    FilterKeepsIdOrder(es, e => Keep(f, e));
    FilterKeepsIdOrder(FilterEntries(es, f), (e: LogEntry) => e.level == l);
  }

  /** In a store, whose ids ascend, jumping to the next entry of a level and back (or back
      and then forward) returns to the entry of that level that was selected. */
  lemma StoreJumpsUndo(es: seq<LogEntry>, f: LogFilters, l: Level, j: nat)
    requires IdsAscending(es) && j < |OfLevel(FilterEntries(es, f), l)|
    ensures PrevSelection(FilterEntries(es, f), l,
              NextSelection(FilterEntries(es, f), l, Some(OfLevel(FilterEntries(es, f), l)[j].id)))
            == Some(OfLevel(FilterEntries(es, f), l)[j].id)
    ensures NextSelection(FilterEntries(es, f), l,
              PrevSelection(FilterEntries(es, f), l, Some(OfLevel(FilterEntries(es, f), l)[j].id)))
            == Some(OfLevel(FilterEntries(es, f), l)[j].id)
  {
    JumpListUnique(es, f, l);
    JumpsUndo(OfLevel(FilterEntries(es, f), l), j);
  }

  /** The parser numbers its entries 0, 1, 2, ... */
  lemma ParsedIdsAscending(content: string, now: DateParts)
    ensures IdsAscending(Segmenter.ParseLog(content, now))
  {
    Segmenter.ParseLogEntries(content, now);
  }

  // ---------------------------------------------------------------- the store

  class LogStore {
    var entries: seq<LogEntry>
    var stats: Option<LogStats>
    var fileInfo: Option<FileInfo>
    var selectedEntryId: Option<int>
    var filters: LogFilters
    var filteredEntries: seq<LogEntry>

    /** The filtered list is always that of the entries and the filters; the statistics,
        when present, are those of the entries; the ids ascend. */
    ghost predicate Valid()
      reads this
    {
      && filteredEntries == FilterEntries(entries, filters)
      && (stats.Some? ==> IsStatsOf(entries, stats.value))
      && (stats.None? ==> entries == [])
      && IdsAscending(entries)
    }

    /** The initial state. */
    constructor()
      ensures Valid()
      ensures entries == [] && stats == None && fileInfo == None && selectedEntryId == None
      ensures filters == DefaultFilters() && filteredEntries == []
    {
      entries := [];
      stats := None;
      fileInfo := None;
      selectedEntryId := None;
      filters := DefaultFilters();
      filteredEntries := [];
    }

    /** `loadFile(content, fileInfo)`; `now` is the time an entry without a start line
        gets. Everything is shown, nothing is selected. */
    method LoadFile(content: string, info: FileInfo, now: DateParts)
      modifies this
      ensures Valid()
      ensures entries == Segmenter.ParseLog(content, now)
      ensures stats.Some? && IsStatsOf(entries, stats.value)
      ensures fileInfo == Some(info) && selectedEntryId == None
      ensures filters == DefaultFilters() && filteredEntries == entries
    {
      var es := Segmenter.ParseLogFile(content, now);
      var st := CalculateStats(es);
      ParsedIdsAscending(content, now);
      SetLoaded(es, st, info);
    }

    /** The `set` call of `loadFile`: the parsed entries and their statistics replace the
        old ones, and the filters go back to the defaults, which show every entry. */
    method SetLoaded(es: seq<LogEntry>, st: LogStats, info: FileInfo)
      requires IsStatsOf(es, st) && IdsAscending(es)
      modifies this
      ensures Valid()
      ensures entries == es && stats == Some(st)
      ensures fileInfo == Some(info) && selectedEntryId == None
      ensures filters == DefaultFilters() && filteredEntries == es
    {
      DefaultKeepsAll(es);
      entries := es;
      stats := Some(st);
      fileInfo := Some(info);
      selectedEntryId := None;
      filters := DefaultFilters();
      filteredEntries := FilterEntries(es, DefaultFilters());
    }

    /** `clearFile()`: back to the initial state. */
    method ClearFile()
      modifies this
      ensures Valid()
      ensures entries == [] && stats == None && fileInfo == None && selectedEntryId == None
      ensures filters == DefaultFilters() && filteredEntries == []
    {
      entries := [];
      stats := None;
      fileInfo := None;
      selectedEntryId := None;
      filters := DefaultFilters();
      filteredEntries := [];
    }

    /** `selectEntry(id)`. */
    method SelectEntry(id: Option<int>)
      requires Valid()
      modifies this
      ensures Valid()
      ensures selectedEntryId == id
      ensures entries == old(entries) && stats == old(stats) && fileInfo == old(fileInfo)
      ensures filters == old(filters) && filteredEntries == old(filteredEntries)
    {
      selectedEntryId := id;
    }

    /** `setFilters(patch)`: the given fields replace the current ones and the list is
        filtered again; the entries, statistics and selection stay. */
    method SetFilters(p: FiltersPatch)
      requires Valid()
      modifies this
      ensures Valid()
      ensures filters == Merge(old(filters), p)
      ensures filteredEntries == FilterEntries(entries, filters)
      ensures entries == old(entries) && stats == old(stats) && fileInfo == old(fileInfo)
      ensures selectedEntryId == old(selectedEntryId)
    {
      var updated := Merge(filters, p);
      filteredEntries := FilterEntries(entries, updated);
      filters := updated;
    }

    /** `toggleLevel(level)`: that one flag flips. */
    method ToggleLevel(l: Level)
      requires Valid()
      modifies this
      ensures Valid()
      ensures filters == old(filters).(levels := WithLevel(old(filters).levels, l, !LevelEnabled(old(filters).levels, l)))
      ensures entries == old(entries) && stats == old(stats) && fileInfo == old(fileInfo)
      ensures selectedEntryId == old(selectedEntryId)
    {
      SetFilters(NoChange.(levels := Some(WithLevel(filters.levels, l, !LevelEnabled(filters.levels, l)))));
    }

    /** `setSearchQuery(query)`. */
    method SetSearchQuery(query: string)
      requires Valid()
      modifies this
      ensures Valid()
      ensures filters == old(filters).(searchQuery := query)
      ensures entries == old(entries) && stats == old(stats) && fileInfo == old(fileInfo)
      ensures selectedEntryId == old(selectedEntryId)
    {
      SetFilters(NoChange.(searchQuery := Some(query)));
    }

    /** `toggleSourceContext(context)`. */
    method ToggleSourceContext(context: string)
      requires Valid()
      modifies this
      ensures Valid()
      ensures filters == old(filters).(sourceContexts := Toggled(old(filters).sourceContexts, context))
      ensures entries == old(entries) && stats == old(stats) && fileInfo == old(fileInfo)
      ensures selectedEntryId == old(selectedEntryId)
    {
      SetFilters(NoChange.(sourceContexts := Some(Toggled(filters.sourceContexts, context))));
    }

    /** `toggleExceptionType(type)`. */
    method ToggleExceptionType(typ: string)
      requires Valid()
      modifies this
      ensures Valid()
      ensures filters == old(filters).(exceptionTypes := Toggled(old(filters).exceptionTypes, typ))
      ensures entries == old(entries) && stats == old(stats) && fileInfo == old(fileInfo)
      ensures selectedEntryId == old(selectedEntryId)
    {
      SetFilters(NoChange.(exceptionTypes := Some(Toggled(filters.exceptionTypes, typ))));
    }

    /** `toggleEventName(name)`. */
    method ToggleEventName(name: string)
      requires Valid()
      modifies this
      ensures Valid()
      ensures filters == old(filters).(eventNames := Toggled(old(filters).eventNames, name))
      ensures entries == old(entries) && stats == old(stats) && fileInfo == old(fileInfo)
      ensures selectedEntryId == old(selectedEntryId)
    {
      SetFilters(NoChange.(eventNames := Some(Toggled(filters.eventNames, name))));
    }

    /** `toggleShowUnparsed()`. */
    method ToggleShowUnparsed()
      requires Valid()
      modifies this
      ensures Valid()
      ensures filters == old(filters).(showUnparsed := !old(filters).showUnparsed)
      ensures entries == old(entries) && stats == old(stats) && fileInfo == old(fileInfo)
      ensures selectedEntryId == old(selectedEntryId)
    {
      SetFilters(NoChange.(showUnparsed := Some(!filters.showUnparsed)));
    }

    /** The body the three `jumpToNext*` actions share. */
    method JumpNext(l: Level)
      requires Valid()
      modifies this
      ensures Valid()
      ensures selectedEntryId == NextSelection(filteredEntries, l, old(selectedEntryId))
      ensures entries == old(entries) && stats == old(stats) && fileInfo == old(fileInfo)
      ensures filters == old(filters) && filteredEntries == old(filteredEntries)
    {
      var matching := OfLevel(filteredEntries, l);
      if |matching| == 0 {
        return;
      }
      var currentIndex := FindId(matching, selectedEntryId);
      var nextIndex := if currentIndex < |matching| - 1 then currentIndex + 1 else 0;
      selectedEntryId := Some(matching[nextIndex].id);
    }

    /** The body the three `jumpToPrev*` actions share. */
    method JumpPrev(l: Level)
      requires Valid()
      modifies this
      ensures Valid()
      ensures selectedEntryId == PrevSelection(filteredEntries, l, old(selectedEntryId))
      ensures entries == old(entries) && stats == old(stats) && fileInfo == old(fileInfo)
      ensures filters == old(filters) && filteredEntries == old(filteredEntries)
    {
      var matching := OfLevel(filteredEntries, l);
      if |matching| == 0 {
        return;
      }
      var currentIndex := FindId(matching, selectedEntryId);
      var prevIndex := if currentIndex > 0 then currentIndex - 1 else |matching| - 1;
      selectedEntryId := Some(matching[prevIndex].id);
    }

    method JumpToNextError()
      requires Valid()
      modifies this
      ensures Valid()
      ensures selectedEntryId == NextSelection(filteredEntries, Error, old(selectedEntryId))
      ensures entries == old(entries) && stats == old(stats) && fileInfo == old(fileInfo)
      ensures filters == old(filters) && filteredEntries == old(filteredEntries)
    {
      JumpNext(Error);
    }

    method JumpToPrevError()
      requires Valid()
      modifies this
      ensures Valid()
      ensures selectedEntryId == PrevSelection(filteredEntries, Error, old(selectedEntryId))
      ensures entries == old(entries) && stats == old(stats) && fileInfo == old(fileInfo)
      ensures filters == old(filters) && filteredEntries == old(filteredEntries)
    {
      JumpPrev(Error);
    }

    method JumpToNextWarning()
      requires Valid()
      modifies this
      ensures Valid()
      ensures selectedEntryId == NextSelection(filteredEntries, Warning, old(selectedEntryId))
      ensures entries == old(entries) && stats == old(stats) && fileInfo == old(fileInfo)
      ensures filters == old(filters) && filteredEntries == old(filteredEntries)
    {
      JumpNext(Warning);
    }

    method JumpToPrevWarning()
      requires Valid()
      modifies this
      ensures Valid()
      ensures selectedEntryId == PrevSelection(filteredEntries, Warning, old(selectedEntryId))
      ensures entries == old(entries) && stats == old(stats) && fileInfo == old(fileInfo)
      ensures filters == old(filters) && filteredEntries == old(filteredEntries)
    {
      JumpPrev(Warning);
    }

    method JumpToNextTrace()
      requires Valid()
      modifies this
      ensures Valid()
      ensures selectedEntryId == NextSelection(filteredEntries, Trace, old(selectedEntryId))
      ensures entries == old(entries) && stats == old(stats) && fileInfo == old(fileInfo)
      ensures filters == old(filters) && filteredEntries == old(filteredEntries)
    {
      JumpNext(Trace);
    }

    method JumpToPrevTrace()
      requires Valid()
      modifies this
      ensures Valid()
      ensures selectedEntryId == PrevSelection(filteredEntries, Trace, old(selectedEntryId))
      ensures entries == old(entries) && stats == old(stats) && fileInfo == old(fileInfo)
      ensures filters == old(filters) && filteredEntries == old(filteredEntries)
    {
      JumpPrev(Trace);
    }
  }
}
