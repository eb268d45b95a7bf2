/** `calculateStats` (src/utils/logParser.ts): one pass over the entries that counts levels
    and non-parsed entries, collects exception types and source contexts into sets, and
    tracks the earliest and latest timestamp. The specification functions below recurse
    from the end of the list, the way the loop sees a growing prefix. */
module Stats {
  import opened Wrappers
  import opened Text
  import opened LogTypes

  // ---------------------------------------------------------------- specification

  function CountLevel(es: seq<LogEntry>, l: Level): nat
    decreases |es|
  {
    if es == [] then 0
    else CountLevel(es[..|es| - 1], l) + (if es[|es| - 1].level == l then 1 else 0)
  }

  function CountStatus(es: seq<LogEntry>, st: ParseStatus): nat
    decreases |es|
  {
    if es == [] then 0
    else CountStatus(es[..|es| - 1], st) + (if es[|es| - 1].parseStatus == st then 1 else 0)
  }

  /** The entries whose status is not `parsed`. */
  function CountNotParsed(es: seq<LogEntry>): nat
    decreases |es|
  {
    if es == [] then 0
    else CountNotParsed(es[..|es| - 1]) + (if es[|es| - 1].parseStatus != Parsed then 1 else 0)
  }

  function NestedTypes(ns: seq<ExceptionInfo>): set<string> {
    set k | 0 <= k < |ns| :: ns[k].typ
  }

  /** What one entry adds to the exception-type set: for an error, its (non-empty) primary
      type and the type of every nested exception; nothing for the other levels. */
  function EntryExceptionTypes(e: LogEntry): set<string> {
    if e.level != Error then {}
    else
      (if e.exceptionType.Some? && e.exceptionType.value != "" then {e.exceptionType.value} else {})
      + (if e.nestedExceptions.Some? then NestedTypes(e.nestedExceptions.value) else {})
  }

  function ExceptionTypesOf(es: seq<LogEntry>): set<string>
    decreases |es|
  {
    if es == [] then {} else ExceptionTypesOf(es[..|es| - 1]) + EntryExceptionTypes(es[|es| - 1])
  }

  function EntrySourceContexts(e: LogEntry): set<string> {
    if e.sourceContext != "Unknown" then {e.sourceContext} else {}
  }

  function SourceContextsOf(es: seq<LogEntry>): set<string>
    decreases |es|
  {
    if es == [] then {} else SourceContextsOf(es[..|es| - 1]) + EntrySourceContexts(es[|es| - 1])
  }

  /** One step of the time-range update: a strictly earlier timestamp replaces the start,
      a strictly later one the end; the first entry sets both. */
  function UpdateRange(r: TimeRange, ts: DateParts): TimeRange {
    TimeRange(
      if r.start.None? || Before(ts, r.start.value) then Some(ts) else r.start,
      if r.end.None? || Before(r.end.value, ts) then Some(ts) else r.end)
  }

  function TimeRangeOf(es: seq<LogEntry>): TimeRange
    decreases |es|
  {
    if es == [] then TimeRange(None, None)
    else UpdateRange(TimeRangeOf(es[..|es| - 1]), es[|es| - 1].timestamp)
  }

  /** `stats` is what `calculateStats(es)` returns. */
  predicate IsStatsOf(es: seq<LogEntry>, stats: LogStats) {
    && stats.total == |es|
    && stats.errors == CountLevel(es, Error)
    && stats.warnings == CountLevel(es, Warning)
    && stats.info == CountLevel(es, Info)
    && stats.unparsed == CountNotParsed(es)
    && StrictlySorted(stats.uniqueExceptionTypes)
    && (forall x :: x in stats.uniqueExceptionTypes ==> x in ExceptionTypesOf(es))
    && (forall x :: x in ExceptionTypesOf(es) ==> x in stats.uniqueExceptionTypes)
    && StrictlySorted(stats.uniqueSourceContexts)
    && (forall x :: x in stats.uniqueSourceContexts ==> x in SourceContextsOf(es))
    && (forall x :: x in SourceContextsOf(es) ==> x in stats.uniqueSourceContexts)
    && stats.timeRange == TimeRangeOf(es)
  }

  // ---------------------------------------------------------------- the loop

  /** `calculateStats(entries)`. */
  method CalculateStats(entries: seq<LogEntry>) returns (stats: LogStats)
    ensures IsStatsOf(entries, stats)
  {
    var errors, warnings, info, unparsed := 0, 0, 0, 0;
    var exceptionTypeSet: set<string> := {};
    var sourceContextSet: set<string> := {};
    var range := TimeRange(None, None);
    for i := 0 to |entries|
      invariant errors == CountLevel(entries[..i], Error)
      invariant warnings == CountLevel(entries[..i], Warning)
      invariant info == CountLevel(entries[..i], Info)
      invariant unparsed == CountNotParsed(entries[..i])
      invariant exceptionTypeSet == ExceptionTypesOf(entries[..i])
      invariant sourceContextSet == SourceContextsOf(entries[..i])
      invariant range == TimeRangeOf(entries[..i])
    {
      var entry := entries[i];
      assert entries[..i + 1][..i] == entries[..i];
      assert entries[..i + 1][i] == entry;
      match entry.level {
        case Error =>
          errors := errors + 1;
          if entry.exceptionType.Some? && entry.exceptionType.value != "" {
            exceptionTypeSet := exceptionTypeSet + {entry.exceptionType.value};
          }
          if entry.nestedExceptions.Some? {
            exceptionTypeSet := AddNestedTypes(exceptionTypeSet, entry.nestedExceptions.value);
          }
        case Warning =>
          warnings := warnings + 1;
        case Info =>
          info := info + 1;
        case Trace =>
      }
      if entry.parseStatus != Parsed {
        unparsed := unparsed + 1;
      }
      if entry.sourceContext != "Unknown" {
        sourceContextSet := sourceContextSet + {entry.sourceContext};
      }
      range := UpdateRange(range, entry.timestamp);
    }
    assert entries[..|entries|] == entries;
    var types := SortedElements(exceptionTypeSet);
    var contexts := SortedElements(sourceContextSet);
    stats := LogStats(|entries|, errors, warnings, info, unparsed, types, contexts, range);
  }

  /** `nestedExceptions.forEach(ne => exceptionTypeSet.add(ne.type))`. */
  method AddNestedTypes(types: set<string>, ns: seq<ExceptionInfo>) returns (r: set<string>)
    ensures r == types + NestedTypes(ns)
  {
    r := types;
    for j := 0 to |ns|
      invariant r == types + set k | 0 <= k < j :: ns[k].typ
    {
      r := r + {ns[j].typ};
    }
  }

  // ---------------------------------------------------------------- properties

  lemma {:induction false} LevelCountsSum(es: seq<LogEntry>)
    ensures CountLevel(es, Error) + CountLevel(es, Warning) + CountLevel(es, Info)
            + CountLevel(es, Trace) == |es|
    decreases |es|
  {
    if es != [] { LevelCountsSum(es[..|es| - 1]); }
  }

  /** Partial entries count as unparsed as well as unparsed ones. */
  lemma {:induction false} NotParsedSplit(es: seq<LogEntry>)
    ensures CountNotParsed(es) == CountStatus(es, Partial) + CountStatus(es, Unparsed)
    ensures CountNotParsed(es) == |es| - CountStatus(es, Parsed)
    decreases |es|
  {
    if es != [] { NotParsedSplit(es[..|es| - 1]); }
  }

  /** The exception types are those of the error entries: each primary type and each nested
      type of an `E` entry, and nothing else. */
  lemma {:induction false} ExceptionTypesFromErrors(es: seq<LogEntry>, x: string)
    ensures x in ExceptionTypesOf(es) <==>
            exists k :: 0 <= k < |es| && es[k].level == Error && x in EntryExceptionTypes(es[k])
    decreases |es|
  {
    if es != [] {
      var p := es[..|es| - 1];
      ExceptionTypesFromErrors(p, x);
      if x in ExceptionTypesOf(p) {
        var k :| 0 <= k < |p| && p[k].level == Error && x in EntryExceptionTypes(p[k]);
        assert es[k] == p[k];
      }
      if exists k :: 0 <= k < |es| && es[k].level == Error && x in EntryExceptionTypes(es[k]) {
        var k :| 0 <= k < |es| && es[k].level == Error && x in EntryExceptionTypes(es[k]);
        if k < |p| { assert p[k] == es[k]; }
      }
    }
  }

  /** The source contexts are those of the entries, except "Unknown". */
  lemma {:induction false} SourceContextsOfEntries(es: seq<LogEntry>, x: string)
    ensures x in SourceContextsOf(es) <==>
            x != "Unknown" && exists k :: 0 <= k < |es| && es[k].sourceContext == x
    decreases |es|
  {
    if es != [] {
      var p := es[..|es| - 1];
      SourceContextsOfEntries(p, x);
      if x in SourceContextsOf(p) {
        var k :| 0 <= k < |p| && p[k].sourceContext == x;
        assert es[k] == p[k];
      }
      if x != "Unknown" && exists k :: 0 <= k < |es| && es[k].sourceContext == x {
        var k :| 0 <= k < |es| && es[k].sourceContext == x;
        if k < |p| { assert p[k] == es[k]; }
      }
    }
  }

  lemma BeforeTransitive(a: DateParts, b: DateParts, c: DateParts)
    requires Before(a, b) && Before(b, c)
    ensures Before(a, c)
  {
  }

  /** The range is empty exactly for no entries; otherwise both ends are timestamps of
      entries, no timestamp is before the start and none is after the end. */
  lemma {:induction false} TimeRangeBounds(es: seq<LogEntry>)
    ensures TimeRangeOf(es).start.None? <==> es == []
    ensures TimeRangeOf(es).end.None? <==> es == []
    ensures es != [] ==>
              (exists k :: 0 <= k < |es| && es[k].timestamp == TimeRangeOf(es).start.value)
              && (exists k :: 0 <= k < |es| && es[k].timestamp == TimeRangeOf(es).end.value)
    ensures es != [] ==>
              forall k :: 0 <= k < |es| ==>
                !Before(es[k].timestamp, TimeRangeOf(es).start.value)
                && !Before(TimeRangeOf(es).end.value, es[k].timestamp)
    decreases |es|
  {
    if es != [] {
      var p := es[..|es| - 1];
      var ts := es[|es| - 1].timestamp;
      TimeRangeBounds(p);
      var r := TimeRangeOf(p);
      var s := TimeRangeOf(es);
      assert s == UpdateRange(r, ts);
      if p == [] {
        assert es == [es[0]];
      } else {
        var i :| 0 <= i < |p| && p[i].timestamp == r.start.value;
        var j :| 0 <= j < |p| && p[j].timestamp == r.end.value;
        if s.start == r.start { assert es[i] == p[i]; }
        if s.end == r.end { assert es[j] == p[j]; }
        forall k | 0 <= k < |es|
          ensures !Before(es[k].timestamp, s.start.value) && !Before(s.end.value, es[k].timestamp)
        {
          if k < |p| {
            assert es[k] == p[k];
            if Before(es[k].timestamp, ts) && Before(ts, r.start.value) {
              BeforeTransitive(es[k].timestamp, ts, r.start.value);
            }
            if Before(r.end.value, ts) && Before(ts, es[k].timestamp) {
              BeforeTransitive(r.end.value, ts, es[k].timestamp);
            }
          }
        }
      }
    }
  }

  /** What `calculateStats` promises about its result. */
  lemma StatsProperties(es: seq<LogEntry>, stats: LogStats)
    requires IsStatsOf(es, stats)
    ensures stats.errors + stats.warnings + stats.info == stats.total - CountLevel(es, Trace)
    ensures stats.unparsed == CountStatus(es, Partial) + CountStatus(es, Unparsed)
    ensures "Unknown" !in stats.uniqueSourceContexts
    ensures forall x :: x in stats.uniqueExceptionTypes ==>
              exists k :: 0 <= k < |es| && es[k].level == Error && x in EntryExceptionTypes(es[k])
    ensures stats.timeRange.start.None? <==> es == []
    ensures stats.timeRange.end.None? <==> es == []
    ensures es != [] ==>
              forall k :: 0 <= k < |es| ==>
                !Before(es[k].timestamp, stats.timeRange.start.value)
                && !Before(stats.timeRange.end.value, es[k].timestamp)
  {
    LevelCountsSum(es);
    NotParsedSplit(es);
    SourceContextsOfEntries(es, "Unknown");
    forall x | x in stats.uniqueExceptionTypes
      ensures exists k :: 0 <= k < |es| && es[k].level == Error && x in EntryExceptionTypes(es[k])
    {
      ExceptionTypesFromErrors(es, x);
    }
    TimeRangeBounds(es);
  }

  /** The statistics of a list are determined: two results for the same entries agree. */
  lemma StatsDetermined(es: seq<LogEntry>, s1: LogStats, s2: LogStats)
    requires IsStatsOf(es, s1) && IsStatsOf(es, s2)
    ensures s1 == s2
  {
    StrictlySortedUnique(s1.uniqueExceptionTypes, s2.uniqueExceptionTypes);
    StrictlySortedUnique(s1.uniqueSourceContexts, s2.uniqueSourceContexts);
  }
}
