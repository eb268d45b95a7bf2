/** The records the log reader passes around (src/types/index.ts): log levels, parse
    statuses, entries, statistics, filters and file information. */
module LogTypes {
  import opened Wrappers

  /** The level letter at the start of an entry: I, W, E or T. */
  datatype Level = Info | Warning | Error | Trace

  function LevelCode(l: Level): char {
    match l
    case Info => 'I'
    case Warning => 'W'
    case Error => 'E'
    case Trace => 'T'
  }

  datatype ParseStatus = Parsed | Partial | Unparsed

  /** A point in time as the components handed to the `Date` constructor: local time,
      `month` counted from 0 as in JavaScript (so it may be -1 for a captured month 00). */
  datatype DateParts = DateParts(year: int, month: int, day: int, hour: int, minute: int, second: int)

  /** The order in which `Date` values compare, for components that are in range. */
  predicate Before(a: DateParts, b: DateParts) {
    a.year < b.year
    || (a.year == b.year && (a.month < b.month
    || (a.month == b.month && (a.day < b.day
    || (a.day == b.day && (a.hour < b.hour
    || (a.hour == b.hour && (a.minute < b.minute
    || (a.minute == b.minute && a.second < b.second)))))))))
  }

  /** `NestedExceptionInfo`. */
  datatype ExceptionInfo = ExceptionInfo(typ: string, message: string, stackTrace: seq<string>)

  /** `LogEntry`; the optional fields of the interface are `Option`s. */
  datatype LogEntry = LogEntry(
    id: nat,
    level: Level,
    timestamp: DateParts,
    timestampRaw: string,
    message: string,
    sourceContext: string,
    className: string,
    rawContent: string,
    lineNumber: nat,
    lineCount: int,
    parseStatus: ParseStatus,
    exceptionType: Option<string>,
    exceptionMessage: Option<string>,
    stackTrace: Option<seq<string>>,
    nestedExceptions: Option<seq<ExceptionInfo>>,
    parseError: Option<string>,
    eventName: Option<string>)

  datatype TimeRange = TimeRange(start: Option<DateParts>, end: Option<DateParts>)

  /** `LogStats`, with the fields `calculateStats` fills in. */
  datatype LogStats = LogStats(
    total: nat,
    errors: nat,
    warnings: nat,
    info: nat,
    unparsed: nat,
    uniqueExceptionTypes: seq<string>,
    uniqueSourceContexts: seq<string>,
    timeRange: TimeRange)

  /** `LogFilters.levels`: one switch per level letter. */
  datatype LevelFlags = LevelFlags(i: bool, w: bool, e: bool, t: bool)

  function LevelEnabled(flags: LevelFlags, l: Level): bool {
    match l
    case Info => flags.i
    case Warning => flags.w
    case Error => flags.e
    case Trace => flags.t
  }

  /** `{ ...flags, [l]: v }`. */
  function WithLevel(flags: LevelFlags, l: Level, v: bool): (r: LevelFlags)
    ensures LevelEnabled(r, l) == v
    ensures forall m: Level :: m != l ==> LevelEnabled(r, m) == LevelEnabled(flags, m)
  {
    match l
    case Info => flags.(i := v)
    case Warning => flags.(w := v)
    case Error => flags.(e := v)
    case Trace => flags.(t := v)
  }

  datatype LogFilters = LogFilters(
    levels: LevelFlags,
    searchQuery: string,
    sourceContexts: seq<string>,
    exceptionTypes: seq<string>,
    eventNames: seq<string>,
    timeRange: TimeRange,
    showUnparsed: bool)

  /** `FileInfo`; `lastModified` is the `Date` as a number. */
  datatype FileInfo = FileInfo(name: string, size: int, lastModified: int)
}
