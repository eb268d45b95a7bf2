/** `parseTimestamp` (src/utils/logParser.ts:12-34): finding a `YYYY-MM-DD h:mm:ss AM`
    timestamp in a string and decoding it into the components of a local `Date`, with the
    12-hour clock converted to the 24-hour one. */
module Timestamps {
  import opened Wrappers
  import opened Text
  import opened LogTypes

  // ---------------------------------------------------------------- recognising

  /** `\d{n}` at index `i`. */
  predicate DigitsAt(s: string, i: nat, n: nat) {
    i + n <= |s| && forall m :: i <= m < i + n ==> IsDigit(s[m])
  }

  predicate CharAt(s: string, i: nat, c: char) {
    i < |s| && s[i] == c
  }

  /** Where the parts of a timestamp match lie: the hour's digits run from `hourStart` to
      `hourEnd`, and the `AM`/`PM` marker starts at `meridiem`. The date starts where the
      match starts, and the match ends at `meridiem + 2`. */
  datatype TsMatch = TsMatch(hourStart: nat, hourEnd: nat, meridiem: nat)

  /** `\d{1,2}:` at `h`: the greedy two-digit hour is tried first, and one digit only when
      the second digit is not followed by the colon. Gives the index of the colon. */
  function HourEnd(s: string, h: nat): (r: Option<nat>)
    ensures r.Some? ==> h < r.value <= h + 2 && DigitsAt(s, h, r.value - h) && CharAt(s, r.value, ':')
  {
    if DigitsAt(s, h, 2) && CharAt(s, h + 2, ':') then Some(h + 2)
    else if DigitsAt(s, h, 1) && CharAt(s, h + 1, ':') then Some(h + 1)
    else None
  }

  /** `[AP]M` at `a`, or `(AM|PM)` with the `i` flag when `ci` holds. */
  predicate IsMeridiem(s: string, a: nat, ci: bool) {
    a + 1 < |s| && (CharEq(s[a], 'A', ci) || CharEq(s[a], 'P', ci)) && CharEq(s[a + 1], 'M', ci)
  }

  /** `\d{4}-\d{2}-\d{2}` at `i`. */
  predicate DateAt(s: string, i: nat) {
    DigitsAt(s, i, 4) && CharAt(s, i + 4, '-') && DigitsAt(s, i + 5, 2)
    && CharAt(s, i + 7, '-') && DigitsAt(s, i + 8, 2)
  }

  /** `\d{1,2}:\d{2}:\d{2}\s+[AP]M` at `h`: the index of the colon after the hour and the
      index of the marker. */
  function ClockAt(s: string, h: nat, ci: bool): (r: Option<(nat, nat)>)
    ensures r.Some? ==> h < r.value.0 <= h + 2 && r.value.0 + 6 < r.value.1 && r.value.1 + 2 <= |s|
  {
    match HourEnd(s, h)
    case None => None
    case Some(c) =>
      if !(DigitsAt(s, c + 1, 2) && CharAt(s, c + 3, ':') && DigitsAt(s, c + 4, 2)) then None
      else
        var a := SkipWs(s, c + 6);
        if a == c + 6 || !IsMeridiem(s, a, ci) then None
        else Some((c, a))
  }

  /** The parts of a match at `i` lie in order inside `s`. */
  predicate Spans(s: string, i: nat, m: TsMatch) {
    i + 10 < m.hourStart < m.hourEnd && m.hourEnd + 6 < m.meridiem && m.meridiem + 2 <= |s|
  }

  /** `\d{4}-\d{2}-\d{2}\s+\d{1,2}:\d{2}:\d{2}\s+[AP]M` matched at index `i`. Each part is
      decided without backtracking: whitespace runs are followed by a digit or a letter, so
      the greedy run is the only one that can succeed. */
  function MatchTimestampAt(s: string, i: nat, ci: bool): (r: Option<TsMatch>)
    ensures r.Some? ==> Spans(s, i, r.value) && r.value.hourEnd <= r.value.hourStart + 2
  {
    if !DateAt(s, i) then None
    else
      var h := SkipWs(s, i + 10);
      if h == i + 10 then None
      else match ClockAt(s, h, ci)
        case None => None
        case Some(p) => Some(TsMatch(h, p.0, p.1))
  }

  // ---------------------------------------------------------------- decoding

  /** The conversion at src/utils/logParser.ts:20-21. */
  function To24Hour(h: nat, pm: bool): nat {
    if pm && h != 12 then h + 12
    else if !pm && h == 12 then 0
    else h
  }

  /** The 12-hour clock reading of a 24-hour hour: the hour shown and whether it is PM. */
  function To12Hour(h: nat): (nat, bool) {
    (if h % 12 == 0 then 12 else h % 12, h >= 12)
  }

  /** On the hours a 12-hour clock shows, the conversion is a bijection onto 0..23 whose
      inverse is `To12Hour`. */
  lemma To24HourRoundTrip(h: nat, pm: bool)
    requires 1 <= h <= 12
    ensures To24Hour(h, pm) <= 23
    ensures To12Hour(To24Hour(h, pm)) == (h, pm)
  {
  }

  lemma To12HourRoundTrip(h: nat)
    requires h <= 23
    ensures 1 <= To12Hour(h).0 <= 12
    ensures To24Hour(To12Hour(h).0, To12Hour(h).1) == h
  {
  }

  /** `ampm.toUpperCase() === 'PM'` for a matched marker. */
  predicate IsPm(c: char) { c == 'P' || c == 'p' }

  /** The `Date` components of a match at `i`: `month` is the captured month minus one. */
  function Decode(s: string, i: nat, m: TsMatch): DateParts
    requires Spans(s, i, m)
  {
    DateParts(
      DecimalAt(s, i, i + 4),
      DecimalAt(s, i + 5, i + 7) - 1,
      DecimalAt(s, i + 8, i + 10),
      To24Hour(DecimalAt(s, m.hourStart, m.hourEnd), IsPm(s[m.meridiem])),
      DecimalAt(s, m.hourEnd + 1, m.hourEnd + 3),
      DecimalAt(s, m.hourEnd + 4, m.hourEnd + 6))
  }

  /** The decoded components are the captured numbers: the year, the month less one, the
      day, the hour on the 24-hour clock (in 0..23 for a captured hour in 1..12, and read
      back as the captured hour and marker), the minute and the second. */
  lemma DecodeFields(s: string, i: nat, m: TsMatch)
    requires Spans(s, i, m)
    ensures var d := Decode(s, i, m);
            var h := DecimalAt(s, m.hourStart, m.hourEnd);
            var pm := IsPm(s[m.meridiem]);
            d.year == DecimalAt(s, i, i + 4)
            && d.month + 1 == DecimalAt(s, i + 5, i + 7)
            && d.day == DecimalAt(s, i + 8, i + 10)
            && d.minute == DecimalAt(s, m.hourEnd + 1, m.hourEnd + 3)
            && d.second == DecimalAt(s, m.hourEnd + 4, m.hourEnd + 6)
            && (pm && h != 12 ==> d.hour == h + 12)
            && (!pm && h == 12 ==> d.hour == 0)
            && (pm == (h == 12) ==> d.hour == h)
            && (1 <= h <= 12 ==> 0 <= d.hour <= 23 && To12Hour(d.hour) == (h, pm))
  {
    var h := DecimalAt(s, m.hourStart, m.hourEnd);
    if 1 <= h <= 12 {
      To24HourRoundTrip(h, IsPm(s[m.meridiem]));
    }
  }

  lemma NoTimestampPastEnd(s: string, p: nat)
    requires p >= |s|
    ensures MatchTimestampAt(s, p, true).None?
  {
  }

  /** The leftmost index where the case-insensitive timestamp matches, or -1. */
  function FindTimestamp(s: string): (r: int)
    ensures r == -1 || (0 <= r && MatchTimestampAt(s, r, true).Some?)
    ensures forall k: nat :: (r == -1 || k < r) ==> MatchTimestampAt(s, k, true).None?
  {
    var f := (k: nat) => MatchTimestampAt(s, k, true).Some?;
    var r := FindFirst(f, 0, |s|);
    assert forall k: nat :: (r == -1 || k < r) ==> MatchTimestampAt(s, k, true).None? by {
      forall k: nat | r == -1 || k < r ensures MatchTimestampAt(s, k, true).None? {
        if k >= |s| { NoTimestampPastEnd(s, k); } else { assert !f(k); }
      }
    }
    r
  }

  /** `parseTimestamp(ts)`. `None` stands for the `new Date(ts)` fallback taken when the
      timestamp pattern does not occur, whose result is not modelled. */
  function ParseTimestamp(ts: string): (r: Option<DateParts>)
    ensures r.None? <==> forall k: nat :: MatchTimestampAt(ts, k, true).None?
    ensures r.Some? ==>
              FindTimestamp(ts) >= 0
              && r.value == Decode(ts, FindTimestamp(ts), MatchTimestampAt(ts, FindTimestamp(ts), true).value)
  {
    var p := FindTimestamp(ts);
    if p < 0 then None else Some(Decode(ts, p, MatchTimestampAt(ts, p, true).value))
  }

  // ---------------------------------------------------------------- the raw timestamp

  /** Without the `i` flag the pattern matches less, and where it matches it matches the
      same text. */
  lemma MatchCaseInsensitive(s: string, i: nat)
    requires MatchTimestampAt(s, i, false).Some?
    ensures MatchTimestampAt(s, i, true) == MatchTimestampAt(s, i, false)
  {
  }

  /** `t`, shifted left by `d`, holds the same characters as `s` from `lo` to `hi`. */
  predicate Agree(s: string, t: string, lo: nat, hi: nat, d: int) {
    d <= lo <= hi <= |s| && hi - d <= |t| && forall m :: lo <= m < hi ==> t[m - d] == s[m]
  }

  lemma DigitsAtAgree(s: string, t: string, lo: nat, hi: nat, d: int, k: nat, n: nat)
    requires Agree(s, t, lo, hi, d) && lo <= k && k + n <= hi
    ensures DigitsAt(t, k - d, n) == DigitsAt(s, k, n)
  {
    if DigitsAt(s, k, n) {
      forall m | k - d <= m < k - d + n ensures IsDigit(t[m]) {
        assert t[m] == s[m + d];
      }
    }
    if DigitsAt(t, k - d, n) {
      forall m | k <= m < k + n ensures IsDigit(s[m]) {
        assert t[m - d] == s[m];
      }
    }
  }

  lemma {:induction false} SkipWsAgree(s: string, t: string, lo: nat, hi: nat, d: int, k: nat)
    requires Agree(s, t, lo, hi, d) && lo <= k <= hi && SkipWs(s, k) < hi
    ensures SkipWs(t, k - d) == SkipWs(s, k) - d
    decreases |s| - k
  {
    if IsWs(s[k]) {
      SkipWsAgree(s, t, lo, hi, d, k + 1);
    }
  }

  lemma DateAtAgree(s: string, t: string, lo: nat, hi: nat, d: nat, i: nat)
    requires Agree(s, t, lo, hi, d) && lo <= i && i + 10 <= hi
    ensures DateAt(t, i - d) == DateAt(s, i)
  {
    DigitsAtAgree(s, t, lo, hi, d, i, 4);
    DigitsAtAgree(s, t, lo, hi, d, i + 5, 2);
    DigitsAtAgree(s, t, lo, hi, d, i + 8, 2);
  }

  lemma ClockAtAgree(s: string, t: string, lo: nat, hi: nat, d: int, h: nat, ci: bool)
    requires Agree(s, t, lo, hi, d) && lo <= h
    requires ClockAt(s, h, ci).Some? && ClockAt(s, h, ci).value.1 + 2 <= hi
    ensures ClockAt(t, h - d, ci) == Some((ClockAt(s, h, ci).value.0 - d, ClockAt(s, h, ci).value.1 - d))
  {
    var c := ClockAt(s, h, ci).value.0;
    DigitsAtAgree(s, t, lo, hi, d, h, 2);
    DigitsAtAgree(s, t, lo, hi, d, h, 1);
    assert HourEnd(t, h - d) == Some(c - d);
    DigitsAtAgree(s, t, lo, hi, d, c + 1, 2);
    DigitsAtAgree(s, t, lo, hi, d, c + 4, 2);
    SkipWsAgree(s, t, lo, hi, d, c + 6);
  }

  /** What a match at `i` consists of. */
  lemma MatchTimestampParts(s: string, i: nat, ci: bool)
    requires MatchTimestampAt(s, i, ci).Some?
    ensures var m := MatchTimestampAt(s, i, ci).value;
            DateAt(s, i) && i + 10 < m.hourStart && SkipWs(s, i + 10) == m.hourStart
            && ClockAt(s, m.hourStart, ci) == Some((m.hourEnd, m.meridiem))
  {
  }

  lemma MatchTimestampFromParts(s: string, i: nat, ci: bool, m: TsMatch)
    requires DateAt(s, i) && i + 10 < m.hourStart && SkipWs(s, i + 10) == m.hourStart
    requires ClockAt(s, m.hourStart, ci) == Some((m.hourEnd, m.meridiem))
    ensures MatchTimestampAt(s, i, ci) == Some(m)
  {
  }

  /** The parts of a match carry over to agreeing text. */
  lemma PartsAgree(s: string, t: string, lo: nat, hi: nat, d: nat, i: nat, ci: bool, m: TsMatch)
    requires Agree(s, t, lo, hi, d) && lo <= i && m.meridiem + 2 <= hi
    requires DateAt(s, i) && i + 10 < m.hourStart && SkipWs(s, i + 10) == m.hourStart
    requires ClockAt(s, m.hourStart, ci) == Some((m.hourEnd, m.meridiem))
    ensures DateAt(t, i - d) && SkipWs(t, i - d + 10) == m.hourStart - d
    ensures ClockAt(t, m.hourStart - d, ci) == Some((m.hourEnd - d, m.meridiem - d))
  {
    DateAtAgree(s, t, lo, hi, d, i);
    SkipWsAgree(s, t, lo, hi, d, i + 10);
    ClockAtAgree(s, t, lo, hi, d, m.hourStart, ci);
  }

  /** A match is decided by the characters it covers. */
  lemma MatchTimestampAgree(s: string, t: string, lo: nat, hi: nat, d: nat, i: nat, ci: bool)
    requires Agree(s, t, lo, hi, d) && lo <= i
    requires MatchTimestampAt(s, i, ci).Some? && MatchTimestampAt(s, i, ci).value.meridiem + 2 <= hi
    ensures var m := MatchTimestampAt(s, i, ci).value;
            MatchTimestampAt(t, i - d, ci) == Some(TsMatch(m.hourStart - d, m.hourEnd - d, m.meridiem - d))
  {
    var m := MatchTimestampAt(s, i, ci).value;
    MatchTimestampParts(s, i, ci);
    PartsAgree(s, t, lo, hi, d, i, ci, m);
    MatchTimestampFromParts(t, i - d, ci, TsMatch(m.hourStart - d, m.hourEnd - d, m.meridiem - d));
  }

  /** ... and it decodes to the same components. */
  lemma DecodeAgree(s: string, t: string, lo: nat, hi: nat, d: nat, i: nat, m: TsMatch)
    requires Agree(s, t, lo, hi, d) && lo <= i && Spans(s, i, m) && m.meridiem + 2 <= hi
    ensures var n := TsMatch(m.hourStart - d, m.hourEnd - d, m.meridiem - d);
            Spans(t, i - d, n) && Decode(t, i - d, n) == Decode(s, i, m)
  {
    var c := m.hourEnd;
    assert t[m.meridiem - d] == s[m.meridiem];
    DecimalAtSameChars(s, t, i, i + 4, d);
    DecimalAtSameChars(s, t, i + 5, i + 7, d);
    DecimalAtSameChars(s, t, i + 8, i + 10, d);
    DecimalAtSameChars(s, t, m.hourStart, c, d);
    DecimalAtSameChars(s, t, c + 1, c + 3, d);
    DecimalAtSameChars(s, t, c + 4, c + 6, d);
  }

  /** A timestamp matched at `i` (case-sensitively, as the entry start pattern does) is
      decoded by `parseTimestamp` from its own text: the `new Date(ts)` fallback is never
      taken for it. */
  lemma ParseMatchedTimestamp(s: string, i: nat)
    requires MatchTimestampAt(s, i, false).Some?
    ensures var m := MatchTimestampAt(s, i, false).value;
            ParseTimestamp(s[i..m.meridiem + 2]) == Some(Decode(s, i, m))
  {
    var m := MatchTimestampAt(s, i, false).value;
    var e := m.meridiem + 2;
    var t := s[i..e];
    var n := TsMatch(m.hourStart - i, m.hourEnd - i, m.meridiem - i);
    MatchCaseInsensitive(s, i);
    SliceAgrees(s, i, e);
    MatchTimestampAgree(s, t, i, e, i, i, true);
    assert MatchTimestampAt(t, 0, true) == Some(n);
    DecodeAgree(s, t, i, e, i, i, m);
    FoundAtStart(t, n);
  }

  lemma SliceAgrees(s: string, i: nat, e: nat)
    requires i <= e <= |s|
    ensures Agree(s, s[i..e], i, e, i)
  {
  }

  lemma FoundAtStart(t: string, n: TsMatch)
    requires MatchTimestampAt(t, 0, true) == Some(n)
    ensures ParseTimestamp(t) == Some(Decode(t, 0, n))
  {
    assert FindTimestamp(t) == 0;
  }
}
