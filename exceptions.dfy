/** The pseudo-XML exception records inside an error message
    (src/utils/logParser.ts:44-99): `<TypeException><Message>…</Message><StackTrace>…</StackTrace>`.
    Each regular expression is a recogniser that says where it matches at a given index, and
    a search for the leftmost index where it does. */
module Exceptions {
  import opened Wrappers
  import opened Text
  import opened LogTypes

  // ---------------------------------------------------------------- stack traces

  /** A trimmed, non-empty piece of text on one line. */
  predicate IsFrame(t: string) {
    t != [] && !IsWs(t[0]) && !IsWs(t[|t| - 1]) && '\n' !in t
  }

  /** `.map(line => line.trim()).filter(line => line.length > 0)`. */
  function Frames(lines: seq<string>): (r: seq<string>)
    requires forall k :: 0 <= k < |lines| ==> '\n' !in lines[k]
    ensures forall k :: 0 <= k < |r| ==> IsFrame(r[k])
    ensures |r| <= |lines|
    decreases |lines|
  {
    if |lines| == 0 then []
    else
      var t := Trim(lines[0]);
      if t == [] then Frames(lines[1..]) else [t] + Frames(lines[1..])
  }

  /** `parseStackTrace(trace)`: the non-blank lines of `trace`, trimmed. */
  function ParseStackTrace(trace: string): (r: seq<string>)
    ensures trace == [] ==> r == []
    ensures forall k :: 0 <= k < |r| ==> IsFrame(r[k])
  {
    if trace == [] then [] else Frames(SplitLines(trace))
  }

  /** Frames are kept as they are. */
  lemma {:induction false} FramesOfFrames(frames: seq<string>)
    requires forall k :: 0 <= k < |frames| ==> IsFrame(frames[k])
    requires forall k :: 0 <= k < |frames| ==> '\n' !in frames[k]
    ensures Frames(frames) == frames
    decreases |frames|
  {
    if |frames| > 0 {
      TrimOfTrimmed(frames[0]);
      FramesOfFrames(frames[1..]);
    }
  }

  /** Splitting frames written one per line gives the frames back. */
  lemma ParseStackTraceOfJoined(frames: seq<string>)
    requires forall k :: 0 <= k < |frames| ==> IsFrame(frames[k])
    ensures ParseStackTrace(JoinLines(frames)) == frames
  {
    if |frames| > 0 {
      assert JoinLines(frames) != [] by {
        if |frames| > 1 {
          assert JoinLines(frames) == frames[0] + "\n" + JoinLines(frames[1..]);
        }
      }
      forall k | 0 <= k < |frames| - 1 ensures DropCR(frames[k]) == frames[k] {
        assert IsFrame(frames[k]);
      }
      SplitJoinLinesExact(frames);
      FramesOfFrames(frames);
    }
  }

  // ---------------------------------------------------------------- type tags

  /** `[\w.]`. */
  predicate IsTypeChar(c: char) { IsWordChar(c) || c == '.' }

  /** The end of the run of `[\w.]` characters that starts at `i`. */
  function TypeRunEnd(s: string, i: nat): (k: nat)
    requires i <= |s|
    ensures i <= k <= |s|
    ensures forall m :: i <= m < k ==> IsTypeChar(s[m])
    ensures k < |s| ==> !IsTypeChar(s[k])
    decreases |s| - i
  {
    if i < |s| && IsTypeChar(s[i]) then TypeRunEnd(s, i + 1) else i
  }

  predicate EndsWith(t: string, suffix: string) {
    |suffix| <= |t| && t[|t| - |suffix|..] == suffix
  }

  /** `[\w.]+(?:Exception|Error)` matching a whole type name. */
  predicate IsExceptionType(t: string) {
    (forall k :: 0 <= k < |t| ==> IsTypeChar(t[k]))
    && ((|t| > 9 && EndsWith(t, "Exception")) || (|t| > 5 && EndsWith(t, "Error")))
  }

  /** `<([\w.]+(?:Exception|Error))>` at `p`: the index of the closing `>`. The type runs up
      to the first character that is not `[\w.]`, since `>` is not one. */
  function TypeTagAt(s: string, p: nat): (r: Option<nat>)
    ensures r.Some? ==> p < r.value < |s| && s[p] == '<' && s[r.value] == '>'
    ensures r.Some? ==> IsExceptionType(s[p + 1..r.value])
  {
    if p < |s| && s[p] == '<' then
      var m := TypeRunEnd(s, p + 1);
      if m < |s| && s[m] == '>' && IsExceptionType(s[p + 1..m]) then Some(m) else None
    else None
  }

  /** A tag is recognised wherever one stands: a `<`, a type name and a `>`. */
  lemma TypeTagComplete(s: string, p: nat, m: nat)
    requires p < m < |s| && s[p] == '<' && s[m] == '>' && IsExceptionType(s[p + 1..m])
    ensures TypeTagAt(s, p) == Some(m)
  {
    var k := TypeRunEnd(s, p + 1);
    forall j | p + 1 <= j < m ensures IsTypeChar(s[j]) {
      assert s[j] == s[p + 1..m][j - p - 1];
    }
    assert !IsTypeChar(s[m]);
  }

  const MessageOpen := "<Message>"
  const MessageClose := "</Message>"
  const MessageThenStack := "</Message><StackTrace>"
  const StackClose := "</StackTrace>"

  /** The `<Message>` after a tag is not a tag itself. */
  lemma MessageIsNoTag(s: string, j: nat)
    requires MatchesAt(s, MessageOpen, j, false)
    ensures TypeTagAt(s, j).None?
    ensures forall k :: j < k < j + 9 ==> s[k] != '<'
  {
    MatchesAtSlice(s, MessageOpen, j);
    var w := s[j..j + 9];
    assert w == MessageOpen;
    forall k | j < k < j + 9 ensures s[k] != '<' {
      assert s[k] == w[k - j];
    }
    assert s[j + 8] == '>';
    forall k | j + 1 <= k < j + 8 ensures IsTypeChar(s[k]) {
      assert s[k] == w[k - j];
    }
    var m := TypeRunEnd(s, j + 1);
    assert m == j + 8;
    assert s[j + 1..m] == w[1..8];
  }

  /** No tag starts inside a tag or the `<Message>` after it. */
  lemma NoTagInside(s: string, p: nat, m: nat, k: nat)
    requires TypeTagAt(s, p) == Some(m) && MatchesAt(s, MessageOpen, m + 1, false)
    requires p < k < m + 10
    ensures TypeTagAt(s, k).None?
  {
    if k < m {
      assert s[k] == s[p + 1..m][k - p - 1];
      assert IsTypeChar(s[k]);
    } else if k == m + 1 {
      MessageIsNoTag(s, m + 1);
    } else if k > m + 1 {
      MessageIsNoTag(s, m + 1);
    }
  }

  // ---------------------------------------------------------------- literal helpers

  lemma MatchesIgnoringCase(s: string, pat: string, k: nat)
    requires MatchesAt(s, pat, k, false)
    ensures MatchesAt(s, pat, k, true)
  {
    MatchesAtChars(s, pat, k, false);
    MatchesAtChars(s, pat, k, true);
  }

  lemma CloseBeforeStack(s: string, r: nat)
    requires MatchesAt(s, MessageThenStack, r, false)
    ensures MatchesAt(s, MessageClose, r, false)
  {
    MatchesAtChars(s, MessageThenStack, r, false);
    MatchesAtChars(s, MessageClose, r, false);
    forall m | 0 <= m < |MessageClose| ensures CharEq(s[r + m], MessageClose[m], false) {
      assert MessageClose[m] == MessageThenStack[m];
    }
  }

  /** A literal occurring at `k` is found by a search from any `from <= k`, at or before `k`. */
  lemma FoundBy(s: string, pat: string, from: nat, k: nat, ci: bool)
    requires from <= k && MatchesAt(s, pat, k, ci)
    ensures 0 <= FindFrom(s, pat, from, ci) <= k
  {
  }

  // ---------------------------------------------------------------- extractPrimaryException

  /** Where `<(type)><Message>([\s\S]*?)</Message>` matches at `at`: the `>` closing the
      tag and the lazy message's `</Message>`. */
  datatype PrimaryMatch = PrimaryMatch(at: nat, typeEnd: nat, close: nat)

  function PrimaryAt(s: string, p: nat): (r: Option<PrimaryMatch>)
    ensures r.Some? ==> r.value.at == p && TypeTagAt(s, p) == Some(r.value.typeEnd)
    ensures r.Some? ==> MatchesAt(s, MessageOpen, r.value.typeEnd + 1, false)
    ensures r.Some? ==> r.value.typeEnd + 10 <= r.value.close == FindFrom(s, MessageClose, r.value.typeEnd + 10, false)
  {
    match TypeTagAt(s, p)
    case None => None
    case Some(m) =>
      if MatchesAt(s, MessageOpen, m + 1, false) then
        var c := FindFrom(s, MessageClose, m + 10, false);
        if c >= 0 then Some(PrimaryMatch(p, m, c)) else None
      else None
  }

  /** The leftmost match of the primary pattern. */
  function FindPrimary(s: string): (r: Option<PrimaryMatch>)
    ensures r.Some? ==> PrimaryAt(s, r.value.at) == r
    ensures forall k: nat :: (r.None? || k < r.value.at) ==> PrimaryAt(s, k).None?
  {
    var f := (k: nat) => PrimaryAt(s, k).Some?;
    var p := FindFirst(f, 0, |s|);
    assert forall k: nat :: (p == -1 || k < p) ==> PrimaryAt(s, k).None? by {
      forall k: nat | p == -1 || k < p ensures PrimaryAt(s, k).None? {
        if k < |s| { assert !f(k); }
      }
    }
    if p < 0 then None else PrimaryAt(s, p)
  }

  /** Where the case-insensitive `<type><Message>[\s\S]*?</Message><StackTrace>([\s\S]*?)</StackTrace>`
      matches at `q`: the start of `</Message><StackTrace>` and of `</StackTrace>`. The type
      holds only `[\w.]`, so escaping it changes nothing but the dots, which then stand for
      themselves. */
  function StackAt(s: string, typ: string, q: nat): (r: Option<(nat, nat)>)
    ensures r.Some? ==> q + |typ| + 11 <= r.value.0 && r.value.0 + 22 <= r.value.1 && r.value.1 + 13 <= |s|
  {
    var pre := "<" + typ + "><Message>";
    if MatchesAt(s, pre, q, true) then
      var r := FindFrom(s, MessageThenStack, q + |pre|, true);
      if r < 0 then None
      else
        var e := FindFrom(s, StackClose, r + 22, true);
        if e < 0 then None else Some((r, e))
    else None
  }

  /** The leftmost match of the stack pattern for `typ`. */
  function FindStack(s: string, typ: string): (r: int)
    ensures r == -1 || (0 <= r && StackAt(s, typ, r).Some?)
    ensures forall k: nat :: (r == -1 || k < r) ==> StackAt(s, typ, k).None?
  {
    var f := (k: nat) => StackAt(s, typ, k).Some?;
    var q := FindFirst(f, 0, |s|);
    assert forall k: nat :: (q == -1 || k < q) ==> StackAt(s, typ, k).None? by {
      forall k: nat | q == -1 || k < q ensures StackAt(s, typ, k).None? {
        if k < |s| { assert !f(k); }
      }
    }
    q
  }

  /** The frames captured by the stack pattern's match at `q`. */
  function StackFrames(s: string, typ: string, q: nat): seq<string>
    requires StackAt(s, typ, q).Some?
  {
    ParseStackTrace(s[StackAt(s, typ, q).value.0 + 22..StackAt(s, typ, q).value.1])
  }

  /** The frames of the first stack trace recorded for `typ`, or none. */
  function StackForType(s: string, typ: string): seq<string> {
    if FindStack(s, typ) < 0 then [] else StackFrames(s, typ, FindStack(s, typ))
  }

  /** The type the primary pattern captures. */
  function PrimaryType(s: string): (r: string)
    requires FindPrimary(s).Some?
    ensures IsExceptionType(r)
  {
    s[FindPrimary(s).value.at + 1..FindPrimary(s).value.typeEnd]
  }

  /** The message the primary pattern captures, trimmed. */
  function PrimaryMessage(s: string): (r: string)
    requires FindPrimary(s).Some?
    ensures r == Trim(r)
  {
    TrimOfTrimmed(Trim(s[FindPrimary(s).value.typeEnd + 10..FindPrimary(s).value.close]));
    Trim(s[FindPrimary(s).value.typeEnd + 10..FindPrimary(s).value.close])
  }

  /** What `extractPrimaryException` returns. */
  datatype Primary = Primary(typ: string, message: string, stackTrace: seq<string>)

  /** `extractPrimaryException(content)`: `None` is `null`. */
  function ExtractPrimaryException(content: string): (r: Option<Primary>)
    ensures r.None? <==> forall k: nat :: PrimaryAt(content, k).None?
    ensures r.Some? ==> IsExceptionType(r.value.typ)
    ensures r.Some? ==> r.value.message == Trim(r.value.message)
    ensures r.Some? ==> forall k :: 0 <= k < |r.value.stackTrace| ==> IsFrame(r.value.stackTrace[k])
  {
    if FindPrimary(content).None? then None
    else
      Some(Primary(PrimaryType(content), PrimaryMessage(content),
                   StackForType(content, PrimaryType(content))))
  }

  // ---------------------------------------------------------------- parseNestedExceptions

  /** Where `<(type)><Message>([\s\S]*?)</Message><StackTrace>([\s\S]*?)</StackTrace>`
      matches at `at`: the `>` closing the tag, the start of `</Message><StackTrace>` and
      the start of `</StackTrace>`; the match ends 13 characters after `stackEnd`. */
  datatype NestedMatch = NestedMatch(at: nat, typeEnd: nat, stackStart: nat, stackEnd: nat)

  function NestedAt(s: string, p: nat): (r: Option<NestedMatch>)
    ensures r.Some? ==> r.value.at == p && TypeTagAt(s, p) == Some(r.value.typeEnd)
    ensures r.Some? ==> MatchesAt(s, MessageOpen, r.value.typeEnd + 1, false)
    ensures r.Some? ==> r.value.typeEnd + 10 <= r.value.stackStart && r.value.stackStart + 22 <= r.value.stackEnd
    ensures r.Some? ==> r.value.stackStart == FindFrom(s, MessageThenStack, r.value.typeEnd + 10, false)
    ensures r.Some? ==> r.value.stackEnd == FindFrom(s, StackClose, r.value.stackStart + 22, false)
    ensures r.Some? ==> r.value.stackEnd + 13 <= |s|
  {
    match TypeTagAt(s, p)
    case None => None
    case Some(m) =>
      if MatchesAt(s, MessageOpen, m + 1, false) then
        var r := FindFrom(s, MessageThenStack, m + 10, false);
        if r < 0 then None
        else
          var e := FindFrom(s, StackClose, r + 22, false);
          if e < 0 then None else Some(NestedMatch(p, m, r, e))
      else None
  }

  /** What `pattern.exec` finds when `lastIndex` is `from`. */
  function FindNested(s: string, from: nat): (r: Option<NestedMatch>)
    ensures r.Some? ==> from <= r.value.at && NestedAt(s, r.value.at) == r
    ensures forall k: nat :: from <= k && (r.None? || k < r.value.at) ==> NestedAt(s, k).None?
  {
    var f := (k: nat) => NestedAt(s, k).Some?;
    var p := FindFirst(f, from, |s|);
    assert forall k: nat :: from <= k && (p == -1 || k < p) ==> NestedAt(s, k).None? by {
      forall k: nat | from <= k && (p == -1 || k < p) ensures NestedAt(s, k).None? {
        if k < |s| { assert !f(k); }
      }
    }
    if p < 0 then None else NestedAt(s, p)
  }

  /** The record a match contributes. */
  function InfoOf(s: string, n: NestedMatch): (r: ExceptionInfo)
    requires NestedAt(s, n.at) == Some(n)
    ensures IsExceptionType(r.typ)
    ensures r.message == Trim(r.message)
    ensures forall k :: 0 <= k < |r.stackTrace| ==> IsFrame(r.stackTrace[k])
  {
    var message := Trim(s[n.typeEnd + 10..n.stackStart]);
    TrimOfTrimmed(message);
    ExceptionInfo(s[n.at + 1..n.typeEnd], message, ParseStackTrace(s[n.stackStart + 22..n.stackEnd]))
  }

  /** A record names an exception type and carries a trimmed message. */
  predicate WellFormedInfo(e: ExceptionInfo) {
    IsExceptionType(e.typ) && e.message == Trim(e.message)
  }

  /** The record of the match `pattern.exec` finds when `lastIndex` is `from`. */
  function FirstInfo(s: string, from: nat): (r: ExceptionInfo)
    requires FindNested(s, from).Some?
    ensures WellFormedInfo(r)
  {
    InfoOf(s, FindNested(s, from).value)
  }

  /** The `lastIndex` after that match: where it ends. */
  function NextFrom(s: string, from: nat): (r: nat)
    requires FindNested(s, from).Some?
    ensures from < r <= |s|
  {
    FindNested(s, from).value.stackEnd + 13
  }

  /** The records of the matches found from `from` on, each search resuming where the
      previous match ended. */
  function NestedFrom(s: string, from: nat): (r: seq<ExceptionInfo>)
    ensures r == [] <==> FindNested(s, from).None?
    decreases |s| - from
  {
    if FindNested(s, from).None? then [] else [FirstInfo(s, from)] + NestedFrom(s, NextFrom(s, from))
  }

  predicate AllWellFormed(r: seq<ExceptionInfo>) {
    forall k :: 0 <= k < |r| ==> WellFormedInfo(r[k])
  }

  lemma AllWellFormedCons(x: ExceptionInfo, rest: seq<ExceptionInfo>)
    requires WellFormedInfo(x) && AllWellFormed(rest)
    ensures AllWellFormed([x] + rest)
  {
  }

  /** Every record `parseNestedExceptions` returns is well formed. */
  lemma {:induction false} NestedFromWellFormed(s: string, from: nat)
    ensures AllWellFormed(NestedFrom(s, from))
    decreases |s| - from
  {
    if FindNested(s, from).Some? {
      NestedFromWellFormed(s, NextFrom(s, from));
      AllWellFormedCons(FirstInfo(s, from), NestedFrom(s, NextFrom(s, from)));
    }
  }

  /** Moving the first element of the part still to do onto the part done. */
  lemma AppendStep<T>(done: seq<T>, todo: seq<T>, x: T, rest: seq<T>, whole: seq<T>)
    requires done + todo == whole && todo == [x] + rest
    ensures (done + [x]) + rest == whole
  {
  }

  lemma AppendEmpty<T>(a: seq<T>)
    ensures [] + a == a && a + [] == a
  {
  }

  /** `parseNestedExceptions(content)`. */
  method ParseNestedExceptions(content: string) returns (exceptions: seq<ExceptionInfo>)
    ensures exceptions == NestedFrom(content, 0)
  {
    exceptions := [];
    var lastIndex: nat := 0;
    AppendEmpty(NestedFrom(content, 0));
    while FindNested(content, lastIndex).Some?
      invariant lastIndex <= |content|
      invariant exceptions + NestedFrom(content, lastIndex) == NestedFrom(content, 0)
      decreases |content| - lastIndex
    {
      AppendStep(exceptions, NestedFrom(content, lastIndex), FirstInfo(content, lastIndex),
                 NestedFrom(content, NextFrom(content, lastIndex)), NestedFrom(content, 0));
      exceptions := exceptions + [FirstInfo(content, lastIndex)];
      lastIndex := NextFrom(content, lastIndex);
    }
    AppendEmpty(exceptions);
  }

  // ---------------------------------------------------------------- the two agree

  /** A nested match is also a primary match at the same place. */
  lemma NestedIsPrimary(s: string, p: nat)
    requires NestedAt(s, p).Some?
    ensures PrimaryAt(s, p).Some?
  {
    CloseBeforeStack(s, NestedAt(s, p).value.stackStart);
    FoundBy(s, MessageClose, NestedAt(s, p).value.typeEnd + 10, NestedAt(s, p).value.stackStart, false);
  }

  /** A primary match followed by a nested match further on is itself a nested match: the
      later tag lies past the first one's `<Message>`, so the closing tags that serve it
      serve the first as well. */
  lemma NestedAtEarlierPrimary(s: string, p0: nat, p1: nat)
    requires PrimaryAt(s, p0).Some? && NestedAt(s, p1).Some? && p0 < p1
    ensures NestedAt(s, p0).Some?
  {
    if p1 < PrimaryAt(s, p0).value.typeEnd + 10 {
      NoTagInside(s, p0, PrimaryAt(s, p0).value.typeEnd, p1);
      assert false;
    }
    FoundBy(s, MessageThenStack, PrimaryAt(s, p0).value.typeEnd + 10, NestedAt(s, p1).value.stackStart, false);
    FoundBy(s, StackClose, FindFrom(s, MessageThenStack, PrimaryAt(s, p0).value.typeEnd + 10, false) + 22,
            NestedAt(s, p1).value.stackEnd, false);
  }

  /** Where the first nested match is, the primary pattern matched first as well: both find
      the same leftmost tag. */
  lemma FirstNestedIsPrimary(s: string)
    requires FindNested(s, 0).Some?
    ensures FindPrimary(s).Some?
    ensures FindPrimary(s).value.at == FindNested(s, 0).value.at
    ensures FindPrimary(s).value.typeEnd == FindNested(s, 0).value.typeEnd
  {
    NestedIsPrimary(s, FindNested(s, 0).value.at);
    if FindPrimary(s).value.at < FindNested(s, 0).value.at {
      NestedAtEarlierPrimary(s, FindPrimary(s).value.at, FindNested(s, 0).value.at);
      assert false;
    }
  }

  /** When the message holds nested records, the first one is the primary exception. */
  lemma NestedStartsWithPrimary(s: string)
    requires NestedFrom(s, 0) != []
    ensures ExtractPrimaryException(s).Some?
    ensures NestedFrom(s, 0)[0].typ == ExtractPrimaryException(s).value.typ
  {
    FirstNestedIsPrimary(s);
  }

  /** The tag, its type and `<Message>` read as one literal. */
  lemma OpeningLiteral(s: string, p: nat, m: nat)
    requires TypeTagAt(s, p) == Some(m) && MatchesAt(s, MessageOpen, m + 1, false)
    ensures MatchesAt(s, "<" + s[p + 1..m] + "><Message>", p, true)
  {
    var typ := s[p + 1..m];
    var pre := "<" + typ + "><Message>";
    MatchesAtSlice(s, MessageOpen, m + 1);
    assert s[p..m + 10] == [s[p]] + typ + [s[m]] + s[m + 1..m + 10];
    assert s[p..p + |pre|] == pre;
    MatchesAtSlice(s, pre, p);
    MatchesIgnoringCase(s, pre, p);
  }

  /** At a nested match the case-insensitive stack pattern for its own type matches too. */
  lemma StackAtNested(s: string, p: nat)
    requires NestedAt(s, p).Some?
    ensures StackAt(s, s[p + 1..NestedAt(s, p).value.typeEnd], p).Some?
  {
    OpeningLiteral(s, p, NestedAt(s, p).value.typeEnd);
    MatchesIgnoringCase(s, MessageThenStack, NestedAt(s, p).value.stackStart);
    FoundBy(s, MessageThenStack, NestedAt(s, p).value.typeEnd + 10, NestedAt(s, p).value.stackStart, true);
    MatchesIgnoringCase(s, StackClose, NestedAt(s, p).value.stackEnd);
    FoundBy(s, StackClose, FindFrom(s, MessageThenStack, NestedAt(s, p).value.typeEnd + 10, true) + 22,
            NestedAt(s, p).value.stackEnd, true);
  }

  lemma PrimaryStackFound(s: string)
    requires FindNested(s, 0).Some?
    ensures FindPrimary(s).Some? && FindStack(s, PrimaryType(s)) >= 0
  {
    FirstNestedIsPrimary(s);
    StackAtNested(s, FindNested(s, 0).value.at);
    assert PrimaryType(s) == s[FindNested(s, 0).value.at + 1..NestedAt(s, FindNested(s, 0).value.at).value.typeEnd];
    assert StackAt(s, PrimaryType(s), FindNested(s, 0).value.at).Some?;
  }

  /** When the message holds nested records, the primary exception's stack trace comes
      from a match of the stack pattern. */
  lemma NestedHasPrimaryStack(s: string)
    requires NestedFrom(s, 0) != []
    ensures ExtractPrimaryException(s).Some?
    ensures FindStack(s, ExtractPrimaryException(s).value.typ) >= 0
  {
    PrimaryStackFound(s);
  }
}
