/** The JavaScript string built-ins that the log parser and the store rely on, restricted
    to ASCII: whitespace is the ASCII part of `\s` (which is also what `trim` removes),
    `\d` and `\w` are the ASCII classes they are in JavaScript, and case folding touches
    only A-Z. Definitions scan by index, so that they also evaluate on literal strings. */
module Text {

  // ---------------------------------------------------------------- characters

  /** The ASCII members of `\s`; `String.prototype.trim` removes the same characters. */
  predicate IsWs(c: char) {
    c == ' ' || c == '\t' || c == '\n' || c == '\r' || c == '\U{000B}' || c == '\U{000C}'
  }

  predicate IsDigit(c: char) { '0' <= c <= '9' }

  /** `\w`: ASCII letters, digits and the underscore. */
  predicate IsWordChar(c: char) { IsDigit(c) || 'a' <= c <= 'z' || 'A' <= c <= 'Z' || c == '_' }

  function ToLower(c: char): char {
    if 'A' <= c <= 'Z' then (c as int + 32) as char else c
  }

  /** How a regular expression compares one character of the text with one of the pattern;
      `ci` is the `i` flag. Every pattern character used here is ASCII, and JavaScript never
      folds a non-ASCII character onto an ASCII one, so ASCII folding is exact. */
  predicate CharEq(a: char, b: char, ci: bool) {
    a == b || (ci && ToLower(a) == ToLower(b))
  }

  predicate AllWs(s: string) {
    forall k :: 0 <= k < |s| ==> IsWs(s[k])
  }

  /** `s.toLowerCase()` on ASCII. */
  function LowerString(s: string): string {
    seq(|s|, k requires 0 <= k < |s| => ToLower(s[k]))
  }

  // ---------------------------------------------------------------- whitespace

  /** The end of the whitespace run that starts at `i`: a greedy `\s*`. */
  function SkipWs(s: string, i: nat): (k: nat)
    requires i <= |s|
    ensures i <= k <= |s|
    ensures forall m :: i <= m < k ==> IsWs(s[m])
    ensures k < |s| ==> !IsWs(s[k])
    decreases |s| - i
  {
    if i < |s| && IsWs(s[i]) then SkipWs(s, i + 1) else i
  }

  /** The start of the whitespace run that ends at `j`. */
  function SkipWsBack(s: string, j: nat): (k: nat)
    requires j <= |s|
    ensures k <= j
    ensures forall m :: k <= m < j ==> IsWs(s[m])
    ensures k > 0 ==> !IsWs(s[k - 1])
    decreases j
  {
    if j > 0 && IsWs(s[j - 1]) then SkipWsBack(s, j - 1) else j
  }

  /** `s.trim()`. */
  function Trim(s: string): (r: string)
    ensures r == [] || (!IsWs(r[0]) && !IsWs(r[|r| - 1]))
    ensures r == [] <==> AllWs(s)
    ensures |r| <= |s|
    ensures forall k :: 0 <= k < |r| ==> r[k] in s
  {
    var lo := SkipWs(s, 0);
    var hi := SkipWsBack(s, |s|);
    if lo < hi then s[lo..hi] else []
  }

  /** What `trim` keeps is the text between the leading and the trailing whitespace. */
  lemma TrimIsSlice(s: string)
    ensures AllWs(s) || Trim(s) == s[SkipWs(s, 0)..SkipWsBack(s, |s|)]
  {
  }

  lemma TrimOfTrimmed(s: string)
    requires s == [] || (!IsWs(s[0]) && !IsWs(s[|s| - 1]))
    ensures Trim(s) == s
  {
  }

  // ---------------------------------------------------------------- literal search

  predicate MatchesFrom(s: string, pat: string, k: nat, j: nat, ci: bool)
    decreases |pat| - j
  {
    j >= |pat| || (k + j < |s| && CharEq(s[k + j], pat[j], ci) && MatchesFrom(s, pat, k, j + 1, ci))
  }

  /** The literal `pat` occurs in `s` at index `k` (ignoring ASCII case when `ci` holds). */
  predicate MatchesAt(s: string, pat: string, k: nat, ci: bool) {
    k + |pat| <= |s| && MatchesFrom(s, pat, k, 0, ci)
  }

  lemma {:induction false} MatchesFromChars(s: string, pat: string, k: nat, j: nat, ci: bool)
    requires j <= |pat| && k + |pat| <= |s|
    ensures MatchesFrom(s, pat, k, j, ci) <==> forall m :: j <= m < |pat| ==> CharEq(s[k + m], pat[m], ci)
    decreases |pat| - j
  {
    if j < |pat| {
      MatchesFromChars(s, pat, k, j + 1, ci);
    }
  }

  lemma MatchesAtChars(s: string, pat: string, k: nat, ci: bool)
    ensures MatchesAt(s, pat, k, ci) <==>
            k + |pat| <= |s| && forall m :: 0 <= m < |pat| ==> CharEq(s[k + m], pat[m], ci)
  {
    if k + |pat| <= |s| {
      MatchesFromChars(s, pat, k, 0, ci);
    }
  }

  /** Without the `i` flag an occurrence is an equal slice. */
  lemma MatchesAtSlice(s: string, pat: string, k: nat)
    ensures MatchesAt(s, pat, k, false) <==> k + |pat| <= |s| && s[k..k + |pat|] == pat
  {
    MatchesAtChars(s, pat, k, false);
    if k + |pat| <= |s| && s[k..k + |pat|] == pat {
      forall m | 0 <= m < |pat| ensures CharEq(s[k + m], pat[m], false) {
        assert s[k..k + |pat|][m] == s[k + m];
      }
    }
  }

  /** An occurrence is decided by the characters it covers. */
  lemma MatchesAtSameChars(s: string, t: string, pat: string, k: nat, d: nat, ci: bool)
    requires k + |pat| <= |s| && d <= k && k - d + |pat| <= |t|
    requires forall m :: k <= m < k + |pat| ==> t[m - d] == s[m]
    ensures MatchesAt(s, pat, k, ci) <==> MatchesAt(t, pat, k - d, ci)
  {
    MatchesAtChars(s, pat, k, ci);
    MatchesAtChars(t, pat, k - d, ci);
    if MatchesAt(s, pat, k, ci) {
      forall m | 0 <= m < |pat| ensures CharEq(t[k - d + m], pat[m], ci) {
        assert t[k - d + m] == s[k + m];
      }
    }
    if MatchesAt(t, pat, k - d, ci) {
      forall m | 0 <= m < |pat| ensures CharEq(s[k + m], pat[m], ci) {
        assert t[k - d + m] == s[k + m];
      }
    }
  }

  /** `s.indexOf(pat, from)`, and where a regular expression consisting of the literal `pat`
      matches when it searches from `from`: the first occurrence at or after `from`, or -1. */
  function FindFrom(s: string, pat: string, from: nat, ci: bool): (r: int)
    ensures r == -1 || (from <= r && MatchesAt(s, pat, r, ci))
    ensures forall k: nat :: from <= k && (r == -1 || k < r) ==> !MatchesAt(s, pat, k, ci)
    decreases |s| - from
  {
    if from + |pat| > |s| then -1
    else if MatchesAt(s, pat, from, ci) then from
    else FindFrom(s, pat, from + 1, ci)
  }

  /** The leftmost `k` in `from..end` with `f(k)`, or -1: where a regular expression
      matches when it searches forward from `from`, given `f(k)` for "it matches at `k`". */
  function FindFirst(f: nat -> bool, from: nat, end: nat): (r: int)
    ensures r == -1 || (from <= r < end && f(r))
    ensures forall k: nat :: from <= k < end && (r == -1 || k < r) ==> !f(k)
    decreases end - from
  {
    if from >= end then -1
    else if f(from) then from
    else FindFirst(f, from + 1, end)
  }

  /** `s.includes(sub)`. */
  function Contains(s: string, sub: string): (b: bool)
    ensures b <==> exists k: nat :: MatchesAt(s, sub, k, false)
  {
    FindFrom(s, sub, 0, false) >= 0
  }

  /** The last occurrence at or before `k`, or -1. */
  function LastFrom(s: string, pat: string, k: int): (r: int)
    ensures r == -1 || (0 <= r <= k && MatchesAt(s, pat, r, false))
    ensures forall m: nat :: r < m <= k ==> !MatchesAt(s, pat, m, false)
    decreases k + 1
  {
    if k < 0 then -1
    else if MatchesAt(s, pat, k, false) then k
    else LastFrom(s, pat, k - 1)
  }

  /** `s.lastIndexOf(pat)`. */
  function LastIndexOf(s: string, pat: string): (r: int)
    ensures r == -1 || (r >= 0 && MatchesAt(s, pat, r, false))
    ensures forall m: nat :: r < m ==> !MatchesAt(s, pat, m, false)
  {
    LastFrom(s, pat, |s| - |pat|)
  }

  /** `s.replace(pat, '')` with a string pattern: only the first occurrence goes. */
  function RemoveFirst(s: string, pat: string): (r: string)
    ensures !Contains(s, pat) ==> r == s
    ensures Contains(s, pat) ==> |r| + |pat| == |s|
    ensures Contains(s, pat) ==>
              exists k: nat :: MatchesAt(s, pat, k, false)
                               && (forall m: nat :: m < k ==> !MatchesAt(s, pat, m, false))
                               && r == s[..k] + s[k + |pat|..]
  {
    var k := FindFrom(s, pat, 0, false);
    if k < 0 then s else s[..k] + s[k + |pat|..]
  }

  // ---------------------------------------------------------------- splitting and joining

  /** Drops one trailing carriage return. */
  function DropCR(t: string): string {
    if |t| > 0 && t[|t| - 1] == '\r' then t[..|t| - 1] else t
  }

  /** `s.indexOf(c)` for a character that occurs in `s`. */
  function IndexOfChar(s: string, c: char): (k: nat)
    requires c in s
    ensures k < |s| && s[k] == c && c !in s[..k]
  {
    if s[0] == c then 0
    else
      var k := 1 + IndexOfChar(s[1..], c);
      assert s[..k] == [s[0]] + s[1..][..k - 1];
      k
  }

  /** The first occurrence of `c` is the one with no `c` before it. */
  lemma {:induction false} IndexOfCharAt(s: string, c: char, j: nat)
    requires j < |s| && s[j] == c && c !in s[..j]
    ensures IndexOfChar(s, c) == j
    decreases j
  {
    if j > 0 {
      assert s[0] == s[..j][0];
      assert s[1..][..j - 1] == s[..j][1..];
      IndexOfCharAt(s[1..], c, j - 1);
    }
  }

  /** `s.split(/\r?\n/)`: the pieces between line breaks, where a break is "\n" or "\r\n". */
  function SplitLines(s: string): (r: seq<string>)
    ensures |r| >= 1
    ensures forall k :: 0 <= k < |r| ==> '\n' !in r[k]
    decreases |s|
  {
    if '\n' !in s then [s]
    else
      var k := IndexOfChar(s, '\n');
      assert '\n' !in DropCR(s[..k]) by {
        if |s[..k]| > 0 { assert DropCR(s[..k]) <= s[..k]; }
      }
      [DropCR(s[..k])] + SplitLines(s[k + 1..])
  }

  /** `lines.join('\n')`. */
  function JoinLines(lines: seq<string>): string
    decreases |lines|
  {
    if |lines| == 0 then ""
    else if |lines| == 1 then lines[0]
    else lines[0] + "\n" + JoinLines(lines[1..])
  }

  /** Splitting a line, a break and the rest takes the line off first. */
  lemma SplitLinesCons(a: string, t: string)
    requires '\n' !in a
    ensures SplitLines(a + "\n" + t) == [DropCR(a)] + SplitLines(t)
  {
    var s := a + "\n" + t;
    assert s[..|a|] == a;
    IndexOfCharAt(s, '\n', |a|);
    assert s[|a| + 1..] == t;
  }

  /** Splitting joined lines gives them back, except that a carriage return ending any line
      but the last is read as part of the line break. */
  lemma {:induction false} SplitJoinLines(lines: seq<string>)
    requires |lines| >= 1
    requires forall k :: 0 <= k < |lines| ==> '\n' !in lines[k]
    ensures |SplitLines(JoinLines(lines))| == |lines|
    ensures forall k :: 0 <= k < |lines| - 1 ==> SplitLines(JoinLines(lines))[k] == DropCR(lines[k])
    ensures SplitLines(JoinLines(lines))[|lines| - 1] == lines[|lines| - 1]
    decreases |lines|
  {
    if |lines| == 1 {
      assert JoinLines(lines) == lines[0];
    } else {
      var rest := lines[1..];
      assert JoinLines(lines) == lines[0] + "\n" + JoinLines(rest);
      SplitLinesCons(lines[0], JoinLines(rest));
      SplitJoinLines(rest);
      ConsView(lines, rest, SplitLines(JoinLines(lines)), SplitLines(JoinLines(rest)));
    }
  }

  /** The inductive step of `SplitJoinLines`: the first line goes in front of the rest. */
  lemma ConsView(lines: seq<string>, rest: seq<string>, r: seq<string>, rr: seq<string>)
    requires |lines| >= 2 && rest == lines[1..]
    requires r == [DropCR(lines[0])] + rr
    requires |rr| == |rest|
    requires forall k :: 0 <= k < |rest| - 1 ==> rr[k] == DropCR(rest[k])
    requires rr[|rest| - 1] == rest[|rest| - 1]
    ensures |r| == |lines|
    ensures forall k :: 0 <= k < |lines| - 1 ==> r[k] == DropCR(lines[k])
    ensures r[|lines| - 1] == lines[|lines| - 1]
  {
    forall k | 1 <= k < |lines| - 1 ensures r[k] == DropCR(lines[k]) {
      assert r[k] == rr[k - 1];
      assert rest[k - 1] == lines[k];
    }
  }

  /** Lines that hold no line break and do not end in a carriage return (except perhaps the
      last) are exactly what splitting their join gives back. */
  lemma SplitJoinLinesExact(lines: seq<string>)
    requires |lines| >= 1
    requires forall k :: 0 <= k < |lines| ==> '\n' !in lines[k]
    requires forall k :: 0 <= k < |lines| - 1 ==> DropCR(lines[k]) == lines[k]
    ensures SplitLines(JoinLines(lines)) == lines
  {
    SplitJoinLines(lines);
    ViewIsLines(lines, SplitLines(JoinLines(lines)));
  }

  lemma ViewIsLines(lines: seq<string>, r: seq<string>)
    requires |lines| >= 1 && |r| == |lines|
    requires forall k :: 0 <= k < |lines| - 1 ==> r[k] == DropCR(lines[k])
    requires r[|lines| - 1] == lines[|lines| - 1]
    requires forall k :: 0 <= k < |lines| - 1 ==> DropCR(lines[k]) == lines[k]
    ensures r == lines
  {
    forall k | 0 <= k < |lines| ensures r[k] == lines[k] {
      if k < |lines| - 1 {
        assert r[k] == DropCR(lines[k]);
      }
    }
  }

  /** The last piece of `s.split(c)`: the text after the last `c`, taken by dropping
      everything up to the first `c` for as long as there is one. */
  function LastPiece(s: string, c: char): string
    decreases |s|
  {
    if c !in s then s else LastPiece(s[IndexOfChar(s, c) + 1..], c)
  }

  /** `t` is the text after the last `c` of `s`, or all of `s` when there is none. */
  predicate TailAfterLast(s: string, c: char, t: string) {
    |t| <= |s| && s[|s| - |t|..] == t && c !in t && (|t| == |s| || s[|s| - |t| - 1] == c)
  }

  /** The last piece of `s.split(c)` is the text after the last `c`, or all of `s`. */
  lemma {:induction false} LastPieceIsTail(s: string, c: char)
    ensures TailAfterLast(s, c, LastPiece(s, c))
    decreases |s|
  {
    if c !in s {
      assert LastPiece(s, c) == s;
      assert s[0..] == s;
    } else {
      var k := IndexOfChar(s, c);
      var u := s[k + 1..];
      assert LastPiece(s, c) == LastPiece(u, c);
      LastPieceIsTail(u, c);
      TailAfter(s, c, k, LastPiece(u, c));
    }
  }

  /** A tail of the text after the `c` at `k` is a tail of the whole text. */
  lemma TailAfter(s: string, c: char, k: nat, t: string)
    requires k < |s| && s[k] == c
    requires TailAfterLast(s[k + 1..], c, t)
    ensures TailAfterLast(s, c, t)
  {
    var u := s[k + 1..];
    var d := |u| - |t|;
    assert s[k + 1 + d..] == u[d..];
    if |t| < |u| {
      assert s[k + d] == u[d - 1];
    }
  }

  // ---------------------------------------------------------------- numbers

  function DigitValue(c: char): nat {
    if IsDigit(c) then c as int - '0' as int else 0
  }

  function Digit(d: nat): char
    requires d < 10
  {
    ('0' as int + d) as char
  }

  /** `parseInt(s.substring(i, j), 10)` when those characters are digits. */
  function DecimalAt(s: string, i: nat, j: nat): nat
    requires i <= j <= |s|
    decreases j - i
  {
    if j == i then 0 else 10 * DecimalAt(s, i, j - 1) + DigitValue(s[j - 1])
  }

  lemma {:induction false} DecimalAtSameChars(s: string, t: string, i: nat, j: nat, d: nat)
    requires i <= j <= |s| && d <= i && j - d <= |t|
    requires forall m :: i <= m < j ==> t[m - d] == s[m]
    ensures DecimalAt(s, i, j) == DecimalAt(t, i - d, j - d)
    decreases j - i
  {
    if j > i {
      DecimalAtSameChars(s, t, i, j - 1, d);
    }
  }

  /** `String(n)` for a natural number; reading its digits back gives `n`, and there is no
      leading zero. */
  function NatToString(n: nat): (r: string)
    ensures |r| >= 1
    ensures forall k :: 0 <= k < |r| ==> IsDigit(r[k])
    ensures DecimalAt(r, 0, |r|) == n
    ensures r[0] == '0' ==> r == "0"
    decreases n
  {
    if n < 10 then [Digit(n)]
    else
      var h := NatToString(n / 10);
      var r := h + [Digit(n % 10)];
      DecimalAtSameChars(h, r, 0, |h|, 0);
      r
  }

  /** `String(i)` for an integer. */
  function IntToString(i: int): string {
    if i < 0 then "-" + NatToString(-i) else NatToString(i)
  }

  // ---------------------------------------------------------------- ordering

  /** The order of JavaScript's default `sort` on strings: by character code, a proper
      prefix first. */
  predicate Less(a: string, b: string)
    decreases |a|
  {
    |b| > 0 && (|a| == 0 || a[0] < b[0] || (a[0] == b[0] && Less(a[1..], b[1..])))
  }

  lemma {:induction false} LessIrreflexive(a: string)
    ensures !Less(a, a)
    decreases |a|
  {
    if |a| > 0 { LessIrreflexive(a[1..]); }
  }

  lemma {:induction false} LessTransitive(a: string, b: string, c: string)
    requires Less(a, b) && Less(b, c)
    ensures Less(a, c)
    decreases |a|
  {
    if |a| > 0 && a[0] == b[0] && b[0] == c[0] {
      LessTransitive(a[1..], b[1..], c[1..]);
    }
  }

  lemma {:induction false} LessTotal(a: string, b: string)
    ensures a == b || Less(a, b) || Less(b, a)
    decreases |a|
  {
    if |a| > 0 && |b| > 0 && a[0] == b[0] {
      LessTotal(a[1..], b[1..]);
      if a[1..] == b[1..] {
        assert a == [a[0]] + a[1..] && b == [b[0]] + b[1..];
      }
    }
  }

  predicate StrictlySorted(xs: seq<string>) {
    forall i, j :: 0 <= i < j < |xs| ==> Less(xs[i], xs[j])
  }

  /** Every non-empty finite set of strings has a least element. */
  lemma {:induction false} LeastExists(s: set<string>)
    requires s != {}
    ensures exists m :: m in s && forall x :: x in s ==> x == m || Less(m, x)
    decreases |s|
  {
    var y :| y in s;
    var rest := s - {y};
    if rest == {} {
      forall x | x in s ensures x == y { assert x !in rest; }
    } else {
      LeastExists(rest);
      var m :| m in rest && forall x :: x in rest ==> x == m || Less(m, x);
      LessTotal(m, y);
      if Less(m, y) {
        forall x | x in s ensures x == m || Less(m, x) {
          if x != y { assert x in rest; }
        }
        assert m in s;
      } else {
        assert Less(y, m);
        forall x | x in s ensures x == y || Less(y, x) {
          if x != y {
            assert x in rest;
            if x != m { LessTransitive(y, m, x); }
          }
        }
      }
    }
  }

  lemma FirstIsElement(a: seq<string>)
    ensures |a| > 0 ==> a[0] in a
  {
  }

  /** A strictly sorted list is fixed by its elements. */
  lemma {:induction false} StrictlySortedUnique(a: seq<string>, b: seq<string>)
    requires StrictlySorted(a) && StrictlySorted(b)
    requires forall x :: x in a <==> x in b
    ensures a == b
    decreases |a|
  {
    if |a| > 0 && |b| > 0 {
      assert a[0] == b[0] by {
        assert a[0] in b && b[0] in a;
        if a[0] != b[0] {
          var i :| 0 <= i < |b| && b[i] == a[0];
          var j :| 0 <= j < |a| && a[j] == b[0];
          assert i > 0 && j > 0;
          LessTransitive(a[0], b[0], a[0]);
          LessIrreflexive(a[0]);
        }
      }
      forall x ensures x in a[1..] <==> x in b[1..] {
        if x in a[1..] {
          var i :| 1 <= i < |a| && a[i] == x;
          LessIrreflexive(x);
          assert x != a[0];
          assert x in a;
          var j :| 0 <= j < |b| && b[j] == x;
          assert j != 0;
          assert b[1..][j - 1] == x;
        }
        if x in b[1..] {
          var i :| 1 <= i < |b| && b[i] == x;
          LessIrreflexive(x);
          assert x != b[0];
          assert x in b;
          var j :| 0 <= j < |a| && a[j] == x;
          assert j != 0;
          assert a[1..][j - 1] == x;
        }
      }
      StrictlySortedUnique(a[1..], b[1..]);
      assert a == [a[0]] + a[1..] && b == [b[0]] + b[1..];
    } else {
      FirstIsElement(a);
      FirstIsElement(b);
    }
  }

  /** `Array.from(set).sort()`: the elements of the set in ascending order, each once. */
  method SortedElements(s: set<string>) returns (r: seq<string>)
    ensures StrictlySorted(r)
    ensures forall x :: x in r <==> x in s
  {
    r := [];
    var rest := s;
    while rest != {}
      invariant forall x :: x in s <==> x in r || x in rest
      invariant forall x, y :: x in r && y in rest ==> Less(x, y)
      invariant StrictlySorted(r)
      decreases |rest|
    {
      LeastExists(rest);
      var m :| m in rest && forall x :: x in rest ==> x == m || Less(m, x);
      forall x, y | x in r + [m] && y in rest - {m} ensures Less(x, y) {
        if x == m { } else { LessTransitive(x, m, y); }
      }
      r := r + [m];
      rest := rest - {m};
    }
  }
}
