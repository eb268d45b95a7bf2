/** The display helpers of src/utils/logParser.ts: `formatFileSize` (which unit it picks,
    and the text of the byte case) and `getDisplayMessage` (the one-line preview of an
    entry). */
module Display {
  import opened Wrappers
  import opened Text
  import opened LogTypes

  // ---------------------------------------------------------------- formatFileSize

  /** The three branches of `formatFileSize`; only the byte case carries its text. */
  datatype SizeText = InBytes(text: string) | InKilobytes | InMegabytes

  /** `formatFileSize(bytes)`: below 1024 the decimal digits of the size and " B"; below
      1024 * 1024 kilobytes; megabytes from there on. */
  function FormatFileSize(bytes: nat): (r: SizeText)
    ensures r.InBytes? <==> bytes < 1024
    ensures r.InKilobytes? <==> 1024 <= bytes < 1024 * 1024
    ensures r.InMegabytes? <==> 1024 * 1024 <= bytes
    ensures r.InBytes? ==>
              |r.text| >= 3 && r.text[|r.text| - 2..] == " B"
              && (forall k :: 0 <= k < |r.text| - 2 ==> IsDigit(r.text[k]))
              && DecimalAt(r.text, 0, |r.text| - 2) == bytes
              && (r.text[0] == '0' ==> r.text == "0 B")
  {
    if bytes < 1024 then
      var digits := NatToString(bytes);
      DecimalAtSameChars(digits, digits + " B", 0, |digits|, 0);
      InBytes(digits + " B")
    else if bytes < 1024 * 1024 then InKilobytes
    else InMegabytes
  }

  // ---------------------------------------------------------------- text clean-up

  /** Where the match of `/<[^>]+>/` that starts at `i` ends (the index of its `>`), or -1:
      a `<`, at least one character other than `>`, then the first `>` after it. */
  function TagEnd(s: string, i: nat): (r: int)
    ensures r == -1 || (i + 2 <= r < |s| && s[r] == '>')
    ensures r >= 0 ==> i < |s| && s[i] == '<' && forall k :: i < k < r ==> s[k] != '>'
  {
    if i < |s| && s[i] == '<' then
      var j := FindFrom(s, ">", i + 1, false);
      if j >= i + 2 then
        MatchesAtChars(s, ">", j, false);
        assert forall k :: i < k < j ==> s[k] != '>' by {
          forall k | i < k < j ensures s[k] != '>' {
            MatchesAtChars(s, ">", k, false);
          }
        }
        j
      else -1
    else -1
  }

  /** Conversely, a `<`, at least one character other than `>`, and then a `>` is a tag
      that ends at that `>`. */
  lemma TagEndComplete(s: string, i: nat, j: nat)
    requires i < |s| && s[i] == '<' && i + 2 <= j < |s| && s[j] == '>'
    requires forall k :: i < k < j ==> s[k] != '>'
    ensures TagEnd(s, i) == j
  {
    MatchesAtChars(s, ">", j, false);
    var f := FindFrom(s, ">", i + 1, false);
    if 0 <= f {
      MatchesAtChars(s, ">", f, false);
    }
  }

  /** `s.replace(/<[^>]+>/g, ' ')`, scanning from `i`: every tag becomes one space. Text
      with no `<` in it, or no `>`, holds no tag and is kept as it is. */
  function StripTags(s: string, i: nat): (r: string)
    requires i <= |s|
    ensures |r| <= |s| - i
    ensures (forall k :: i <= k < |s| ==> s[k] != '<') ==> r == s[i..]
    ensures (forall k :: i <= k < |s| ==> s[k] != '>') ==> r == s[i..]
    decreases |s| - i
  {
    if i == |s| then []
    else if TagEnd(s, i) >= 0 then [' '] + StripTags(s, TagEnd(s, i) + 1)
    else [s[i]] + StripTags(s, i + 1)
  }

  /** Text in which no tag starts is copied as it is: the replacement runs through
      `s[i..j]` unchanged. */
  lemma {:induction false} StripTagsCopies(s: string, i: nat, j: nat)
    requires i <= j <= |s|
    requires forall k :: i <= k < j ==> TagEnd(s, k) == -1
    ensures StripTags(s, i) == s[i..j] + StripTags(s, j)
    decreases j - i
  {
    if i < j {
      var head := StripTags(s, i);
      var rest := StripTags(s, i + 1);
      var tail := StripTags(s, j);
      assert head == [s[i]] + rest by {
        assert TagEnd(s, i) == -1;
      }
      assert rest == s[i + 1..j] + tail by {
        StripTagsCopies(s, i + 1, j);
      }
      assert [s[i]] + s[i + 1..j] == s[i..j];
      AppendAssoc([s[i]], s[i + 1..j], tail);
    }
  }

  lemma AppendAssoc(a: string, b: string, c: string)
    ensures a + (b + c) == (a + b) + c
  {
  }

  /** The text up to the first tag is kept, that tag becomes one space, and the
      replacement goes on after its `>`. */
  lemma StripTagsAtTag(s: string, i: nat, j: nat)
    requires i <= j < |s| && TagEnd(s, j) >= 0
    requires forall k :: i <= k < j ==> TagEnd(s, k) == -1
    ensures StripTags(s, i) == s[i..j] + " " + StripTags(s, TagEnd(s, j) + 1)
  {
    StripTagsCopies(s, i, j);
  }

  /** A text in which no tag starts comes back unchanged. */
  lemma StripTagsNoTag(s: string)
    requires forall k :: 0 <= k < |s| ==> TagEnd(s, k) == -1
    ensures StripTags(s, 0) == s
  {
    StripTagsCopies(s, 0, |s|);
  }

  /** No `>` comes after index `q`. */
  predicate NoCloseAfter(r: string, q: int) {
    forall m :: 0 <= m < |r| && q < m ==> r[m] != '>'
  }

  /** No tag starts in `r`: every `<` is followed at once by `>`, or by no `>` at all. */
  predicate TagFree(r: string) {
    forall q :: 0 <= q < |r| && r[q] == '<' ==> (q + 1 < |r| && r[q + 1] == '>') || NoCloseAfter(r, q)
  }

  lemma TagFreeHasNoTag(r: string, k: nat)
    requires TagFree(r)
    ensures TagEnd(r, k) == -1
  {
  }

  lemma TagFreeCons(c: char, t: string)
    requires TagFree(t)
    requires c == '<' ==> (|t| > 0 && t[0] == '>') || NoCloseAfter(t, -1)
    ensures TagFree([c] + t)
  {
    var r := [c] + t;
    forall q | 0 <= q < |r| && r[q] == '<'
      ensures (q + 1 < |r| && r[q + 1] == '>') || NoCloseAfter(r, q)
    {
      if q > 0 {
        assert r[q] == t[q - 1];
        if !(q < |t| && t[q] == '>') {
          forall m | q < m < |r| ensures r[m] != '>' { assert r[m] == t[m - 1]; }
        }
      } else if !(|t| > 0 && t[0] == '>') {
        forall m | 0 < m < |r| ensures r[m] != '>' { assert r[m] == t[m - 1]; }
      }
    }
  }

  /** After the replacement no tag is left: `TagEnd` finds none anywhere in the result. */
  lemma {:induction false} StripTagsTagFree(s: string, i: nat)
    requires i <= |s|
    ensures TagFree(StripTags(s, i))
    ensures forall k: nat :: TagEnd(StripTags(s, i), k) == -1
    decreases |s| - i
  {
    var r := StripTags(s, i);
    if i < |s| {
      if TagEnd(s, i) >= 0 {
        StripTagsTagFree(s, TagEnd(s, i) + 1);
        TagFreeCons(' ', StripTags(s, TagEnd(s, i) + 1));
      } else {
        var t := StripTags(s, i + 1);
        StripTagsTagFree(s, i + 1);
        if s[i] == '<' {
          var f := FindFrom(s, ">", i + 1, false);
          if f == -1 {
            forall k | i + 1 <= k < |s| ensures s[k] != '>' { MatchesAtChars(s, ">", k, false); }
          } else {
            MatchesAtChars(s, ">", f, false);
            assert f == i + 1 && s[i + 1] == '>';
            assert TagEnd(s, i + 1) == -1;
            assert t[0] == '>';
          }
        }
        TagFreeCons(s[i], t);
      }
    }
    forall k: nat ensures TagEnd(r, k) == -1 { TagFreeHasNoTag(r, k); }
  }

  /** `s.replace(/\s+/g, ' ')`, scanning from `i`: every run of whitespace becomes one
      space. The result starts with a space exactly when `s[i]` is whitespace. */
  function CollapseWs(s: string, i: nat): (r: string)
    requires i <= |s|
    ensures |r| == 0 <==> i == |s|
    ensures i < |s| ==> r[0] == (if IsWs(s[i]) then ' ' else s[i])
    ensures forall k :: 0 <= k < |r| && IsWs(r[k]) ==> r[k] == ' '
    ensures forall k :: 0 <= k < |r| - 1 ==> !(IsWs(r[k]) && IsWs(r[k + 1]))
    decreases |s| - i
  {
    if i == |s| then []
    else if IsWs(s[i]) then [' '] + CollapseWs(s, SkipWs(s, i))
    else [s[i]] + CollapseWs(s, i + 1)
  }

  /** Text without whitespace is copied as it is: the collapse runs through `s[i..j]`
      unchanged. */
  lemma {:induction false} CollapseWsCopies(s: string, i: nat, j: nat)
    requires i <= j <= |s|
    requires forall k :: i <= k < j ==> !IsWs(s[k])
    ensures CollapseWs(s, i) == s[i..j] + CollapseWs(s, j)
    decreases j - i
  {
    if i < j {
      var rest := CollapseWs(s, i + 1);
      var tail := CollapseWs(s, j);
      assert CollapseWs(s, i) == [s[i]] + rest;
      assert rest == s[i + 1..j] + tail by {
        CollapseWsCopies(s, i + 1, j);
      }
      assert [s[i]] + s[i + 1..j] == s[i..j];
      AppendAssoc([s[i]], s[i + 1..j], tail);
    }
  }

  /** A whole run of whitespace, from `i` to the next other character or the end, becomes one
      space. */
  lemma CollapseWsAtRun(s: string, i: nat, j: nat)
    requires i < j <= |s|
    requires forall k :: i <= k < j ==> IsWs(s[k])
    requires j == |s| || !IsWs(s[j])
    ensures CollapseWs(s, i) == " " + CollapseWs(s, j)
  {
    assert SkipWs(s, i) == j;
  }

  /** The characters of `s` from `i` on that are not whitespace. */
  function NonWs(s: string, i: nat): string
    requires i <= |s|
    decreases |s| - i
  {
    if i == |s| then [] else (if IsWs(s[i]) then [] else [s[i]]) + NonWs(s, i + 1)
  }

  lemma {:induction false} NonWsSkip(s: string, i: nat, j: nat)
    requires i <= j <= |s|
    requires forall k :: i <= k < j ==> IsWs(s[k])
    ensures NonWs(s, i) == NonWs(s, j)
    decreases j - i
  {
    if i < j { NonWsSkip(s, i + 1, j); }
  }

  /** Collapsing whitespace keeps every other character, in order. */
  lemma {:induction false} CollapseKeepsText(s: string, i: nat)
    requires i <= |s|
    ensures NonWs(CollapseWs(s, i), 0) == NonWs(s, i)
    decreases |s| - i
  {
    if i < |s| {
      var r := CollapseWs(s, i);
      if IsWs(s[i]) {
        var j := SkipWs(s, i);
        CollapseKeepsText(s, j);
        NonWsSkip(s, i, j);
        assert r == [' '] + CollapseWs(s, j);
        assert r[1..] == CollapseWs(s, j);
      } else {
        CollapseKeepsText(s, i + 1);
        assert r[1..] == CollapseWs(s, i + 1);
      }
      NonWsTail(r);
    }
  }

  lemma NonWsTail(r: string)
    requires |r| > 0
    ensures NonWs(r, 0) == (if IsWs(r[0]) then [] else [r[0]]) + NonWs(r[1..], 0)
  {
    NonWsShift(r, r[1..], 1);
  }

  lemma {:induction false} NonWsShift(r: string, t: string, i: nat)
    requires 1 <= i <= |r| && t == r[1..]
    ensures NonWs(r, i) == NonWs(t, i - 1)
    decreases |r| - i
  {
    if i < |r| { NonWsShift(r, t, i + 1); }
  }

  // ---------------------------------------------------------------- getDisplayMessage

  /** `type.replace('System.', '').replace('Ifs.Cloud.Client.Exceptions.', '')`: the first
      occurrence of each goes, wherever it is. */
  function ShortType(t: string): string {
    RemoveFirst(RemoveFirst(t, "System."), "Ifs.Cloud.Client.Exceptions.")
  }

  /** `entry.level === 'E' && entry.exceptionType`: an error with a non-empty type. */
  predicate ShowsException(e: LogEntry) {
    e.level == Error && e.exceptionType.Some? && e.exceptionType.value != ""
  }

  /** `entry.exceptionMessage || 'No message'`. */
  function MessageOrDefault(e: LogEntry): string {
    if e.exceptionMessage.Some? && e.exceptionMessage.value != "" then e.exceptionMessage.value
    else "No message"
  }

  /** `getDisplayMessage(entry)`: for an error with an exception type, the short type in
      brackets and the exception message; otherwise the message with its tags replaced by
      spaces and its whitespace collapsed and trimmed, so that it has no whitespace at
      either end, no two whitespace characters in a row, and only spaces as whitespace. */
  function DisplayMessage(e: LogEntry): (r: string)
    ensures ShowsException(e) ==> r == "[" + ShortType(e.exceptionType.value) + "] " + MessageOrDefault(e)
    ensures !ShowsException(e) ==>
              (r == [] || (!IsWs(r[0]) && !IsWs(r[|r| - 1])))
              && (forall k :: 0 <= k < |r| && IsWs(r[k]) ==> r[k] == ' ')
              && (forall k :: 0 <= k < |r| - 1 ==> !(IsWs(r[k]) && IsWs(r[k + 1])))
              && NonWs(r, 0) == NonWs(StripTags(e.message, 0), 0)
  {
    if ShowsException(e) then
      "[" + ShortType(e.exceptionType.value) + "] " + MessageOrDefault(e)
    else
      var stripped := StripTags(e.message, 0);
      var collapsed := CollapseWs(stripped, 0);
      TrimKeepsShape(collapsed);
      CollapseKeepsText(stripped, 0);
      Trim(collapsed)
  }

  /** Trimming a text with single spaces as its only whitespace keeps that shape and drops
      no other character. */
  lemma TrimKeepsShape(c: string)
    requires forall k :: 0 <= k < |c| && IsWs(c[k]) ==> c[k] == ' '
    requires forall k :: 0 <= k < |c| - 1 ==> !(IsWs(c[k]) && IsWs(c[k + 1]))
    ensures forall k :: 0 <= k < |Trim(c)| && IsWs(Trim(c)[k]) ==> Trim(c)[k] == ' '
    ensures forall k :: 0 <= k < |Trim(c)| - 1 ==> !(IsWs(Trim(c)[k]) && IsWs(Trim(c)[k + 1]))
    ensures NonWs(Trim(c), 0) == NonWs(c, 0)
  {
    TrimIsSlice(c);
    if !AllWs(c) {
      var lo := SkipWs(c, 0);
      var hi := SkipWsBack(c, |c|);
      assert forall k :: 0 <= k < |Trim(c)| ==> Trim(c)[k] == c[lo + k];
    }
    TrimKeepsText(c);
  }

  lemma TrimKeepsText(c: string)
    ensures NonWs(Trim(c), 0) == NonWs(c, 0)
  {
    TrimIsSlice(c);
    var lo := SkipWs(c, 0);
    var hi := SkipWsBack(c, |c|);
    if AllWs(c) {
      NonWsSkip(c, 0, |c|);
    } else {
      NonWsSkip(c, 0, lo);
      NonWsSlice(c, lo, hi, lo);
    }
  }

  /** Whitespace that ends a text adds nothing to its non-whitespace characters. */
  lemma {:induction false} NonWsSlice(c: string, lo: nat, hi: nat, i: nat)
    requires lo <= i <= hi <= |c|
    requires forall k :: hi <= k < |c| ==> IsWs(c[k])
    ensures NonWs(c[lo..hi], i - lo) == NonWs(c, i)
    decreases hi - i
  {
    if i < hi {
      NonWsSlice(c, lo, hi, i + 1);
    } else {
      NonWsSkip(c, hi, |c|);
    }
  }

  /** A pattern at the very start is the first occurrence, so it is the one removed. */
  lemma RemoveLeading(p: string, t: string)
    ensures RemoveFirst(p + t, p) == t
  {
    MatchesAtSlice(p + t, p, 0);
    assert (p + t)[..0] + (p + t)[|p|..] == t;
  }

  /** A type in the `System` namespace loses that prefix and nothing else. */
  lemma ShortSystemType(t: string)
    requires !Contains(t, "Ifs.Cloud.Client.Exceptions.")
    ensures ShortType("System." + t) == t
  {
    RemoveLeading("System.", t);
  }
}
