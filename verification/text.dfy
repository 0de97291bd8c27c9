/** The normalisation the PDF handler applies to the raw text of every page
    (bot.py lines 58-61), lifted out as pure functions:
      1. `re.sub(r"(\w)-\n(\w)", r"\1\2", t)` joins a word split by a hyphen
         at a line break;
      2. `t.replace("\n", " ")` turns every remaining newline into a space;
      3. `re.sub(r" {2,}", " ", t)` collapses runs of spaces;
      4. `t.strip()` removes whitespace at both ends.
    Python's `\w` is kept abstract: it is the parameter `isWord`. */
module TextNormalization {

  /** The characters Python's `str.isspace()` accepts; `str.strip()` with no
      argument removes exactly these from both ends. */
  predicate IsWhitespace(c: char) {
    var n := c as int;
    (9 <= n <= 13) || (28 <= n <= 32) || n == 0x85 || n == 0xA0 || n == 0x1680
    || (0x2000 <= n <= 0x200A) || n == 0x2028 || n == 0x2029 || n == 0x202F
    || n == 0x205F || n == 0x3000
  }

  predicate AllWhitespace(s: string) {
    forall k :: 0 <= k < |s| ==> IsWhitespace(s[k])
  }

  lemma AllWhitespaceConcat(a: string, b: string)
    ensures AllWhitespace(a + b) <==> AllWhitespace(a) && AllWhitespace(b)
  {
    if AllWhitespace(a) && AllWhitespace(b) {
      forall k | 0 <= k < |a + b|
        ensures IsWhitespace((a + b)[k])
      {
        if k >= |a| { assert (a + b)[k] == b[k - |a|]; }
      }
    }
    if AllWhitespace(a + b) {
      forall k | 0 <= k < |a|
        ensures IsWhitespace(a[k])
      {
        assert (a + b)[k] == a[k];
      }
      forall k | 0 <= k < |b|
        ensures IsWhitespace(b[k])
      {
        assert (a + b)[|a| + k] == b[k];
      }
    }
  }

  /** No space character is immediately followed by another space. */
  predicate NoDoubleSpace(s: string) {
    forall k :: 0 <= k < |s| - 1 ==> !(s[k] == ' ' && s[k + 1] == ' ')
  }

  /** Facts about Python's real `\w` that some lemmas need: it matches neither
      a hyphen nor any whitespace character. */
  predicate WordClassExcludesSeparators(isWord: char -> bool) {
    !isWord('-') && forall c :: IsWhitespace(c) ==> !isWord(c)
  }

  /** Characters that are not whitespace. */
  predicate IsVisible(c: char) {
    !IsWhitespace(c)
  }

  /** The non-whitespace characters of `s`, in order. Every step after the
      hyphen join must keep them. */
  function Visible(s: string): string
    decreases |s|
  {
    if |s| == 0 then [] else (if IsVisible(s[0]) then [s[0]] else []) + Visible(s[1..])
  }

  lemma {:induction false} VisibleConcat(a: string, b: string)
    ensures Visible(a + b) == Visible(a) + Visible(b)
    decreases |a|
  {
    if |a| == 0 {
      assert a + b == b;
    } else {
      var c := if IsVisible(a[0]) then [a[0]] else [];
      assert (a + b)[0] == a[0];
      assert (a + b)[1..] == a[1..] + b;
      assert Visible(a + b) == c + Visible(a[1..] + b);
      VisibleConcat(a[1..], b);
      assert Visible(a) == c + Visible(a[1..]);
    }
  }

  lemma {:induction false} VisibleOfWhitespace(s: string)
    requires AllWhitespace(s)
    ensures Visible(s) == []
    decreases |s|
  {
    if |s| > 0 {
      VisibleOfWhitespace(s[1..]);
    }
  }

  /** The hyphen and the newline: the characters a joined line break loses. */
  predicate IsBreakMark(c: char) {
    c == '-' || c == '\n'
  }

  /** The characters of `s` other than hyphens and newlines, in order. */
  function Unmarked(s: string): string
    decreases |s|
  {
    if |s| == 0 then [] else (if IsBreakMark(s[0]) then [] else [s[0]]) + Unmarked(s[1..])
  }

  lemma {:induction false} UnmarkedConcat(a: string, b: string)
    ensures Unmarked(a + b) == Unmarked(a) + Unmarked(b)
    decreases |a|
  {
    if |a| == 0 {
      assert a + b == b;
    } else {
      var c := if IsBreakMark(a[0]) then [] else [a[0]];
      assert (a + b)[0] == a[0];
      assert (a + b)[1..] == a[1..] + b;
      assert Unmarked(a + b) == c + Unmarked(a[1..] + b);
      UnmarkedConcat(a[1..], b);
      assert Unmarked(a) == c + Unmarked(a[1..]);
    }
  }

  // ---------------------------------------------------------------------
  // Step 1: joining hyphenated line breaks
  // ---------------------------------------------------------------------

  /** The pattern `(\w)-\n(\w)` matches at position `i` of `s`. */
  predicate BreakAt(isWord: char -> bool, s: string, i: nat) {
    i + 4 <= |s| && isWord(s[i]) && s[i + 1] == '-' && s[i + 2] == '\n' && isWord(s[i + 3])
  }

  /** The output `re.sub` produces for the part of `s` from position `i`
      onwards, when its left-to-right scan stands at `i`: a match there is
      replaced by its two word characters and the scan resumes after it;
      otherwise the character is copied and the scan moves on by one. */
  function JoinFrom(isWord: char -> bool, s: string, i: nat): string
    requires i <= |s|
    decreases |s| - i
  {
    if i == |s| then []
    else if BreakAt(isWord, s, i) then [s[i], s[i + 3]] + JoinFrom(isWord, s, i + 4)
    else [s[i]] + JoinFrom(isWord, s, i + 1)
  }

  function JoinHyphens(isWord: char -> bool, s: string): string {
    JoinFrom(isWord, s, 0)
  }

  /** The scan of `re.sub` started at `i` stands at position `k` at some point,
      that is, no match it made earlier overlaps position `k`. */
  ghost predicate ScanReaches(isWord: char -> bool, s: string, i: nat, k: nat)
    requires i <= k <= |s|
    decreases k - i
  {
    if i == k then true
    else if BreakAt(isWord, s, i) then i + 4 <= k && ScanReaches(isWord, s, i + 4, k)
    else ScanReaches(isWord, s, i + 1, k)
  }

  /** Cutting the text where the scan stands does not change the output. */
  lemma {:induction false} JoinSplit(isWord: char -> bool, s: string, i: nat, k: nat)
    requires i <= k <= |s|
    requires ScanReaches(isWord, s, i, k)
    ensures JoinFrom(isWord, s, i) == JoinFrom(isWord, s[..k], i) + JoinFrom(isWord, s, k)
    decreases k - i
  {
    if i < k {
      var t := s[..k];
      if BreakAt(isWord, s, i) {
        assert t[i] == s[i] && t[i + 3] == s[i + 3];
        assert BreakAt(isWord, t, i);
        JoinSplit(isWord, s, i + 4, k);
        assert JoinFrom(isWord, t, i) == [s[i], s[i + 3]] + JoinFrom(isWord, t, i + 4);
      } else {
        assert !BreakAt(isWord, t, i);
        JoinSplit(isWord, s, i + 1, k);
        assert JoinFrom(isWord, t, i) == [s[i]] + JoinFrom(isWord, t, i + 1);
      }
    }
  }

  /** Scanning a suffix gives the same output as scanning the whole text from
      where the suffix starts. */
  lemma {:induction false} JoinSuffix(isWord: char -> bool, s: string, i: nat, j: nat)
    requires i + j <= |s|
    ensures JoinFrom(isWord, s, i + j) == JoinFrom(isWord, s[i..], j)
    decreases |s| - i - j
  {
    if i + j < |s| {
      var t := s[i..];
      var n := i + j;
      assert t[j] == s[n];
      if BreakAt(isWord, s, n) {
        assert t[j + 1] == s[n + 1] && t[j + 2] == s[n + 2] && t[j + 3] == s[n + 3];
        assert BreakAt(isWord, t, j);
        JoinSuffix(isWord, s, i, j + 4);
        assert JoinFrom(isWord, s, n) == [s[n], s[n + 3]] + JoinFrom(isWord, s, n + 4);
        assert JoinFrom(isWord, t, j) == [s[n], s[n + 3]] + JoinFrom(isWord, t, j + 4);
      } else {
        assert !BreakAt(isWord, t, j) by {
          if j + 4 <= |t| {
            assert t[j + 1] == s[n + 1] && t[j + 2] == s[n + 2] && t[j + 3] == s[n + 3];
          }
        }
        JoinSuffix(isWord, s, i, j + 1);
        assert JoinFrom(isWord, s, n) == [s[n]] + JoinFrom(isWord, s, n + 1);
        assert JoinFrom(isWord, t, j) == [s[n]] + JoinFrom(isWord, t, j + 1);
      }
    }
  }

  /** A `w-\nw` match that no earlier match overlaps is joined: the hyphen and
      the newline disappear and the text on either side is processed on its own. */
  lemma JoinAtBreak(isWord: char -> bool, s: string, k: nat)
    requires k <= |s|
    requires ScanReaches(isWord, s, 0, k)
    requires BreakAt(isWord, s, k)
    ensures JoinHyphens(isWord, s)
         == JoinHyphens(isWord, s[..k]) + [s[k], s[k + 3]] + JoinHyphens(isWord, s[k + 4..])
  {
    JoinSplit(isWord, s, 0, k);
    assert JoinFrom(isWord, s, k) == [s[k], s[k + 3]] + JoinFrom(isWord, s, k + 4);
    JoinSuffix(isWord, s, k + 4, 0);
  }

  /** Any other position the scan reaches is copied: its character is kept
      and the text on either side is processed on its own. With JoinAtBreak
      this fixes the output at every position the scan stands on. */
  lemma JoinAtNonBreak(isWord: char -> bool, s: string, k: nat)
    requires k < |s|
    requires ScanReaches(isWord, s, 0, k)
    requires !BreakAt(isWord, s, k)
    ensures JoinHyphens(isWord, s)
         == JoinHyphens(isWord, s[..k]) + [s[k]] + JoinHyphens(isWord, s[k + 1..])
  {
    var before, at, after := JoinFrom(isWord, s[..k], 0), JoinFrom(isWord, s, k), JoinFrom(isWord, s, k + 1);
    JoinSplit(isWord, s, 0, k);
    assert at == [s[k]] + after;
    JoinSuffix(isWord, s, k + 1, 0);
    assert after == JoinHyphens(isWord, s[k + 1..]);
    assert JoinHyphens(isWord, s) == before + ([s[k]] + after);
  }

  /** Text without a newline is left alone by the join. */
  lemma {:induction false} JoinWithoutNewline(isWord: char -> bool, s: string, i: nat)
    requires i <= |s|
    requires forall k :: i <= k < |s| ==> s[k] != '\n'
    ensures JoinFrom(isWord, s, i) == s[i..]
    decreases |s| - i
  {
    if i < |s| {
      JoinWithoutNewline(isWord, s, i + 1);
      assert s[i..] == [s[i]] + s[i + 1..];
    }
  }

  /** With no newline before it, the scan reaches the start of a `w-\nw`
      placed right after `u`, whatever precedes it. */
  lemma {:induction false} ScanReachesAfterPlainText(isWord: char -> bool, s: string, u: string, i: nat)
    requires WordClassExcludesSeparators(isWord)
    requires |u| + 2 <= |s| && s[..|u|] == u && s[|u| + 1] == '-'
    requires '\n' !in u
    requires isWord(s[|u|])
    requires i <= |u|
    ensures ScanReaches(isWord, s, i, |u|)
    decreases |u| - i
  {
    if i < |u| {
      // A match at i would need a newline at i + 2: not inside u, not the
      // word character at |u| and not the hyphen at |u| + 1.
      assert !BreakAt(isWord, s, i) by {
        if i + 2 < |u| {
          assert s[i + 2] == u[i + 2];
        }
      }
      ScanReachesAfterPlainText(isWord, s, u, i + 1);
    }
  }

  /** The example of the hyphenation rule: with one `a-\nb` after plain text,
      the pair is joined and the remainder is processed on its own. */
  lemma JoinSingleBreak(isWord: char -> bool, u: string, a: char, b: char, v: string)
    requires WordClassExcludesSeparators(isWord)
    requires '\n' !in u
    requires isWord(a) && isWord(b)
    ensures JoinHyphens(isWord, u + [a, '-', '\n', b] + v) == u + [a, b] + JoinHyphens(isWord, v)
  {
    var s := u + [a, '-', '\n', b] + v;
    assert s[..|u|] == u;
    ScanReachesAfterPlainText(isWord, s, u, 0);
    assert BreakAt(isWord, s, |u|);
    JoinAtBreak(isWord, s, |u|);
    JoinWithoutNewline(isWord, u, 0);
    assert s[|u| + 4..] == v;
  }

  lemma ExampleJoin(isWord: char -> bool)
    requires isWord('m') && isWord('p')
    ensures JoinHyphens(isWord, "exam-\nple") == "example"
  {
    var s := "exam-\nple";
    assert !BreakAt(isWord, s, 0) && !BreakAt(isWord, s, 1) && !BreakAt(isWord, s, 2);
    assert BreakAt(isWord, s, 3);
    assert JoinFrom(isWord, s, 7) == "le";
  }

  /** The join removes nothing but hyphens and newlines: every other
      character is kept, in order. */
  lemma {:induction false} JoinRemovesOnlyMarks(isWord: char -> bool, s: string, i: nat)
    requires i <= |s|
    ensures Unmarked(JoinFrom(isWord, s, i)) == Unmarked(s[i..])
    decreases |s| - i
  {
    if i < |s| {
      if BreakAt(isWord, s, i) {
        JoinRemovesOnlyMarks(isWord, s, i + 4);
        var x, y := s[i], s[i + 3];
        assert s[i..] == [x, '-', '\n', y] + s[i + 4..];
        UnmarkedConcat([x, '-', '\n', y], s[i + 4..]);
        UnmarkedConcat([x, y], JoinFrom(isWord, s, i + 4));
        assert Unmarked([x, '-', '\n', y]) == Unmarked([x, y]) by {
          var hx := if IsBreakMark(x) then [] else [x];
          assert [x, '-', '\n', y][1..] == ['-', '\n', y];
          assert ['-', '\n', y][1..] == ['\n', y];
          assert ['\n', y][1..] == [y];
          assert [x, y][1..] == [y];
          assert Unmarked(['\n', y]) == Unmarked([y]);
          assert Unmarked(['-', '\n', y]) == Unmarked([y]);
          assert Unmarked([x, '-', '\n', y]) == hx + Unmarked([y]);
          assert Unmarked([x, y]) == hx + Unmarked([y]);
        }
      } else {
        JoinRemovesOnlyMarks(isWord, s, i + 1);
        assert s[i..] == [s[i]] + s[i + 1..];
        UnmarkedConcat([s[i]], s[i + 1..]);
        UnmarkedConcat([s[i]], JoinFrom(isWord, s, i + 1));
      }
    }
  }

  /** With Python's `\w` the join's output is all whitespace exactly when
      its input is. */
  lemma {:induction false} JoinWhitespace(isWord: char -> bool, s: string, i: nat)
    requires i <= |s|
    requires WordClassExcludesSeparators(isWord)
    ensures AllWhitespace(JoinFrom(isWord, s, i)) <==> AllWhitespace(s[i..])
    decreases |s| - i
  {
    if i < |s| {
      var r := JoinFrom(isWord, s, i);
      if BreakAt(isWord, s, i) {
        assert r[0] == s[i] && !IsWhitespace(s[i]);
        assert s[i..][0] == s[i];
      } else {
        JoinWhitespace(isWord, s, i + 1);
        assert s[i..] == [s[i]] + s[i + 1..];
        AllWhitespaceConcat([s[i]], s[i + 1..]);
        AllWhitespaceConcat([s[i]], JoinFrom(isWord, s, i + 1));
      }
    }
  }

  // ---------------------------------------------------------------------
  // Step 2: newlines become spaces
  // ---------------------------------------------------------------------

  /** `t.replace("\n", " ")`. */
  function NewlinesToSpaces(s: string): (r: string)
    ensures |r| == |s|
    ensures '\n' !in r
    ensures forall k :: 0 <= k < |s| ==> r[k] == (if s[k] == '\n' then ' ' else s[k])
    decreases |s|
  {
    if |s| == 0 then [] else [if s[0] == '\n' then ' ' else s[0]] + NewlinesToSpaces(s[1..])
  }

  lemma {:induction false} NewlinesKeepVisible(s: string)
    ensures Visible(NewlinesToSpaces(s)) == Visible(s)
    decreases |s|
  {
    if |s| > 0 {
      NewlinesKeepVisible(s[1..]);
      var c := if s[0] == '\n' then ' ' else s[0];
      assert NewlinesToSpaces(s) == [c] + NewlinesToSpaces(s[1..]);
      VisibleConcat([c], NewlinesToSpaces(s[1..]));
      assert Visible([c]) == (if IsVisible(s[0]) then [s[0]] else []);
    }
  }

  // ---------------------------------------------------------------------
  // Step 3: collapsing runs of spaces
  // ---------------------------------------------------------------------

  /** The end of the run of spaces that starts at `i`. */
  function SkipSpaces(s: string, i: nat): (j: nat)
    requires i <= |s|
    ensures i <= j <= |s|
    ensures forall k :: i <= k < j ==> s[k] == ' '
    ensures j == |s| || s[j] != ' '
    decreases |s| - i
  {
    if i < |s| && s[i] == ' ' then SkipSpaces(s, i + 1) else i
  }

  /** `re.sub(r" {2,}", " ", t)` from position `i`: the greedy pattern takes a
      whole run of spaces, so every maximal run, of one space or more, comes
      out as exactly one space. */
  function CollapseFrom(s: string, i: nat): (r: string)
    requires i <= |s|
    ensures i < |s| ==> |r| > 0 && r[0] == s[i]
    ensures NoDoubleSpace(r)
    decreases |s| - i
  {
    if i == |s| then []
    else if s[i] == ' ' then [' '] + CollapseFrom(s, SkipSpaces(s, i + 1))
    else [s[i]] + CollapseFrom(s, i + 1)
  }

  function CollapseSpaces(s: string): string {
    CollapseFrom(s, 0)
  }

  /** A space is redundant when the character before it is a space too. */
  predicate Redundant(s: string, i: nat)
    requires i < |s|
  {
    0 < i && s[i] == ' ' && s[i - 1] == ' '
  }

  /** Reference definition of the collapse, one character at a time: drop
      every redundant space, keep everything else. */
  function DropRedundantFrom(s: string, i: nat): string
    requires i <= |s|
    decreases |s| - i
  {
    if i == |s| then []
    else (if Redundant(s, i) then [] else [s[i]]) + DropRedundantFrom(s, i + 1)
  }

  lemma {:induction false} DropRedundantRun(s: string, i: nat, j: nat)
    requires 0 < i <= j <= |s|
    requires forall k :: i - 1 <= k < j ==> s[k] == ' '
    ensures DropRedundantFrom(s, i) == DropRedundantFrom(s, j)
    decreases j - i
  {
    if i < j {
      assert Redundant(s, i);
      DropRedundantRun(s, i + 1, j);
    }
  }

  /** The run-at-a-time collapse agrees with the reference definition. */
  lemma {:induction false} CollapseIsDropRedundant(s: string, i: nat)
    requires i <= |s|
    requires i < |s| ==> !Redundant(s, i)
    ensures CollapseFrom(s, i) == DropRedundantFrom(s, i)
    decreases |s| - i
  {
    if i < |s| {
      if s[i] == ' ' {
        var j := SkipSpaces(s, i + 1);
        DropRedundantRun(s, i + 1, j);
        CollapseIsDropRedundant(s, j);
      } else {
        CollapseIsDropRedundant(s, i + 1);
      }
    }
  }

  /** Text that has no double space is unchanged by the collapse. */
  lemma {:induction false} DropRedundantIdentity(s: string, i: nat)
    requires i <= |s|
    requires NoDoubleSpace(s)
    ensures DropRedundantFrom(s, i) == s[i..]
    decreases |s| - i
  {
    if i < |s| {
      assert !Redundant(s, i) by {
        if 0 < i { assert !(s[i - 1] == ' ' && s[i] == ' '); }
      }
      DropRedundantIdentity(s, i + 1);
      assert s[i..] == [s[i]] + s[i + 1..];
    }
  }

  lemma {:induction false} CollapseKeepsVisible(s: string, i: nat)
    requires i <= |s|
    ensures Visible(CollapseFrom(s, i)) == Visible(s[i..])
    decreases |s| - i
  {
    if i < |s| {
      if s[i] == ' ' {
        var j := SkipSpaces(s, i + 1);
        CollapseKeepsVisible(s, j);
        assert s[i..] == s[i..j] + s[j..];
        VisibleConcat(s[i..j], s[j..]);
        VisibleOfWhitespace(s[i..j]);
        VisibleConcat([' '], CollapseFrom(s, j));
      } else {
        CollapseKeepsVisible(s, i + 1);
        assert s[i..] == [s[i]] + s[i + 1..];
        VisibleConcat([s[i]], s[i + 1..]);
        VisibleConcat([s[i]], CollapseFrom(s, i + 1));
      }
    }
  }

  /** The collapse emits only characters of its input, and removes only spaces. */
  lemma CollapseCharacters(s: string, i: nat)
    requires i <= |s|
    ensures forall c :: c in CollapseFrom(s, i) ==> c in s[i..]
    ensures AllWhitespace(CollapseFrom(s, i)) <==> AllWhitespace(s[i..])
  {
    CollapseDrawsFromInput(s, i);
    CollapseWhitespaceIff(s, i);
  }

  lemma {:induction false} CollapseDrawsFromInput(s: string, i: nat)
    requires i <= |s|
    ensures forall c :: c in CollapseFrom(s, i) ==> c in s[i..]
    decreases |s| - i
  {
    if i < |s| {
      if s[i] == ' ' {
        var j := SkipSpaces(s, i + 1);
        CollapseDrawsFromInput(s, j);
        assert s[i..] == s[i..j] + s[j..];
      } else {
        CollapseDrawsFromInput(s, i + 1);
        assert s[i..] == [s[i]] + s[i + 1..];
      }
    }
  }

  lemma {:induction false} CollapseWhitespaceIff(s: string, i: nat)
    requires i <= |s|
    ensures AllWhitespace(CollapseFrom(s, i)) <==> AllWhitespace(s[i..])
    decreases |s| - i
  {
    if i < |s| {
      if s[i] == ' ' {
        var j := SkipSpaces(s, i + 1);
        var run, rest := s[i..j], CollapseFrom(s, j);
        assert CollapseFrom(s, i) == [' '] + rest;
        CollapseWhitespaceIff(s, j);
        assert s[i..] == run + s[j..];
        assert forall k :: 0 <= k < |run| ==> run[k] == ' ';
        AllWhitespaceConcat(run, s[j..]);
        AllWhitespaceConcat([' '], rest);
      } else {
        var rest := CollapseFrom(s, i + 1);
        assert CollapseFrom(s, i) == [s[i]] + rest;
        CollapseWhitespaceIff(s, i + 1);
        assert s[i..] == [s[i]] + s[i + 1..];
        AllWhitespaceConcat([s[i]], s[i + 1..]);
        AllWhitespaceConcat([s[i]], rest);
      }
    }
  }

  // ---------------------------------------------------------------------
  // Step 4: strip
  // ---------------------------------------------------------------------

  /** The first position at or after `i` that does not hold whitespace. */
  function SkipWhitespace(s: string, i: nat): (j: nat)
    requires i <= |s|
    ensures i <= j <= |s|
    ensures forall k :: i <= k < j ==> IsWhitespace(s[k])
    ensures j == |s| || !IsWhitespace(s[j])
    decreases |s| - i
  {
    if i < |s| && IsWhitespace(s[i]) then SkipWhitespace(s, i + 1) else i
  }

  /** The end of `s[a..j]` once the whitespace at its end is cut off. */
  function TrimEnd(s: string, a: nat, j: nat): (e: nat)
    requires a <= j <= |s|
    ensures a <= e <= j
    ensures forall k :: e <= k < j ==> IsWhitespace(s[k])
    ensures e == a || !IsWhitespace(s[e - 1])
    decreases j
  {
    if a < j && IsWhitespace(s[j - 1]) then TrimEnd(s, a, j - 1) else j
  }

  /** Python's `str.strip()`: the result is a slice of the input whose ends
      are not whitespace, and everything cut off on either side is whitespace. */
  function Strip(s: string): (r: string)
    ensures |r| == 0 || (!IsWhitespace(r[0]) && !IsWhitespace(r[|r| - 1]))
    ensures SkipWhitespace(s, 0) + |r| <= |s|
    ensures r == s[SkipWhitespace(s, 0)..SkipWhitespace(s, 0) + |r|]
    ensures forall k :: SkipWhitespace(s, 0) + |r| <= k < |s| ==> IsWhitespace(s[k])
  {
    var a := SkipWhitespace(s, 0);
    s[a..TrimEnd(s, a, |s|)]
  }

  /** Stripping cuts off whitespace only, so the content is kept. */
  lemma StripKeepsVisible(s: string)
    ensures Visible(Strip(s)) == Visible(s)
  {
    var r := Strip(s);
    var a := SkipWhitespace(s, 0);
    var head, tail := s[..a], s[a + |r|..];
    assert s == head + (r + tail);
    VisibleConcat(head, r + tail);
    VisibleConcat(r, tail);
    VisibleOfWhitespace(head);
    VisibleOfWhitespace(tail);
  }

  /** An all-whitespace text strips to nothing, and only such a text does. */
  lemma StripEmptyIff(s: string)
    ensures Strip(s) == [] <==> AllWhitespace(s)
  {
    var a := SkipWhitespace(s, 0);
    if Strip(s) == [] {
      forall k | 0 <= k < |s|
        ensures IsWhitespace(s[k])
      {
        assert k < a || a + |Strip(s)| <= k;
      }
    }
  }

  lemma StripIdentity(s: string)
    requires |s| == 0 || (!IsWhitespace(s[0]) && !IsWhitespace(s[|s| - 1]))
    ensures Strip(s) == s
  {
  }

  // ---------------------------------------------------------------------
  // The whole normalisation
  // ---------------------------------------------------------------------

  /** The text a page contributes, from its raw extracted text (bot.py 59-61). */
  function Normalize(isWord: char -> bool, raw: string): string {
    Strip(CollapseSpaces(NewlinesToSpaces(JoinHyphens(isWord, raw))))
  }

  /** A slice keeps the absence of newlines and of double spaces. */
  lemma SliceKeepsShape(s: string, a: nat, b: nat)
    requires a <= b <= |s|
    requires '\n' !in s && NoDoubleSpace(s)
    ensures '\n' !in s[a..b] && NoDoubleSpace(s[a..b])
  {
    var r := s[a..b];
    forall k | 0 <= k < |r| - 1
      ensures !(r[k] == ' ' && r[k + 1] == ' ')
    {
      assert r[k] == s[a + k] && r[k + 1] == s[a + k + 1];
    }
  }

  /** The normalised text has no whitespace at either end, no newline and no
      two consecutive spaces. */
  lemma NormalizeShape(isWord: char -> bool, raw: string)
    ensures var r := Normalize(isWord, raw);
            && (|r| == 0 || (!IsWhitespace(r[0]) && !IsWhitespace(r[|r| - 1])))
            && '\n' !in r
            && NoDoubleSpace(r)
  {
    var spaced := NewlinesToSpaces(JoinHyphens(isWord, raw));
    var collapsed := CollapseSpaces(spaced);
    CollapseCharacters(spaced, 0);
    assert '\n' !in collapsed;
    StripKeepsShape(collapsed);
  }

  lemma StripKeepsShape(s: string)
    requires '\n' !in s && NoDoubleSpace(s)
    ensures '\n' !in Strip(s) && NoDoubleSpace(Strip(s))
  {
    var a := SkipWhitespace(s, 0);
    SliceKeepsShape(s, a, a + |Strip(s)|);
  }

  /** After the hyphen join, normalisation removes only whitespace: every
      other character of the joined text survives, in order. */
  lemma NormalizeKeepsVisible(isWord: char -> bool, raw: string)
    ensures Visible(Normalize(isWord, raw)) == Visible(JoinHyphens(isWord, raw))
  {
    var joined := JoinHyphens(isWord, raw);
    var spaced := NewlinesToSpaces(joined);
    NewlinesKeepVisible(joined);
    CollapseKeepsVisible(spaced, 0);
    StripKeepsVisible(CollapseSpaces(spaced));
  }

  /** With Python's `\w`, a page text normalises to the empty string exactly
      when it consists of whitespace only. */
  lemma NormalizeEmptyIff(isWord: char -> bool, raw: string)
    requires WordClassExcludesSeparators(isWord)
    ensures Normalize(isWord, raw) == [] <==> AllWhitespace(raw)
  {
    var joined := JoinHyphens(isWord, raw);
    var spaced := NewlinesToSpaces(joined);
    JoinWhitespace(isWord, raw, 0);
    assert AllWhitespace(spaced) <==> AllWhitespace(joined) by {
      forall k | 0 <= k < |joined|
        ensures IsWhitespace(spaced[k]) <==> IsWhitespace(joined[k])
      {
      }
    }
    CollapseCharacters(spaced, 0);
    StripEmptyIff(CollapseSpaces(spaced));
  }

  /** Normalised text is a fixed point of normalisation. */
  lemma NormalizeIdempotent(isWord: char -> bool, raw: string)
    ensures Normalize(isWord, Normalize(isWord, raw)) == Normalize(isWord, raw)
  {
    var r := Normalize(isWord, raw);
    NormalizeShape(isWord, raw);
    JoinWithoutNewline(isWord, r, 0);
    assert NewlinesToSpaces(r) == r;
    CollapseIsDropRedundant(r, 0);
    DropRedundantIdentity(r, 0);
    StripIdentity(r);
  }

  /** Why the join must be read as a left-to-right scan: in `a-\nb-\nc` the
      first match consumes the `b`, so the second hyphen stays. */
  lemma ExampleOverlappingBreaks(isWord: char -> bool)
    requires isWord('a') && isWord('b') && isWord('c')
    ensures Normalize(isWord, "a-\nb-\nc") == "ab- c"
  {
    OverlappingJoin(isWord);
    var spaced := NewlinesToSpaces("ab-\nc");
    assert spaced == "ab- c";
    CollapseIsDropRedundant(spaced, 0);
    DropRedundantIdentity(spaced, 0);
    StripIdentity("ab- c");
  }

  lemma OverlappingJoin(isWord: char -> bool)
    requires isWord('a') && isWord('b')
    ensures JoinHyphens(isWord, "a-\nb-\nc") == "ab-\nc"
  {
    var s := "a-\nb-\nc";
    assert BreakAt(isWord, s, 0);
    assert JoinFrom(isWord, s, 6) == "c";
    assert JoinFrom(isWord, s, 5) == "\nc";
    assert JoinFrom(isWord, s, 4) == "-\nc";
  }
}
