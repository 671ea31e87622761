/**
 * summarize_caption (app.py:54-67; redefined statement for statement, with a
 * local `import re` and different comments, at app.py:74-85).
 *
 * The caption is cleaned by four `re.sub(pattern, "", caption)` calls in a
 * row. `re.sub` scans left to right and removes each leftmost match, then
 * resumes after it, so every pattern is modelled as a recursive scanner over
 * the string. The cleaned text is split on '\n', every line is stripped,
 * blank lines are dropped, and the first two remaining lines are joined with
 * ". ", with "..." appended when more lines remained.
 */
module Caption {
  import opened Builtins

  const NoCaption: string := "No caption provided."
  const Ellipsis: string := "..."

  /** The regex class `[A-Za-z0-9_]` (ASCII only, as written in the pattern). */
  predicate IsWordChar(c: char)
  {
    'A' <= c <= 'Z' || 'a' <= c <= 'z' || '0' <= c <= '9' || c == '_'
  }

  /** The regex class `\S`. */
  predicate IsNonSpace(c: char) { !IsSpace(c) }

  /** Length of the longest prefix of `s` made of characters of a class: what
      a greedy `+` consumes once it has started. */
  function RunLength(s: string, inClass: char -> bool): (n: nat)
    ensures n <= |s|
    ensures forall i :: 0 <= i < n ==> inClass(s[i])
    ensures n == |s| || !inClass(s[n])
  {
    if s != [] && inClass(s[0]) then 1 + RunLength(s[1..], inClass) else 0
  }

  /** The characters of `s[from..n]` are those a greedy run of the class took. */
  lemma RunChars(s: string, from: int, n: int, inClass: char -> bool)
    requires 0 <= from <= |s| && n == from + RunLength(s[from..], inClass)
    ensures n <= |s| && forall i :: from <= i < n ==> inClass(s[i])
    ensures n == |s| || !inClass(s[n])
  {
    forall i | from <= i < n ensures inClass(s[i]) {
      assert s[i] == s[from..][i - from];
    }
    if n < |s| {
      assert s[n] == s[from..][n - from];
    }
  }

  /** A scan that skips a match `s[..n]` with no character of the class
      `keep`, then returns `r` for `s[n..]`, deletes characters of `s`, in
      order, and keeps every character of the class. */
  lemma SkipMatch(s: string, n: int, r: string, keep: char -> bool)
    requires 0 <= n <= |s| && forall i :: 0 <= i < n ==> !keep(s[i])
    requires Subsequence(r, s[n..]) && KeepsClass(r, s[n..], keep)
    requires forall c :: c in r ==> c in s[n..]
    ensures Subsequence(r, s) && KeepsClass(r, s, keep)
    ensures forall c :: c in r ==> c in s
  {
    SubsequenceAfter(r, s, n);
    KeepsClassAfter(r, s, n, keep);
    SuffixChars(s, n, r);
  }

  /** A scan that keeps `s[0]` in front of what it returns for `s[1..]`. */
  lemma KeepFirst(s: string, rest: string, keep: char -> bool)
    requires s != [] && Subsequence(rest, s[1..]) && KeepsClass(rest, s[1..], keep)
    requires forall c :: c in rest ==> c in s[1..]
    ensures Subsequence([s[0]] + rest, s) && KeepsClass([s[0]] + rest, s, keep)
    ensures forall c :: c in [s[0]] + rest ==> c in s
  {
    SubsequenceCons(s, rest);
    KeepsClassCons(s, rest, keep);
    SuffixChars(s, 1, rest);
  }

  /** What a scan returns after skipping `s[..n]` holds only characters of `s`. */
  lemma SuffixChars(s: string, n: int, r: string)
    requires 0 <= n <= |s| && forall c :: c in r ==> c in s[n..]
    ensures forall c :: c in r ==> c in s
  {
    forall c | c in r ensures c in s {
      var i :| 0 <= i < |s[n..]| && s[n..][i] == c;
      assert s[n + i] == c;
    }
  }

  // ---------------------------------------------------------------------------
  // The positions a pattern's matches cover, independently of any scan
  // ---------------------------------------------------------------------------

  /** Position i lies inside a match: a match starts at some j <= i
      (`starts[j]`) and every character after that start, up to i, is of the
      class the pattern's `+` runs over. The `+` is greedy, so a match that
      starts at j covers all of these positions; and a start inside an earlier
      match covers nothing that the earlier match does not. */
  predicate InMatch(s: string, starts: seq<bool>, run: char -> bool, i: int)
    requires |starts| == |s| && 0 <= i < |s|
  {
    exists j :: 0 <= j <= i && Reaches(s, starts, run, j, i)
  }

  /** A match starts at j and its run of the class goes on at least to i. */
  predicate Reaches(s: string, starts: seq<bool>, run: char -> bool, j: int, i: int)
    requires |starts| == |s| && 0 <= j <= i < |s|
  {
    starts[j] && forall k :: j < k <= i ==> run(s[k])
  }

  /** The characters of `s[from..]` at the positions no match covers, in order:
      what `re.sub(pattern, "", s)` leaves. */
  function Uncovered(s: string, starts: seq<bool>, run: char -> bool, from: nat): string
    requires |starts| == |s| && from <= |s|
    decreases |s| - from
  {
    if from == |s| then []
    else (if InMatch(s, starts, run, from) then [] else [s[from]])
         + Uncovered(s, starts, run, from + 1)
  }

  /** No match reaches from before `n` to `n` or beyond: the character at `n`
      is outside the class, or `n` is 1 and no match starts at 0. */
  predicate MatchesEndBefore(s: string, starts: seq<bool>, run: char -> bool, n: int)
    requires |starts| == |s| && 0 <= n <= |s|
  {
    n == |s| || !run(s[n]) || (n == 1 && !starts[0])
  }

  /** Behind such a boundary, a position is covered in `s` exactly when it is
      covered in `s[n..]`. */
  lemma InMatchShift(s: string, starts: seq<bool>, run: char -> bool, n: int, i: int)
    requires |starts| == |s| && 0 <= n <= i < |s|
    requires MatchesEndBefore(s, starts, run, n)
    ensures InMatch(s, starts, run, i) <==> InMatch(s[n..], starts[n..], run, i - n)
  {
    var t, ts := s[n..], starts[n..];
    if InMatch(s, starts, run, i) {
      var j :| 0 <= j <= i && Reaches(s, starts, run, j, i);
      if j < n {
        assert false;
      }
      forall k | j - n < k <= i - n ensures run(t[k]) {
        assert t[k] == s[k + n];
      }
      assert Reaches(t, ts, run, j - n, i - n);
    }
    if InMatch(t, ts, run, i - n) {
      var j :| 0 <= j <= i - n && Reaches(t, ts, run, j, i - n);
      forall k | j + n < k <= i ensures run(s[k]) {
        assert t[k - n] == s[k];
      }
      assert Reaches(s, starts, run, j + n, i);
    }
  }

  /** Behind such a boundary, what stays of `s[from..]` is what stays of the
      same characters in `s[n..]`. */
  lemma {:induction false} UncoveredShift(s: string, starts: seq<bool>, run: char -> bool, n: int, from: int)
    requires |starts| == |s| && 0 <= n <= from <= |s|
    requires MatchesEndBefore(s, starts, run, n)
    ensures Uncovered(s, starts, run, from) == Uncovered(s[n..], starts[n..], run, from - n)
    decreases |s| - from
  {
    if from < |s| {
      var t, ts, m := s[n..], starts[n..], from - n;
      var inS, inT := InMatch(s, starts, run, from), InMatch(t, ts, run, m);
      InMatchShift(s, starts, run, n, from);
      assert inS == inT;
      UncoveredShift(s, starts, run, n, from + 1);
      assert t[m] == s[from];
      assert Uncovered(s, starts, run, from) == (if inS then [] else [s[from]]) + Uncovered(s, starts, run, from + 1);
      assert Uncovered(t, ts, run, m) == (if inT then [] else [t[m]]) + Uncovered(t, ts, run, m + 1);
    }
  }

  /** The positions of a match that starts at 0 and runs over the class up to
      `n` are all covered. */
  lemma CoveredPrefix(s: string, starts: seq<bool>, run: char -> bool, from: int, n: int)
    requires |starts| == |s| && 0 <= from <= n <= |s| && 0 < n && starts[0]
    requires forall k :: 0 < k < n ==> run(s[k])
    ensures Uncovered(s, starts, run, from) == Uncovered(s, starts, run, n)
    decreases n - from
  {
    if from < n {
      assert Reaches(s, starts, run, 0, from);
      CoveredPrefix(s, starts, run, from + 1, n);
    }
  }

  /** A match at the front, ended by a character outside its class: what
      stays is what stays of the rest. */
  lemma UncoveredAfterMatch(s: string, starts: seq<bool>, run: char -> bool, n: int)
    requires |starts| == |s| && 0 < n <= |s| && starts[0]
    requires forall k :: 0 < k < n ==> run(s[k])
    requires n == |s| || !run(s[n])
    ensures Uncovered(s, starts, run, 0) == Uncovered(s[n..], starts[n..], run, 0)
  {
    CoveredPrefix(s, starts, run, 0, n);
    UncoveredShift(s, starts, run, n, n);
  }

  /** No match at the front: the first character stays, followed by what
      stays of the rest. */
  lemma UncoveredAfterKeep(s: string, starts: seq<bool>, run: char -> bool)
    requires |starts| == |s| && s != [] && !starts[0]
    ensures Uncovered(s, starts, run, 0) == [s[0]] + Uncovered(s[1..], starts[1..], run, 0)
  {
    assert !InMatch(s, starts, run, 0);
    UncoveredShift(s, starts, run, 1, 1);
  }

  /** Where no match starts, nothing is removed. */
  lemma {:induction false} NothingCovered(s: string, starts: seq<bool>, run: char -> bool, from: int)
    requires |starts| == |s| && 0 <= from <= |s|
    requires forall j :: 0 <= j < |s| ==> !starts[j]
    ensures Uncovered(s, starts, run, from) == s[from..]
    decreases |s| - from
  {
    if from < |s| {
      assert !InMatch(s, starts, run, from);
      NothingCovered(s, starts, run, from + 1);
      assert s[from..] == [s[from]] + s[from + 1..];
    }
  }

  // ---------------------------------------------------------------------------
  // re.sub(r"@[A-Za-z0-9_]+", "", caption)
  // ---------------------------------------------------------------------------

  /** A mention starts at index i. */
  predicate MentionAt(s: string, i: int)
    requires 0 <= i < |s|
  {
    s[i] == '@' && i + 1 < |s| && IsWordChar(s[i + 1])
  }

  predicate NoMention(s: string)
  {
    forall i :: 0 <= i < |s| ==> !MentionAt(s, i)
  }

  /** The characters no mention contains: neither '@' nor a word character. */
  predicate OutsideMention(c: char) { c != '@' && !IsWordChar(c) }

  /** The scan `re.sub` makes for this pattern: at a mention, skip the '@'
      and the whole word run after it, then go on; otherwise keep the
      character and go on. */
  function MentionScan(s: string): string
    decreases |s|
  {
    if s == [] then []
    else if MentionAt(s, 0) then MentionScan(s[1 + RunLength(s[1..], IsWordChar)..])
    else [s[0]] + MentionScan(s[1..])
  }

  /** Removes every `@name` mention. No mention is left afterwards; the result
      is the input with characters deleted, in order, and every character
      that no mention can contain is kept; a string without '@' is left as it
      is. StripMentionsExact: exactly the characters mentions cover go. */
  function StripMentions(s: string): (r: string)
    ensures NoMention(r)
    ensures Subsequence(r, s) && KeepsClass(r, s, OutsideMention)
    ensures (s == [] || !IsWordChar(s[0])) ==> (r == [] || !IsWordChar(r[0]))
    ensures forall c :: c in r ==> c in s
    ensures '@' !in s ==> r == s
  {
    MentionScanKeeps(s);
    MentionScan(s)
  }

  /** The guarantees of the mention scan, by induction along it. */
  lemma {:induction false} MentionScanKeeps(s: string)
    ensures var r := MentionScan(s);
            && NoMention(r)
            && Subsequence(r, s) && KeepsClass(r, s, OutsideMention)
            && ((s == [] || !IsWordChar(s[0])) ==> (r == [] || !IsWordChar(r[0])))
            && (forall c :: c in r ==> c in s)
            && ('@' !in s ==> r == s)
    decreases |s|
  {
    if s != [] {
      if MentionAt(s, 0) {
        var n := 1 + RunLength(s[1..], IsWordChar);
        MentionScanKeeps(s[n..]);
        RunChars(s, 1, n, IsWordChar);
        SkipMatch(s, n, MentionScan(s[n..]), OutsideMention);
      } else {
        var rest := MentionScan(s[1..]);
        MentionScanKeeps(s[1..]);
        KeepBeforeMention(s, rest);
        KeepFirst(s, rest, OutsideMention);
      }
    }
  }

  /** A first character that does not start a mention, kept in front of the
      scan of the rest, starts none either; the other facts carry over. */
  lemma KeepBeforeMention(s: string, rest: string)
    requires s != [] && !MentionAt(s, 0)
    requires NoMention(rest)
    requires (s[1..] == [] || !IsWordChar(s[1])) ==> (rest == [] || !IsWordChar(rest[0]))
    requires '@' !in s[1..] ==> rest == s[1..]
    ensures NoMention([s[0]] + rest)
    ensures (s == [] || !IsWordChar(s[0])) ==> !IsWordChar(([s[0]] + rest)[0])
    ensures '@' !in s ==> [s[0]] + rest == s
  {
    var r := [s[0]] + rest;
    forall i | 0 <= i < |r| ensures !MentionAt(r, i) {
      if i > 0 {
        assert !MentionAt(rest, i - 1);
      }
    }
    assert s == [s[0]] + s[1..];
  }

  /** Where mentions start in `s`. */
  function MentionStarts(s: string): (m: seq<bool>)
    ensures |m| == |s| && forall j :: 0 <= j < |s| ==> m[j] == MentionAt(s, j)
  {
    seq(|s|, j requires 0 <= j < |s| => MentionAt(s, j))
  }

  /** Whether a mention starts somewhere depends only on what follows. */
  lemma MentionStartsFrom(s: string, n: int)
    requires 0 <= n <= |s|
    ensures MentionStarts(s)[n..] == MentionStarts(s[n..])
  {
    var t := s[n..];
    forall j | 0 <= j < |t| ensures MentionAt(s, n + j) == MentionAt(t, j) {
      assert t[j] == s[n + j];
      if j + 1 < |t| {
        assert t[j + 1] == s[n + j + 1];
      }
    }
  }

  /** StripMentions removes exactly the positions that mentions cover: the
      '@' and the whole run of word characters after it, and nothing else. */
  lemma StripMentionsExact(s: string)
    ensures StripMentions(s) == Uncovered(s, MentionStarts(s), IsWordChar, 0)
  {
    MentionScanExact(s);
  }

  lemma {:induction false} MentionScanExact(s: string)
    ensures MentionScan(s) == Uncovered(s, MentionStarts(s), IsWordChar, 0)
    decreases |s|
  {
    if s != [] {
      if MentionAt(s, 0) {
        var n := 1 + RunLength(s[1..], IsWordChar);
        MentionScanExact(s[n..]);
        SkipCoveredMention(s, n);
      } else {
        MentionScanExact(s[1..]);
        KeepUncoveredMention(s);
      }
    }
  }

  /** A mention at the front covers the '@' and the word run after it. */
  lemma SkipCoveredMention(s: string, n: int)
    requires s != [] && MentionAt(s, 0) && n == 1 + RunLength(s[1..], IsWordChar)
    ensures n <= |s|
    ensures Uncovered(s, MentionStarts(s), IsWordChar, 0)
            == Uncovered(s[n..], MentionStarts(s[n..]), IsWordChar, 0)
  {
    RunChars(s, 1, n, IsWordChar);
    MentionStartsFrom(s, n);
    UncoveredAfterMatch(s, MentionStarts(s), IsWordChar, n);
  }

  /** A first character that starts no mention stays. */
  lemma KeepUncoveredMention(s: string)
    requires s != [] && !MentionAt(s, 0)
    ensures Uncovered(s, MentionStarts(s), IsWordChar, 0)
            == [s[0]] + Uncovered(s[1..], MentionStarts(s[1..]), IsWordChar, 0)
  {
    MentionStartsFrom(s, 1);
    UncoveredAfterKeep(s, MentionStarts(s), IsWordChar);
  }

  /** Text without a mention is left as it is, so stripping twice is
      stripping once. */
  lemma NoMentionUnchanged(s: string)
    requires NoMention(s)
    ensures StripMentions(s) == s
    ensures StripMentions(StripMentions(s)) == StripMentions(s)
  {
    StripMentionsExact(s);
    NothingCovered(s, MentionStarts(s), IsWordChar, 0);
  }

  // ---------------------------------------------------------------------------
  // re.sub(r"#\S+", "", caption)
  // ---------------------------------------------------------------------------

  /** A hashtag starts at index i. */
  predicate HashtagAt(s: string, i: int)
    requires 0 <= i < |s|
  {
    s[i] == '#' && i + 1 < |s| && IsNonSpace(s[i + 1])
  }

  predicate NoHashtag(s: string)
  {
    forall i :: 0 <= i < |s| ==> !HashtagAt(s, i)
  }

  /** The scan `re.sub` makes for this pattern: at a hashtag, skip the '#'
      and the whole non-blank run after it, then go on; otherwise keep the
      character and go on. */
  function HashtagScan(s: string): string
    decreases |s|
  {
    if s == [] then []
    else if HashtagAt(s, 0) then HashtagScan(s[1 + RunLength(s[1..], IsNonSpace)..])
    else [s[0]] + HashtagScan(s[1..])
  }

  /** Removes every `#tag` (a '#' and the non-blank run after it). No hashtag
      is left afterwards; the result is the input with characters deleted, in
      order, and every whitespace character is kept; a string without '#' is
      left as it is. StripHashtagsExact: exactly the characters hashtags
      cover go. */
  function StripHashtags(s: string): (r: string)
    ensures NoHashtag(r)
    ensures Subsequence(r, s) && KeepsClass(r, s, IsSpace)
    ensures (s != [] && IsSpace(s[0])) ==> (r != [] && r[0] == s[0])
    ensures forall c :: c in r ==> c in s
    ensures '#' !in s ==> r == s
  {
    HashtagScanKeeps(s);
    HashtagScan(s)
  }

  /** The guarantees of the hashtag scan, by induction along it. */
  lemma {:induction false} HashtagScanKeeps(s: string)
    ensures var r := HashtagScan(s);
            && NoHashtag(r)
            && Subsequence(r, s) && KeepsClass(r, s, IsSpace)
            && ((s != [] && IsSpace(s[0])) ==> (r != [] && r[0] == s[0]))
            && (forall c :: c in r ==> c in s)
            && ('#' !in s ==> r == s)
    decreases |s|
  {
    if s != [] {
      if HashtagAt(s, 0) {
        var n := 1 + RunLength(s[1..], IsNonSpace);
        HashtagScanKeeps(s[n..]);
        HashtagMatchChars(s, n);
        SkipMatch(s, n, HashtagScan(s[n..]), IsSpace);
      } else {
        var rest := HashtagScan(s[1..]);
        HashtagScanKeeps(s[1..]);
        KeepBeforeHashtag(s, rest);
        KeepFirst(s, rest, IsSpace);
      }
    }
  }

  /** A hashtag match holds no whitespace. */
  lemma HashtagMatchChars(s: string, n: int)
    requires s != [] && s[0] == '#' && n == 1 + RunLength(s[1..], IsNonSpace)
    ensures n <= |s| && forall i :: 0 <= i < n ==> !IsSpace(s[i])
  {
    RunChars(s, 1, n, IsNonSpace);
    assert !IsSpace('#');
  }

  /** A first character that does not start a hashtag, kept in front of the
      scan of the rest, starts none either; the other facts carry over. */
  lemma KeepBeforeHashtag(s: string, rest: string)
    requires s != [] && !HashtagAt(s, 0)
    requires NoHashtag(rest)
    requires (s[1..] != [] && IsSpace(s[1])) ==> (rest != [] && rest[0] == s[1])
    requires '#' !in s[1..] ==> rest == s[1..]
    ensures NoHashtag([s[0]] + rest)
    ensures '#' !in s ==> [s[0]] + rest == s
  {
    var r := [s[0]] + rest;
    forall i | 0 <= i < |r| ensures !HashtagAt(r, i) {
      if i > 0 {
        assert !HashtagAt(rest, i - 1);
      }
    }
    assert s == [s[0]] + s[1..];
  }

  /** Where hashtags start in `s`. */
  function HashtagStarts(s: string): (m: seq<bool>)
    ensures |m| == |s| && forall j :: 0 <= j < |s| ==> m[j] == HashtagAt(s, j)
  {
    seq(|s|, j requires 0 <= j < |s| => HashtagAt(s, j))
  }

  lemma HashtagStartsFrom(s: string, n: int)
    requires 0 <= n <= |s|
    ensures HashtagStarts(s)[n..] == HashtagStarts(s[n..])
  {
    var t := s[n..];
    forall j | 0 <= j < |t| ensures HashtagAt(s, n + j) == HashtagAt(t, j) {
      assert t[j] == s[n + j];
      if j + 1 < |t| {
        assert t[j + 1] == s[n + j + 1];
      }
    }
  }

  /** StripHashtags removes exactly the positions that hashtags cover: the
      '#' and the whole non-blank run after it, and nothing else. */
  lemma StripHashtagsExact(s: string)
    ensures StripHashtags(s) == Uncovered(s, HashtagStarts(s), IsNonSpace, 0)
  {
    HashtagScanExact(s);
  }

  lemma {:induction false} HashtagScanExact(s: string)
    ensures HashtagScan(s) == Uncovered(s, HashtagStarts(s), IsNonSpace, 0)
    decreases |s|
  {
    if s != [] {
      if HashtagAt(s, 0) {
        var n := 1 + RunLength(s[1..], IsNonSpace);
        HashtagScanExact(s[n..]);
        SkipCoveredHashtag(s, n);
      } else {
        HashtagScanExact(s[1..]);
        KeepUncoveredHashtag(s);
      }
    }
  }

  /** A hashtag at the front covers the '#' and the non-blank run after it. */
  lemma SkipCoveredHashtag(s: string, n: int)
    requires s != [] && HashtagAt(s, 0) && n == 1 + RunLength(s[1..], IsNonSpace)
    ensures n <= |s|
    ensures Uncovered(s, HashtagStarts(s), IsNonSpace, 0)
            == Uncovered(s[n..], HashtagStarts(s[n..]), IsNonSpace, 0)
  {
    RunChars(s, 1, n, IsNonSpace);
    HashtagStartsFrom(s, n);
    UncoveredAfterMatch(s, HashtagStarts(s), IsNonSpace, n);
  }

  /** A first character that starts no hashtag stays. */
  lemma KeepUncoveredHashtag(s: string)
    requires s != [] && !HashtagAt(s, 0)
    ensures Uncovered(s, HashtagStarts(s), IsNonSpace, 0)
            == [s[0]] + Uncovered(s[1..], HashtagStarts(s[1..]), IsNonSpace, 0)
  {
    HashtagStartsFrom(s, 1);
    UncoveredAfterKeep(s, HashtagStarts(s), IsNonSpace);
  }

  /** Text without a hashtag is left as it is, so stripping twice is
      stripping once. */
  lemma NoHashtagUnchanged(s: string)
    requires NoHashtag(s)
    ensures StripHashtags(s) == s
    ensures StripHashtags(StripHashtags(s)) == StripHashtags(s)
  {
    StripHashtagsExact(s);
    NothingCovered(s, HashtagStarts(s), IsNonSpace, 0);
  }

  // ---------------------------------------------------------------------------
  // re.sub(r"http\S+", "", caption)
  // ---------------------------------------------------------------------------

  /** A link starts at index i: "http" followed by at least one non-blank. */
  predicate LinkAt(s: string, i: int)
    requires 0 <= i < |s|
  {
    i + 4 < |s| && s[i..i + 4] == "http" && IsNonSpace(s[i + 4])
  }

  predicate NoLink(s: string)
  {
    forall i :: 0 <= i < |s| ==> !LinkAt(s, i)
  }

  /** The leading non-blank run of a string. */
  function Word(s: string): string
  {
    s[..RunLength(s, IsNonSpace)]
  }

  /** The scan `re.sub` makes for this pattern: at a link, skip "http" and
      the whole non-blank run after it, then go on; otherwise keep the
      character and go on. */
  function LinkScan(s: string): string
    decreases |s|
  {
    if s == [] then []
    else if LinkAt(s, 0) then LinkScan(s[4 + RunLength(s[4..], IsNonSpace)..])
    else [s[0]] + LinkScan(s[1..])
  }

  /** Removes every `http...` link up to the next blank. No link is left
      afterwards; the result is the input with characters deleted, in order,
      and every whitespace character is kept; a string without 'h' is left as
      it is. The leading non-blank run of the result is a prefix of the
      input's: this is what stops a removal from forming a new link with the
      characters kept in front of it. StripLinksExact: exactly the characters
      links cover go. */
  function StripLinks(s: string): (r: string)
    ensures NoLink(r)
    ensures Word(r) <= Word(s)
    ensures Subsequence(r, s) && KeepsClass(r, s, IsSpace)
    ensures forall c :: c in r ==> c in s
    ensures 'h' !in s ==> r == s
  {
    LinkScanKeeps(s);
    LinkScan(s)
  }

  /** The guarantees of the link scan, by induction along it. */
  lemma {:induction false} LinkScanKeeps(s: string)
    ensures var r := LinkScan(s);
            && NoLink(r)
            && Word(r) <= Word(s)
            && Subsequence(r, s) && KeepsClass(r, s, IsSpace)
            && (forall c :: c in r ==> c in s)
            && ('h' !in s ==> r == s)
    decreases |s|
  {
    if s != [] {
      if LinkAt(s, 0) {
        var n := 4 + RunLength(s[4..], IsNonSpace);
        LinkScanKeeps(s[n..]);
        SkipLink(s, n, LinkScan(s[n..]));
      } else {
        var rest := LinkScan(s[1..]);
        LinkScanKeeps(s[1..]);
        KeepBeforeLink(s, rest);
        KeepFirst(s, rest, IsSpace);
        assert 'h' !in s ==> 'h' !in s[1..] && s == [s[0]] + s[1..];
      }
    }
  }

  /** A link match holds no whitespace. */
  lemma LinkMatchChars(s: string, n: int)
    requires s != [] && LinkAt(s, 0) && n == 4 + RunLength(s[4..], IsNonSpace)
    ensures n <= |s| && forall i :: 0 <= i < n ==> !IsSpace(s[i])
  {
    RunChars(s, 4, n, IsNonSpace);
    assert s[..4] == "http";
    forall i | 0 <= i < 4 ensures !IsSpace(s[i]) {
      assert s[i] == "http"[i];
    }
  }

  /** After a link, the scan resumes at a blank or at the end, so what it
      returns has an empty head run; the link itself starts with 'h'. */
  lemma SkipLink(s: string, n: int, r: string)
    requires s != [] && LinkAt(s, 0) && n == 4 + RunLength(s[4..], IsNonSpace)
    requires Word(r) <= Word(s[n..]) && forall c :: c in r ==> c in s[n..]
    requires Subsequence(r, s[n..]) && KeepsClass(r, s[n..], IsSpace)
    ensures Word(r) <= Word(s)
    ensures Subsequence(r, s) && KeepsClass(r, s, IsSpace)
    ensures forall c :: c in r ==> c in s
    ensures 'h' in s
  {
    LinkMatchChars(s, n);
    SkipMatch(s, n, r, IsSpace);
    assert s[..4] == "http" && s[0] == s[..4][0];
    var tail := s[n..];
    assert tail == [] || IsSpace(tail[0]) by {
      assert n == |s| || !IsNonSpace(s[4..][n - 4]);
    }
    assert RunLength(tail, IsNonSpace) == 0;
  }

  /** The run of non-blanks at the head of a string is at least five
      characters long when a link starts there. */
  lemma LinkAtHead(s: string)
    requires s != [] && LinkAt(s, 0)
    ensures |Word(s)| >= 5 && Word(s)[..5] == s[..5]
  {
    var n := RunLength(s, IsNonSpace);
    assert s[..4] == "http";
    assert forall i :: 0 <= i < 4 ==> s[i] == "http"[i];
    if n < 5 {
      assert false;
    }
  }

  /** A string whose head run is a prefix of that of `s` starts a link only
      where `s` does. */
  lemma NoLinkInFront(s: string, r: string)
    requires s != [] && !LinkAt(s, 0)
    requires r != [] && Word(r) <= Word(s)
    ensures !LinkAt(r, 0)
  {
    if LinkAt(r, 0) {
      LinkAtHead(r);
      var w := Word(s);
      assert |w| >= 5 && w[..5] == r[..5];
      assert forall i :: 0 <= i < 5 ==> s[i] == w[i] == r[i];
      assert false;
    }
  }

  /** Keeping a first character that does not start a link, in front of a
      link-free scan result of the rest, makes no link, and the head run of
      the result stays a prefix of the input's. */
  lemma KeepBeforeLink(s: string, rest: string)
    requires s != [] && !LinkAt(s, 0)
    requires NoLink(rest) && Word(rest) <= Word(s[1..])
    ensures NoLink([s[0]] + rest)
    ensures Word([s[0]] + rest) <= Word(s)
  {
    var r := [s[0]] + rest;
    assert r[1..] == rest;
    if IsNonSpace(s[0]) {
      assert RunLength(r, IsNonSpace) == 1 + RunLength(rest, IsNonSpace);
      assert Word(r) == [s[0]] + Word(rest);
      assert Word(s) == [s[0]] + Word(s[1..]);
    }
    forall i | 0 <= i < |r| ensures !LinkAt(r, i) {
      if i == 0 {
        NoLinkInFront(s, r);
      } else if i + 4 < |r| {
        assert r[i..i + 4] == rest[i - 1..i + 3];
        assert !LinkAt(rest, i - 1);
      }
    }
  }

  /** Where links start in `s`. */
  function LinkStarts(s: string): (m: seq<bool>)
    ensures |m| == |s| && forall j :: 0 <= j < |s| ==> m[j] == LinkAt(s, j)
  {
    seq(|s|, j requires 0 <= j < |s| => LinkAt(s, j))
  }

  lemma LinkStartsFrom(s: string, n: int)
    requires 0 <= n <= |s|
    ensures LinkStarts(s)[n..] == LinkStarts(s[n..])
  {
    var t := s[n..];
    forall j | 0 <= j < |t| ensures LinkAt(s, n + j) == LinkAt(t, j) {
      if j + 4 < |t| {
        assert t[j..j + 4] == s[n + j..n + j + 4];
        assert t[j + 4] == s[n + j + 4];
      }
    }
  }

  /** StripLinks removes exactly the positions that links cover: "http" and
      the whole non-blank run after it, and nothing else. */
  lemma StripLinksExact(s: string)
    ensures StripLinks(s) == Uncovered(s, LinkStarts(s), IsNonSpace, 0)
  {
    LinkScanExact(s);
  }

  lemma {:induction false} LinkScanExact(s: string)
    ensures LinkScan(s) == Uncovered(s, LinkStarts(s), IsNonSpace, 0)
    decreases |s|
  {
    if s != [] {
      if LinkAt(s, 0) {
        var n := 4 + RunLength(s[4..], IsNonSpace);
        LinkScanExact(s[n..]);
        SkipCoveredLink(s, n);
      } else {
        LinkScanExact(s[1..]);
        KeepUncoveredLink(s);
      }
    }
  }

  /** A first character that starts no link stays. */
  lemma KeepUncoveredLink(s: string)
    requires s != [] && !LinkAt(s, 0)
    ensures Uncovered(s, LinkStarts(s), IsNonSpace, 0)
            == [s[0]] + Uncovered(s[1..], LinkStarts(s[1..]), IsNonSpace, 0)
  {
    LinkStartsFrom(s, 1);
    UncoveredAfterKeep(s, LinkStarts(s), IsNonSpace);
  }

  /** A link at the front covers "http" and the non-blank run after it. */
  lemma SkipCoveredLink(s: string, n: int)
    requires s != [] && LinkAt(s, 0) && n == 4 + RunLength(s[4..], IsNonSpace)
    ensures n <= |s|
    ensures Uncovered(s, LinkStarts(s), IsNonSpace, 0)
            == Uncovered(s[n..], LinkStarts(s[n..]), IsNonSpace, 0)
  {
    RunChars(s, 4, n, IsNonSpace);
    LinkMatchChars(s, n);
    LinkStartsFrom(s, n);
    UncoveredAfterMatch(s, LinkStarts(s), IsNonSpace, n);
  }

  /** Text without a link is left as it is (an 'h' that starts no link is
      kept), so stripping twice is stripping once. */
  lemma NoLinkUnchanged(s: string)
    requires NoLink(s)
    ensures StripLinks(s) == s
    ensures StripLinks(StripLinks(s)) == StripLinks(s)
  {
    StripLinksExact(s);
    NothingCovered(s, LinkStarts(s), IsNonSpace, 0);
  }

  // ---------------------------------------------------------------------------
  // re.sub(r"[^\x00-\x7F]+", "", caption)
  // ---------------------------------------------------------------------------

  /** Removes every run of non-ASCII characters, which is to say every
      non-ASCII character; ASCII characters are kept in order. */
  function StripNonAscii(s: string): (r: string)
    ensures AllAscii(r)
    ensures Subsequence(r, s) && KeepsClass(r, s, IsAscii)
    ensures forall c :: c in r ==> c in s
    ensures AllAscii(s) ==> r == s
  {
    if s == [] then []
    else if IsAscii(s[0]) then
      var rest := StripNonAscii(s[1..]);
      KeepFirst(s, rest, IsAscii);
      assert AllAscii(s) ==> AllAscii(s[1..]) && s == [s[0]] + s[1..];
      [s[0]] + rest
    else
      var r := StripNonAscii(s[1..]);
      SkipMatch(s, 1, r, IsAscii);
      r
  }

  /** The caption after the four substitutions, in the source's order; the
      result is ASCII (StripNonAscii comes last). */
  function CleanText(caption: string): (r: string)
    ensures AllAscii(r)
  {
    StripNonAscii(StripLinks(StripHashtags(StripMentions(caption))))
  }

  /** Cleaning only deletes characters, keeping the order of the rest, and it
      keeps every newline, since none of the four patterns can match one. */
  lemma CleaningDeletes(caption: string)
    ensures Subsequence(CleanText(caption), caption)
    ensures multiset(CleanText(caption))['\n'] == multiset(caption)['\n']
  {
    var m := StripMentions(caption);
    var h := StripHashtags(m);
    var l := StripLinks(h);
    var r := StripNonAscii(l);
    SubsequenceTrans(r, l, h);
    SubsequenceTrans(r, h, m);
    SubsequenceTrans(r, m, caption);
    assert OutsideMention('\n') && IsSpace('\n') && IsAscii('\n');
    KeepsCount(m, caption, OutsideMention, '\n');
    KeepsCount(h, m, IsSpace, '\n');
    KeepsCount(l, h, IsSpace, '\n');
    KeepsCount(r, l, IsAscii, '\n');
  }

  /** Cleaning never joins or splits lines: the cleaned caption splits on
      '\n' into as many pieces as the caption. */
  lemma CleaningKeepsLineCount(caption: string)
    ensures |Split(CleanText(caption), '\n')| == |Split(caption, '\n')|
  {
    CleaningDeletes(caption);
    NewlinesCount(CleanText(caption), caption);
  }

  /** Strings with as many newlines split into as many lines. */
  lemma NewlinesCount(r: string, s: string)
    requires multiset(r)['\n'] == multiset(s)['\n']
    ensures |Split(r, '\n')| == |Split(s, '\n')|
  {
    SplitCount(r, '\n');
    SplitCount(s, '\n');
  }

  // ---------------------------------------------------------------------------
  // [line.strip() for line in caption.split('\n') if line.strip()]
  // ---------------------------------------------------------------------------

  /** A kept line: not blank, and no blank character at either end. */
  predicate IsStrippedLine(l: string)
  {
    l != [] && !IsSpace(l[0]) && !IsSpace(l[|l| - 1])
  }

  predicate AllStripped(lines: seq<string>)
  {
    forall k :: 0 <= k < |lines| ==> IsStrippedLine(lines[k])
  }

  /** A line of ASCII text: no character outside ASCII and no newline. */
  predicate AsciiLine(l: string)
  {
    AllAscii(l) && '\n' !in l
  }

  predicate AsciiLines(lines: seq<string>)
  {
    forall k :: 0 <= k < |lines| ==> AsciiLine(lines[k])
  }

  /** The stripped pieces that are not blank, in their original order. */
  function KeptLines(pieces: seq<string>): (lines: seq<string>)
    ensures |lines| <= |pieces|
    ensures AllStripped(lines)
    ensures AsciiLines(pieces) ==> AsciiLines(lines)
  {
    if pieces == [] then []
    else
      var l := Trim(pieces[0], Whitespace);
      var rest := KeptLines(pieces[1..]);
      AsciiLinesTail(pieces);
      StrippedAsciiLine(pieces[0]);
      if l != [] then
        ConsStripped(l, rest);
        ConsAscii(AsciiLines(pieces), l, rest);
        [l] + rest
      else rest
  }

  /** Every piece, stripped (StrippedPieceAt). */
  function StrippedPieces(pieces: seq<string>): (r: seq<string>)
    ensures |r| == |pieces|
  {
    if pieces == [] then [] else [Trim(pieces[0], Whitespace)] + StrippedPieces(pieces[1..])
  }

  /** Entry `j` of StrippedPieces is piece `j`, stripped. */
  lemma {:induction false} StrippedPieceAt(pieces: seq<string>, j: int)
    requires 0 <= j < |pieces|
    ensures StrippedPieces(pieces)[j] == Trim(pieces[j], Whitespace)
  {
    if j > 0 {
      StrippedPieceAt(pieces[1..], j - 1);
      assert pieces[1..][j - 1] == pieces[j];
    }
  }

  /** `idx` lists, in increasing order, the positions in `stripped` that
      `lines` were taken from, and it lists every position that is not blank:
      `lines` is `stripped` without its blank entries. */
  predicate Selects(stripped: seq<string>, lines: seq<string>, idx: seq<nat>)
  {
    |idx| == |lines| &&
    (forall k :: 0 <= k < |idx| ==> idx[k] < |stripped| && lines[k] == stripped[idx[k]]) &&
    (forall k, m :: 0 <= k < m < |idx| ==> idx[k] < idx[m]) &&
    (forall j :: 0 <= j < |stripped| && stripped[j] != [] ==> j in idx)
  }

  /** KeptLines loses no line and adds none: line `k` is piece `idx[k]`
      stripped, the positions increase, and every piece that is not blank
      once stripped is among them. */
  lemma KeptLinesIndex(pieces: seq<string>) returns (idx: seq<nat>)
    ensures |idx| == |KeptLines(pieces)|
    ensures forall k :: 0 <= k < |idx| ==>
              idx[k] < |pieces| && KeptLines(pieces)[k] == Trim(pieces[idx[k]], Whitespace)
    ensures forall k, m :: 0 <= k < m < |idx| ==> idx[k] < idx[m]
    ensures forall j :: 0 <= j < |pieces| && Trim(pieces[j], Whitespace) != [] ==> j in idx
  {
    idx := KeptLinesSelect(pieces);
    forall j | 0 <= j < |pieces| ensures StrippedPieces(pieces)[j] == Trim(pieces[j], Whitespace) {
      StrippedPieceAt(pieces, j);
    }
  }

  /** KeptLines is StrippedPieces with the blank entries left out. */
  lemma {:induction false} KeptLinesSelect(pieces: seq<string>) returns (idx: seq<nat>)
    ensures Selects(StrippedPieces(pieces), KeptLines(pieces), idx)
  {
    if pieces == [] {
      idx := [];
    } else {
      var later := KeptLinesSelect(pieces[1..]);
      var first := Trim(pieces[0], Whitespace);
      idx := SelectsCons(first, StrippedPieces(pieces[1..]), KeptLines(pieces[1..]), later);
    }
  }

  /** Putting a stripped piece in front: it is kept at position 0 when it is
      not blank, and every later position moves up by one. */
  lemma SelectsCons(first: string, stripped: seq<string>, lines: seq<string>, later: seq<nat>)
    returns (idx: seq<nat>)
    requires Selects(stripped, lines, later)
    ensures Selects([first] + stripped, if first != [] then [first] + lines else lines, idx)
  {
    var shifted := Shifted(later);
    if first != [] {
      idx := [0] + shifted;
      SelectsKeep(first, stripped, lines, later, shifted);
    } else {
      idx := shifted;
      SelectsSkip(first, stripped, lines, later, shifted);
    }
  }

  /** Every position, one further on. */
  lemma Shifted(later: seq<nat>) returns (shifted: seq<nat>)
    ensures |shifted| == |later| && forall k :: 0 <= k < |later| ==> shifted[k] == later[k] + 1
  {
    shifted := seq(|later|, k requires 0 <= k < |later| => later[k] + 1);
  }

  lemma SelectsSkip(first: string, stripped: seq<string>, lines: seq<string>,
                    later: seq<nat>, shifted: seq<nat>)
    requires first == [] && Selects(stripped, lines, later)
    requires |shifted| == |later| && forall k :: 0 <= k < |later| ==> shifted[k] == later[k] + 1
    ensures Selects([first] + stripped, lines, shifted)
  {
    var all := [first] + stripped;
    forall k | 0 <= k < |shifted| ensures shifted[k] < |all| && lines[k] == all[shifted[k]] {
      assert all[later[k] + 1] == stripped[later[k]];
    }
    forall j | 0 <= j < |all| && all[j] != [] ensures j in shifted {
      assert stripped[j - 1] == all[j];
      var k :| 0 <= k < |later| && later[k] == j - 1;
      assert shifted[k] == j;
    }
  }

  lemma SelectsKeep(first: string, stripped: seq<string>, lines: seq<string>,
                    later: seq<nat>, shifted: seq<nat>)
    requires first != [] && Selects(stripped, lines, later)
    requires |shifted| == |later| && forall k :: 0 <= k < |later| ==> shifted[k] == later[k] + 1
    ensures Selects([first] + stripped, [first] + lines, [0] + shifted)
  {
    var all := [first] + stripped;
    var kept := [first] + lines;
    var idx := [0] + shifted;
    forall k | 0 <= k < |idx| ensures idx[k] < |all| && kept[k] == all[idx[k]] {
      if k > 0 {
        assert idx[k] == later[k - 1] + 1 && kept[k] == lines[k - 1];
        assert all[later[k - 1] + 1] == stripped[later[k - 1]];
      }
    }
    forall k, m | 0 <= k < m < |idx| ensures idx[k] < idx[m] {
      assert idx[m] == later[m - 1] + 1;
      if k > 0 {
        assert idx[k] == later[k - 1] + 1;
      }
    }
    forall j | 0 <= j < |all| && all[j] != [] ensures j in idx {
      if j == 0 {
        assert idx[0] == 0;
      } else {
        assert stripped[j - 1] == all[j];
        var k :| 0 <= k < |later| && later[k] == j - 1;
        assert idx[k + 1] == j;
      }
    }
  }

  lemma AsciiLinesTail(pieces: seq<string>)
    requires pieces != []
    ensures AsciiLines(pieces) ==> AsciiLine(pieces[0]) && AsciiLines(pieces[1..])
  {
    if AsciiLines(pieces) {
      forall j | 0 <= j < |pieces| - 1 ensures AsciiLine(pieces[1..][j]) {
        assert pieces[1..][j] == pieces[j + 1];
      }
    }
  }

  /** Stripping an ASCII line gives an ASCII line. */
  lemma StrippedAsciiLine(s: string)
    ensures AsciiLine(s) ==> AsciiLine(Trim(s, Whitespace))
  {
    if AsciiLine(s) {
      var r := Trim(s, Whitespace);
      forall c | c in r ensures IsAscii(c) && c != '\n' {
        assert c in s;
      }
    }
  }

  /** A stripped line in front of stripped lines. */
  lemma ConsStripped(l: string, rest: seq<string>)
    requires IsStrippedLine(l) && AllStripped(rest)
    ensures AllStripped([l] + rest)
  {
    var r := [l] + rest;
    forall k | 0 <= k < |r| ensures IsStrippedLine(r[k]) {
      if k > 0 {
        assert r[k] == rest[k - 1];
      }
    }
  }

  /** An ASCII line in front of ASCII lines, whenever `ascii` holds. */
  lemma ConsAscii(ascii: bool, l: string, rest: seq<string>)
    requires ascii ==> AsciiLine(l) && AsciiLines(rest)
    ensures ascii ==> AsciiLines([l] + rest)
  {
    if ascii {
      var r := [l] + rest;
      forall k | 0 <= k < |r| ensures AsciiLine(r[k]) {
        if k > 0 {
          assert r[k] == rest[k - 1];
        }
      }
    }
  }

  /** The kept lines of a caption: each one non-blank, stripped, ASCII and
      free of newlines. */
  function CleanLines(caption: string): (lines: seq<string>)
    ensures AllStripped(lines) && AsciiLines(lines)
  {
    var text := CleanText(caption);
    var pieces := Split(text, '\n');
    forall j | 0 <= j < |pieces| ensures AsciiLine(pieces[j]) {
      var i := SplitPieceAt(text, '\n', j);
      assert forall k :: 0 <= k < |pieces[j]| ==> pieces[j][k] == text[i + k];
    }
    KeptLines(pieces)
  }

  // ---------------------------------------------------------------------------
  // '. '.join(lines[:2]) + ('...' if len(lines) > 2 else ''), then .strip()
  // ---------------------------------------------------------------------------

  /** The first two lines joined by ". ", "..." when more lines follow, then
      stripped: no blank character is left at either end (DigestShape: for
      stripped lines the strip changes nothing). */
  function Digest(lines: seq<string>): (r: string)
    ensures r == [] || (!IsSpace(r[0]) && !IsSpace(r[|r| - 1]))
  {
    var shown := if |lines| <= 2 then lines else lines[..2];
    Trim(Join(shown, ". ") + (if |lines| > 2 then Ellipsis else ""), Whitespace)
  }

  /** summarize_caption: `None` and "" give the fixed placeholder; any other
      caption gives the digest of its kept lines. Either way the summary is
      one line of ASCII text with no blank character at either end. */
  function Summarize(caption: Option<string>): (r: string)
    ensures caption == None || caption == Some("") ==> r == NoCaption
    ensures r == [] || (!IsSpace(r[0]) && !IsSpace(r[|r| - 1]))
    ensures AllAscii(r) && '\n' !in r
  {
    if caption.None? || caption.value == [] then
      PlaceholderIsOneStrippedLine();
      NoCaption
    else
      var lines := CleanLines(caption.value);
      DigestIsOneStrippedLine(lines);
      Digest(lines)
  }

  lemma PlaceholderIsOneStrippedLine()
    ensures IsStrippedLine(NoCaption) && AllAscii(NoCaption) && '\n' !in NoCaption
  {
    assert NoCaption[0] == 'N' && NoCaption[|NoCaption| - 1] == '.';
  }

  /** The digest of clean lines is one line of ASCII text, stripped. */
  lemma DigestIsOneStrippedLine(lines: seq<string>)
    requires AllStripped(lines) && AsciiLines(lines)
    ensures var r := Digest(lines);
            && (r == [] || IsStrippedLine(r))
            && AllAscii(r) && '\n' !in r
  {
    DigestShape(lines);
    if |lines| >= 2 {
      var a, b := lines[0], lines[1];
      var tail := if |lines| > 2 then Ellipsis else "";
      assert Digest(lines) == a + ". " + b + tail;
      OneAsciiLine(a, b, tail);
      JoinedEnds(a, b, tail);
    }
  }

  /** Joining two stripped lines, followed by "..." or nothing, gives a
      stripped line. */
  lemma JoinedEnds(a: string, b: string, tail: string)
    requires IsStrippedLine(a) && IsStrippedLine(b)
    requires tail == Ellipsis || tail == ""
    ensures IsStrippedLine(a + ". " + b + tail)
  {
    var r := a + ". " + b + tail;
    assert r[0] == a[0];
    if tail == "" {
      assert r[|r| - 1] == b[|b| - 1];
    } else {
      assert r[|r| - 1] == '.';
    }
  }

  /** Two ASCII lines around ". ", followed by "..." or nothing, make one
      ASCII line. */
  lemma OneAsciiLine(a: string, b: string, tail: string)
    requires AllAscii(a) && AllAscii(b) && '\n' !in a && '\n' !in b
    requires tail == Ellipsis || tail == ""
    ensures AllAscii(a + ". " + b + tail) && '\n' !in a + ". " + b + tail
  {
    var r := a + ". " + b + tail;
    forall c | c in r ensures IsAscii(c) && c != '\n' {
      assert c in a || c in ". " || c in b || c in tail;
    }
  }

  // ---------------------------------------------------------------------------
  // Properties of the summary
  // ---------------------------------------------------------------------------

  /** The final .strip() never changes anything: the digest is exactly the
      first one or two kept lines joined by ". ", followed by "..." when more
      than two lines were kept. */
  lemma DigestShape(lines: seq<string>)
    requires |lines| >= 1 ==> IsStrippedLine(lines[0])
    requires |lines| >= 2 ==> IsStrippedLine(lines[1])
    ensures |lines| == 0 ==> Digest(lines) == ""
    ensures |lines| == 1 ==> Digest(lines) == lines[0]
    ensures |lines| == 2 ==> Digest(lines) == lines[0] + ". " + lines[1]
    ensures |lines| > 2 ==> Digest(lines) == lines[0] + ". " + lines[1] + Ellipsis
  {
    if |lines| == 0 {
      DigestOfNone(lines);
    } else if |lines| == 1 {
      DigestOfOne(lines);
    } else {
      DigestOfSeveral(lines);
    }
  }

  lemma DigestOfNone(lines: seq<string>)
    requires lines == []
    ensures Digest(lines) == ""
  {
    var body := Join(lines, ". ") + "";
    assert body == [];
    TrimOfTrimmed(body, Whitespace);
  }

  lemma DigestOfOne(lines: seq<string>)
    requires |lines| == 1 && IsStrippedLine(lines[0])
    ensures Digest(lines) == lines[0]
  {
    var body := Join(lines, ". ") + "";
    assert body == lines[0];
    TrimOfTrimmed(body, Whitespace);
  }

  lemma DigestOfSeveral(lines: seq<string>)
    requires |lines| >= 2 && IsStrippedLine(lines[0]) && IsStrippedLine(lines[1])
    ensures Digest(lines) == lines[0] + ". " + lines[1] + (if |lines| > 2 then Ellipsis else "")
  {
    var shown := if |lines| == 2 then lines else lines[..2];
    var two := lines[0] + ". " + lines[1];
    assert Join(shown, ". ") == two by {
      assert shown[0] == lines[0] && shown[1..] == [lines[1]];
    }
    var body := two + (if |lines| > 2 then Ellipsis else "");
    assert body[0] == lines[0][0];
    assert body[|body| - 1] == if |lines| > 2 then '.' else lines[1][|lines[1]| - 1];
    TrimOfTrimmed(body, Whitespace);
  }

  /** The digest starts with the first line; with two or more lines it starts
      with the first two joined by ". "; with more than two it ends in "...",
      and with at most two it is the lines joined by ". ". */
  lemma DigestKeepsFirstLines(lines: seq<string>)
    requires |lines| >= 1 ==> IsStrippedLine(lines[0])
    requires |lines| >= 2 ==> IsStrippedLine(lines[1])
    ensures var r := Digest(lines);
            && (|lines| >= 1 ==> lines[0] <= r)
            && (|lines| >= 2 ==> lines[0] + ". " + lines[1] <= r)
            && (|lines| > 2 ==> r[|r| - 3..] == Ellipsis)
            && (|lines| <= 2 ==> r == Join(lines, ". "))
  {
    if |lines| <= 1 {
      DigestShape(lines);
    } else {
      var a, b := lines[0], lines[1];
      var tail := if |lines| > 2 then Ellipsis else "";
      assert Digest(lines) == a + ". " + b + tail by {
        DigestOfSeveral(lines);
      }
      JoinedPrefixes(a, b, tail);
      if |lines| == 2 {
        assert Join(lines, ". ") == a + ". " + b by {
          assert lines[1..] == [b];
        }
      }
    }
  }

  /** `a + ". " + b + tail` starts with `a` and with `a + ". " + b`, and
      ends with `tail`. */
  lemma JoinedPrefixes(a: string, b: string, tail: string)
    ensures a <= a + ". " + b + tail
    ensures a + ". " + b <= a + ". " + b + tail
    ensures (a + ". " + b + tail)[|a + ". " + b + tail| - |tail|..] == tail
  {
    var two := a + ". " + b;
    var r := two + tail;
    assert r[..|two|] == two;
    assert two[..|a|] == a;
    assert r[..|a|] == two[..|two|][..|a|];
  }

  /** The summary starts with the first kept line; with two or more kept
      lines it starts with the first two joined by ". "; with more than two it
      ends in "...", and with at most two it is the kept lines joined by ". ". */
  lemma SummaryKeepsFirstLines(caption: string)
    requires caption != []
    ensures var lines := CleanLines(caption);
            var r := Summarize(Some(caption));
            && (|lines| >= 1 ==> lines[0] <= r)
            && (|lines| >= 2 ==> lines[0] + ". " + lines[1] <= r)
            && (|lines| > 2 ==> r[|r| - 3..] == Ellipsis)
            && (|lines| <= 2 ==> r == Join(lines, ". "))
  {
    SummaryIsDigest(caption);
    DigestKeepsFirstLines(CleanLines(caption));
  }

  /** A non-empty caption is summarised by the digest of its kept lines. */
  lemma SummaryIsDigest(caption: string)
    requires caption != []
    ensures Summarize(Some(caption)) == Digest(CleanLines(caption))
  {
  }

  /** A caption whose every line is only mentions, hashtags and links (or
      blank) summarises to the empty string, not to the placeholder. */
  lemma OnlyTagsGiveEmptySummary(caption: string)
    requires caption != []
    requires CleanLines(caption) == []
    ensures Summarize(Some(caption)) == ""
  {
    SummaryIsDigest(caption);
    DigestOfNone(CleanLines(caption));
  }

  /** A non-empty caption yields the placeholder text only when the
      placeholder is, on its own, the single kept line. */
  lemma PlaceholderOnlyLiterally(caption: string)
    requires caption != []
    requires Summarize(Some(caption)) == NoCaption
    ensures CleanLines(caption) == [NoCaption]
  {
    SummaryIsDigest(caption);
    DigestPlaceholder(CleanLines(caption));
  }

  /** The digest of stripped lines equals the placeholder only for the
      placeholder as the one line: it holds no ". " and does not end in "...". */
  lemma DigestPlaceholder(lines: seq<string>)
    requires AllStripped(lines)
    requires Digest(lines) == NoCaption
    ensures lines == [NoCaption]
  {
    DigestShape(lines);
    if |lines| == 1 {
      assert lines == [lines[0]];
    } else if |lines| >= 2 {
      NotJoinedPlaceholder(lines[0], lines[1], if |lines| > 2 then Ellipsis else "");
    }
  }

  /** No two lines joined by ". " spell the placeholder. */
  lemma NotJoinedPlaceholder(a: string, b: string, tail: string)
    ensures a + ". " + b + tail != NoCaption
  {
    var r := a + ". " + b + tail;
    var k := |a|;
    assert r[k] == '.' && r[k + 1] == ' ';
    if r == NoCaption {
      NoSeparatorInPlaceholder(k);
    }
  }

  /** The placeholder holds no ". " (its one '.' is its last character). */
  lemma NoSeparatorInPlaceholder(k: int)
    requires 0 <= k < |NoCaption| - 1
    ensures NoCaption[k] != '.'
  {
    var head := NoCaption[..|NoCaption| - 1];
    assert head == "No caption provided";
    assert NoCaption[k] == head[k];
  }

  /** Text with no '@' or '#', no link and no non-ASCII character passes the
      four substitutions unchanged. */
  lemma PlainTextIsClean(c: string)
    requires Plain(c)
    ensures CleanText(c) == c
  {
    assert StripMentions(c) == c;
    assert StripHashtags(c) == c;
    NoLinkUnchanged(c);
  }

  /** Clean text that is one stripped line is kept as that one line. */
  lemma SingleLineKept(c: string)
    requires IsStrippedLine(c) && '\n' !in c && CleanText(c) == c
    ensures CleanLines(c) == [c]
  {
    SplitWithoutSeparator(c, '\n');
    TrimOfTrimmed(c, Whitespace);
    assert [c][1..] == [];
    assert KeptLines([c]) == [c];
  }

  /** A caption that is one plain line (no mention, hashtag or link, ASCII
      only, nothing to strip) is its own summary. */
  lemma PlainLineIsOwnSummary(c: string)
    requires IsStrippedLine(c) && Plain(c) && '\n' !in c
    ensures CleanLines(c) == [c]
    ensures Summarize(Some(c)) == c
  {
    PlainTextIsClean(c);
    SingleLineKept(c);
    SummaryKeepsFirstLines(c);
  }

  /** Lines that are already stripped and not blank are all kept, as they are. */
  lemma {:induction false} KeptLinesOfStripped(pieces: seq<string>)
    requires AllStripped(pieces)
    ensures KeptLines(pieces) == pieces
  {
    if pieces != [] {
      TrimOfTrimmed(pieces[0], Whitespace);
      KeptLinesOfStripped(pieces[1..]);
      assert pieces == [pieces[0]] + pieces[1..];
    }
  }

  /** Text that no substitution touches: ASCII, with no '@' or '#', and no
      "http" followed by a non-blank. */
  predicate Plain(s: string)
  {
    AllAscii(s) && '@' !in s && '#' !in s && NoLink(s)
  }

  /** Text without an 'h' holds no link. */
  lemma NoLinkWithoutH(s: string)
    requires 'h' !in s
    ensures NoLink(s)
  {
    forall i | 0 <= i < |s| ensures !LinkAt(s, i) {
      assert s[i] != 'h';
    }
  }

  lemma PlainAcrossLines(s: string, t: string)
    requires Plain(s) && Plain(t)
    ensures Plain(s + "\n" + t)
  {
    var u := s + "\n" + t;
    assert forall x :: x in u ==> x in s || x == '\n' || x in t;
    NoLinkAcrossLines(s, t);
  }

  /** No link spans a newline: "http" holds none, and a newline is blank. */
  lemma NoLinkAcrossLines(s: string, t: string)
    requires NoLink(s) && NoLink(t)
    ensures NoLink(s + "\n" + t)
  {
    var u := s + "\n" + t;
    assert u[|s|] == '\n';
    forall i | 0 <= i < |u| ensures !LinkAt(u, i) {
      if i + 4 < |s| {
        assert u[i..i + 4] == s[i..i + 4] && u[i + 4] == s[i + 4];
        assert !LinkAt(s, i);
      } else if i + 4 == |s| {
        assert !IsNonSpace(u[i + 4]);
      } else if i <= |s| {
        if i + 4 < |u| {
          assert u[i..i + 4][|s| - i] == '\n';
        }
      } else {
        var j := i - |s| - 1;
        if i + 4 < |u| {
          assert u[i..i + 4] == t[j..j + 4] && u[i + 4] == t[j + 4];
        }
        assert !LinkAt(t, j);
      }
    }
  }

  lemma ThreeLinesSplit(a: string, b: string, c: string)
    requires '\n' !in a && '\n' !in b && '\n' !in c
    ensures Split(a + "\n" + b + "\n" + c, '\n') == [a, b, c]
  {
    var tail := b + "\n" + c;
    assert a + "\n" + b + "\n" + c == a + "\n" + tail;
    SplitWithoutSeparator(c, '\n');
    SplitAfterPiece(b, c, '\n');
    SplitAfterPiece(a, tail, '\n');
  }

  lemma ThreePlainLinesClean(a: string, b: string, c: string)
    requires Plain(a) && Plain(b) && Plain(c)
    ensures CleanText(a + "\n" + b + "\n" + c) == a + "\n" + b + "\n" + c
  {
    var tail := b + "\n" + c;
    assert a + "\n" + b + "\n" + c == a + "\n" + tail;
    PlainAcrossLines(b, c);
    PlainAcrossLines(a, tail);
    PlainTextIsClean(a + "\n" + tail);
  }

  /** Three plain lines (see PlainLineIsOwnSummary) are kept as they are. */
  lemma ThreePlainLinesKept(a: string, b: string, c: string)
    requires IsStrippedLine(a) && IsStrippedLine(b) && IsStrippedLine(c)
    requires Plain(a) && Plain(b) && Plain(c)
    requires '\n' !in a && '\n' !in b && '\n' !in c
    ensures CleanLines(a + "\n" + b + "\n" + c) == [a, b, c]
  {
    var t := a + "\n" + b + "\n" + c;
    ThreePlainLinesClean(a, b, c);
    ThreeLinesSplit(a, b, c);
    ThreeStripped(a, b, c);
    KeptLinesOfStripped([a, b, c]);
    assert CleanLines(t) == KeptLines(Split(CleanText(t), '\n'));
  }

  lemma ThreeStripped(a: string, b: string, c: string)
    requires IsStrippedLine(a) && IsStrippedLine(b) && IsStrippedLine(c)
    ensures AllStripped([a, b, c])
  {
    var lines := [a, b, c];
    forall k | 0 <= k < 3 ensures IsStrippedLine(lines[k]) {
      if k == 0 {
        assert lines[k] == a;
      } else if k == 1 {
        assert lines[k] == b;
      } else {
        assert lines[k] == c;
      }
    }
  }

  /** Three plain lines summarise to the first two joined by ". " followed
      by "...". */
  lemma ThreePlainLines(a: string, b: string, c: string)
    requires IsStrippedLine(a) && IsStrippedLine(b) && IsStrippedLine(c)
    requires Plain(a) && Plain(b) && Plain(c)
    requires '\n' !in a && '\n' !in b && '\n' !in c
    ensures Summarize(Some(a + "\n" + b + "\n" + c)) == a + ". " + b + Ellipsis
  {
    var lines := [a, b, c];
    ThreePlainLinesKept(a, b, c);
    assert lines[0] == a && lines[1] == b;
    SummaryOfSeveral(a + "\n" + b + "\n" + c, lines);
  }

  /** A caption kept as more than two lines summarises to the first two
      joined by ". " followed by "...". */
  lemma SummaryOfSeveral(caption: string, lines: seq<string>)
    requires caption != [] && CleanLines(caption) == lines && |lines| > 2
    ensures Summarize(Some(caption)) == lines[0] + ". " + lines[1] + Ellipsis
  {
    SummaryIsDigest(caption);
    DigestShape(lines);
  }

  /** "Hello world\nSecond line\nThird line" summarises to its first two
      lines joined by ". " followed by "...": the 'h' of "Third" starts no
      link, so nothing is removed. */
  lemma HelloWorldSummary(a: string, b: string, c: string)
    requires a == "Hello world" && b == "Second line" && c == "Third line"
    ensures Summarize(Some(a + "\n" + b + "\n" + c)) == a + ". " + b + "..."
  {
    LineWithoutHIsPlain(a);
    LineWithoutHIsPlain(b);
    ThirdLineIsPlain(c);
    ThreePlainLines(a, b, c);
  }

  /** The first two lines of that caption hold no 'h' at all. */
  lemma LineWithoutHIsPlain(l: string)
    requires l == "Hello world" || l == "Second line"
    ensures IsStrippedLine(l) && Plain(l) && '\n' !in l
  {
    assert IsStrippedLine(l) && AllAscii(l) && '@' !in l && '#' !in l && 'h' !in l;
    NoLinkWithoutH(l);
  }

  /** "Third line" holds an 'h', but "hird" is not "http". */
  lemma ThirdLineIsPlain(c: string)
    requires c == "Third line"
    ensures IsStrippedLine(c) && Plain(c) && '\n' !in c
  {
    assert IsStrippedLine(c) && AllAscii(c) && '@' !in c && '#' !in c && '\n' !in c;
    forall i | 0 <= i < |c| ensures !LinkAt(c, i) {
      if i == 1 {
        assert c[1..5][1] == 'i';
      } else {
        assert c[i] != 'h';
      }
    }
  }

  /** Counterexample to "ends with ... only when more than two lines were
      kept": a single line may itself end in "...". */
  lemma EllipsisNotOnlyFromTruncation()
    ensures CleanLines("Wait...") == ["Wait..."]
    ensures Summarize(Some("Wait...")) == "Wait..."
  {
    var c := "Wait...";
    assert c[0] == 'W' && c[|c| - 1] == '.';
    assert '@' !in c && '#' !in c && 'h' !in c && '\n' !in c;
    NoLinkWithoutH(c);
    PlainLineIsOwnSummary(c);
  }
}
