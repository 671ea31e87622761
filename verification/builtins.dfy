/**
 * The parts of Python's built-in `str` and `int` behaviour that app.py relies
 * on, stated over `string` (= seq<char>, one char per Unicode scalar value):
 * `None`, str.isspace, str.strip, str.split with a one-character separator,
 * str.join, the substring test `t in s`, and f-string formatting of a
 * non-negative int.
 */
module Builtins {

  /** A value that may be Python's `None`. */
  datatype Option<+T> = None | Some(value: T)

  // ---------------------------------------------------------------------------
  // Character classes
  // ---------------------------------------------------------------------------

  /** The characters for which Python's str.isspace() holds. The `\s`/`\S`
      classes of `re` on str patterns and str.strip() without an argument use
      this same set. */
  const Whitespace: set<char> := {
    '\t', '\n', '\U{B}', '\U{C}', '\r', '\U{1C}', '\U{1D}', '\U{1E}', '\U{1F}', ' ',
    '\U{85}', '\U{A0}', '\U{1680}',
    '\U{2000}', '\U{2001}', '\U{2002}', '\U{2003}', '\U{2004}', '\U{2005}',
    '\U{2006}', '\U{2007}', '\U{2008}', '\U{2009}', '\U{200A}',
    '\U{2028}', '\U{2029}', '\U{202F}', '\U{205F}', '\U{3000}'
  }

  predicate IsSpace(c: char) { c in Whitespace }

  /** The class `[\x00-\x7F]`. */
  predicate IsAscii(c: char) { c as int < 128 }

  predicate AllAscii(s: string) { forall c :: c in s ==> IsAscii(c) }

  // ---------------------------------------------------------------------------
  // str.strip(chars)
  // ---------------------------------------------------------------------------

  /** `s` without its leading characters from `drop` (str.lstrip). */
  function TrimStart(s: string, drop: set<char>): (r: string)
    ensures |r| <= |s| && r == s[|s| - |r|..]
    ensures forall i :: 0 <= i < |s| - |r| ==> s[i] in drop
    ensures r == [] || r[0] !in drop
  {
    if s != [] && s[0] in drop then TrimStart(s[1..], drop) else s
  }

  /** `s` without its trailing characters from `drop` (str.rstrip). */
  function TrimEnd(s: string, drop: set<char>): (r: string)
    ensures |r| <= |s| && r == s[..|r|]
    ensures forall i :: |r| <= i < |s| ==> s[i] in drop
    ensures r == [] || r[|r| - 1] !in drop
  {
    if s != [] && s[|s| - 1] in drop then TrimEnd(s[..|s| - 1], drop) else s
  }

  /** `r` is the block of `s` starting at index `k`, and every character of
      `s` before or after that block is in `drop`. */
  predicate StrippedAt(s: string, drop: set<char>, r: string, k: int)
  {
    0 <= k <= |s| - |r| && r == s[k..k + |r|] &&
    (forall i :: 0 <= i < k ==> s[i] in drop) &&
    (forall i :: k + |r| <= i < |s| ==> s[i] in drop)
  }

  /** Python's `s.strip(chars)` with `chars` given as the set `drop`; `s.strip()`
      is `Trim(s, Whitespace)`. The result neither starts nor ends with a
      dropped character, it is empty exactly when every character of `s` is
      dropped, and (TrimIsBlock) it is a contiguous block of `s` with only
      dropped characters around it. */
  function Trim(s: string, drop: set<char>): (r: string)
    ensures r == [] || (r[0] !in drop && r[|r| - 1] !in drop)
    ensures r == [] <==> forall i :: 0 <= i < |s| ==> s[i] in drop
    ensures forall c :: c in r ==> c in s
  {
    var t := TrimStart(s, drop);
    var r := TrimEnd(t, drop);
    TrimEmptyIff(s, t, r, drop);
    PrefixOfSuffix(s, t, r);
    r
  }

  /** Trim cuts only dropped characters, and only from the two ends: its
      result is the block of `s` at index `k`, with dropped characters alone
      before and after it. */
  lemma TrimIsBlock(s: string, drop: set<char>) returns (k: nat)
    ensures StrippedAt(s, drop, Trim(s, drop), k)
  {
    var t := TrimStart(s, drop);
    var r := TrimEnd(t, drop);
    assert Trim(s, drop) == r;
    StrippedBlock(s, t, r, drop);
    k := |s| - |t|;
  }

  /** A prefix `r` of a suffix `t` of `s`, where only dropped characters were
      cut on either side, is a stripped block of `s`. */
  lemma StrippedBlock(s: string, t: string, r: string, drop: set<char>)
    requires |t| <= |s| && t == s[|s| - |t|..]
    requires forall i :: 0 <= i < |s| - |t| ==> s[i] in drop
    requires |r| <= |t| && r == t[..|r|]
    requires forall i :: |r| <= i < |t| ==> t[i] in drop
    ensures StrippedAt(s, drop, r, |s| - |t|)
  {
    var k := |s| - |t|;
    PrefixOfSuffix(s, t, r);
    forall i | k + |r| <= i < |s| ensures s[i] in drop {
      assert s[i] == t[i - k];
    }
  }

  /** A prefix of a suffix of `s` is the slice of `s` between them. */
  lemma PrefixOfSuffix(s: string, t: string, r: string)
    requires |t| <= |s| && t == s[|s| - |t|..]
    requires |r| <= |t| && r == t[..|r|]
    ensures r == s[|s| - |t|..|s| - |t| + |r|]
    ensures forall c :: c in r ==> c in s
  {
    var k := |s| - |t|;
    forall i | 0 <= i < |r| ensures r[i] == s[k + i] {
      assert r[i] == t[i] && t[i] == s[k + i];
    }
    assert r == s[k..k + |r|];
    SliceChars(s, k, k + |r|);
  }

  /** Every character of a slice is a character of the string. */
  lemma SliceChars(s: string, lo: int, hi: int)
    requires 0 <= lo <= hi <= |s|
    ensures forall c :: c in s[lo..hi] ==> c in s
  {
    forall c | c in s[lo..hi] ensures c in s {
      var i :| 0 <= i < hi - lo && s[lo..hi][i] == c;
      assert s[lo + i] == c;
    }
  }

  /** Stripping leaves nothing exactly when every character is dropped:
      lstrip stops at a kept character, which rstrip then cannot pass. */
  lemma TrimEmptyIff(s: string, t: string, r: string, drop: set<char>)
    requires |t| <= |s| && t == s[|s| - |t|..]
    requires forall i :: 0 <= i < |s| - |t| ==> s[i] in drop
    requires t == [] || t[0] !in drop
    requires |r| <= |t| && r == t[..|r|]
    requires forall i :: |r| <= i < |t| ==> t[i] in drop
    ensures r == [] <==> forall i :: 0 <= i < |s| ==> s[i] in drop
  {
    var k := |s| - |t|;
    if r != [] {
      assert s[k] == t[0] == r[0];
    }
  }

  /** The stripped string is a substring of the original. */
  lemma TrimContained(s: string, drop: set<char>)
    ensures Contains(s, Trim(s, drop))
  {
    var t := TrimStart(s, drop);
    var r := TrimEnd(t, drop);
    assert r == Trim(s, drop);
    PrefixOfSuffix(s, t, r);
    assert OccursAt(s, r, |s| - |t|);
    OccursAtContains(s, r, |s| - |t|);
  }

  /** Stripping a string that already has no dropped character at either end
      leaves it unchanged. */
  lemma TrimOfTrimmed(s: string, drop: set<char>)
    requires s == [] || (s[0] !in drop && s[|s| - 1] !in drop)
    ensures Trim(s, drop) == s
  {
  }

  // ---------------------------------------------------------------------------
  // t in s
  // ---------------------------------------------------------------------------

  /** `t` occurs in `s` starting at index `i`. */
  predicate OccursAt(s: string, t: string, i: int)
  {
    0 <= i <= |s| - |t| && s[i..i + |t|] == t
  }

  /** Python's `t in s` for two strings: the empty string is in every string,
      and nothing longer than `s` is in it. */
  predicate Contains(s: string, t: string)
    ensures t == [] ==> Contains(s, t)
    ensures Contains(s, t) ==> |t| <= |s|
    decreases |s|
  {
    |t| <= |s| && (s[..|t|] == t || (s != [] && Contains(s[1..], t)))
  }

  lemma {:induction false} OccursAtContains(s: string, t: string, i: int)
    requires OccursAt(s, t, i)
    ensures Contains(s, t)
    decreases i
  {
    if i > 0 {
      assert s[1..][i - 1..i - 1 + |t|] == s[i..i + |t|];
      OccursAtContains(s[1..], t, i - 1);
    }
  }

  lemma {:induction false} ContainsOccurs(s: string, t: string) returns (i: nat)
    requires Contains(s, t)
    ensures OccursAt(s, t, i)
    decreases |s|
  {
    if s[..|t|] == t {
      i := 0;
    } else {
      var j := ContainsOccurs(s[1..], t);
      assert s[1..][j..j + |t|] == s[j + 1..j + 1 + |t|];
      i := j + 1;
    }
  }

  /** `Contains` is the substring relation: both directions. */
  lemma ContainsIff(s: string, t: string)
    ensures Contains(s, t) <==> exists i :: OccursAt(s, t, i)
  {
    if Contains(s, t) {
      var i := ContainsOccurs(s, t);
    }
    forall i | OccursAt(s, t, i) ensures Contains(s, t) {
      OccursAtContains(s, t, i);
    }
  }

  /** A string that occurs in a block of `s` occurs in `s`. */
  lemma ContainsInSlice(s: string, lo: int, hi: int, t: string)
    requires 0 <= lo <= hi <= |s| && Contains(s[lo..hi], t)
    ensures Contains(s, t)
  {
    var u := s[lo..hi];
    var i := ContainsOccurs(u, t);
    forall k | 0 <= k < |t| ensures s[lo + i..lo + i + |t|][k] == t[k] {
      assert t[k] == u[i..i + |t|][k] == u[i + k];
    }
    assert s[lo + i..lo + i + |t|] == t;
    OccursAtContains(s, t, lo + i);
  }

  /** Python's `s.startswith(p)`. */
  predicate StartsWith(s: string, p: string)
  {
    |p| <= |s| && s[..|p|] == p
  }

  /** Python's `s.endswith(p)`. */
  predicate EndsWith(s: string, p: string)
  {
    |p| <= |s| && s[|s| - |p|..] == p
  }

  // ---------------------------------------------------------------------------
  // str.split(sep) and str.join
  // ---------------------------------------------------------------------------

  /** Index of the first `c` in `s` (str.find), or |s| when there is none. */
  function IndexOf(s: string, c: char): (i: nat)
    ensures i <= |s|
    ensures i < |s| ==> s[i] == c
  {
    if s == [] || s[0] == c then 0 else 1 + IndexOf(s[1..], c)
  }

  /** No `c` comes before IndexOf(s, c). */
  lemma {:induction false} IndexOfFirst(s: string, c: char)
    ensures c !in s[..IndexOf(s, c)]
  {
    if s != [] && s[0] != c {
      IndexOfFirst(s[1..], c);
      assert s[..IndexOf(s, c)] == [s[0]] + s[1..][..IndexOf(s[1..], c)];
    }
  }

  /** Python's `s.split(sep)` for a one-character separator: the maximal
      separator-free blocks of `s`, in order; an empty `s` gives `[""]`. */
  function Split(s: string, sep: char): (pieces: seq<string>)
    ensures |pieces| >= 1
    ensures forall k :: 0 <= k < |pieces| ==> sep !in pieces[k]
    decreases |s|
  {
    var i := IndexOf(s, sep);
    IndexOfFirst(s, sep);
    if i == |s| then [s] else [s[..i]] + Split(s[i + 1..], sep)
  }

  /** Python's `sep.join(pieces)`; JoinSplit and SplitJoin make it the
      inverse of Split. */
  function Join(pieces: seq<string>, sep: string): string
  {
    if |pieces| == 0 then []
    else if |pieces| == 1 then pieces[0]
    else pieces[0] + sep + Join(pieces[1..], sep)
  }

  /** A string without the separator splits into itself alone. */
  lemma SplitWithoutSeparator(s: string, sep: char)
    requires sep !in s
    ensures Split(s, sep) == [s]
  {
    assert IndexOf(s, sep) == |s|;
  }

  /** A separator-free piece followed by the separator splits off first. */
  lemma SplitAfterPiece(a: string, b: string, sep: char)
    requires sep !in a
    ensures Split(a + [sep] + b, sep) == [a] + Split(b, sep)
  {
    var s := a + [sep] + b;
    assert IndexOf(s, sep) == |a| by {
      IndexOfFirst(s, sep);
      assert s[|a|] == sep;
      assert s[..|a|] == a;
    }
    assert s[..|a|] == a && s[|a| + 1..] == b;
  }

  /** Joining the pieces back with the separator gives the original string. */
  lemma {:induction false} JoinSplit(s: string, sep: char)
    ensures Join(Split(s, sep), [sep]) == s
    decreases |s|
  {
    var i := IndexOf(s, sep);
    if i < |s| {
      JoinSplit(s[i + 1..], sep);
      var rest := Split(s[i + 1..], sep);
      assert Split(s, sep) == [s[..i]] + rest;
      assert ([s[..i]] + rest)[1..] == rest;
      assert s == s[..i] + [sep] + s[i + 1..];
    }
  }

  /** Splitting pieces that hold no separator, joined by it, gives them back. */
  lemma {:induction false} SplitJoin(pieces: seq<string>, sep: char)
    requires |pieces| >= 1 && forall k :: 0 <= k < |pieces| ==> sep !in pieces[k]
    ensures Split(Join(pieces, [sep]), sep) == pieces
    decreases |pieces|
  {
    if |pieces| == 1 {
      SplitWithoutSeparator(pieces[0], sep);
    } else {
      var rest := pieces[1..];
      SplitJoin(rest, sep);
      SplitAfterPiece(pieces[0], Join(rest, [sep]), sep);
      assert pieces == [pieces[0]] + rest;
    }
  }

  /** Where a piece of a split sits in the split string. */
  lemma {:induction false} SplitPieceAt(s: string, sep: char, k: int) returns (j: nat)
    requires 0 <= k < |Split(s, sep)|
    ensures OccursAt(s, Split(s, sep)[k], j)
    decreases |s|, 1
  {
    if IndexOf(s, sep) == |s| {
      SplitWholeAt(s, sep);
      j := 0;
    } else if k == 0 {
      SplitFirstAt(s, sep);
      j := 0;
    } else {
      j := SplitLaterAt(s, sep, k);
    }
  }

  lemma SplitWholeAt(s: string, sep: char)
    requires IndexOf(s, sep) == |s|
    ensures |Split(s, sep)| == 1 && OccursAt(s, Split(s, sep)[0], 0)
  {
    assert s[0..|s|] == s;
  }

  lemma SplitFirstAt(s: string, sep: char)
    requires IndexOf(s, sep) < |s|
    ensures OccursAt(s, Split(s, sep)[0], 0)
  {
    SplitUnfold(s, sep);
    assert s[0..IndexOf(s, sep)] == s[..IndexOf(s, sep)];
  }

  lemma {:induction false} SplitLaterAt(s: string, sep: char, k: int) returns (j: nat)
    requires IndexOf(s, sep) < |s| && 1 <= k < |Split(s, sep)|
    ensures OccursAt(s, Split(s, sep)[k], j)
    decreases |s|, 0
  {
    var i := IndexOf(s, sep);
    var rest := s[i + 1..];
    SplitUnfold(s, sep);
    var j' := SplitPieceAt(rest, sep, k - 1);
    j := i + 1 + j';
    ShiftPiece(s, i, Split(s, sep), Split(rest, sep), k, j');
  }

  /** Piece `k` of `[s[..i]] + restPieces` is piece `k - 1` of `restPieces`;
      found at `j'` in `s[i + 1..]`, it is found at `i + 1 + j'` in `s`. */
  lemma ShiftPiece(s: string, i: nat, pieces: seq<string>, restPieces: seq<string>, k: int, j': nat)
    requires i < |s| && pieces == [s[..i]] + restPieces && 1 <= k < |pieces|
    requires OccursAt(s[i + 1..], restPieces[k - 1], j')
    ensures OccursAt(s, pieces[k], i + 1 + j')
  {
    assert pieces[k] == restPieces[k - 1];
    OccursInSuffix(s, i + 1, restPieces[k - 1], j');
  }

  /** When `s` holds the separator, the pieces are what precedes its first
      occurrence followed by the pieces of what follows it. */
  lemma SplitUnfold(s: string, sep: char)
    requires IndexOf(s, sep) < |s|
    ensures Split(s, sep) == [s[..IndexOf(s, sep)]] + Split(s[IndexOf(s, sep) + 1..], sep)
  {
  }

  /** An occurrence in the suffix `s[d..]` is an occurrence in `s`, `d` further on. */
  lemma OccursInSuffix(s: string, d: nat, t: string, j: nat)
    requires d <= |s| && OccursAt(s[d..], t, j)
    ensures OccursAt(s, t, d + j)
  {
    var rest := s[d..];
    forall m | 0 <= m < |t| ensures s[d + j + m] == t[m] {
      assert rest[j + m] == t[m];
    }
  }

  /** `s.split(sep)` has one piece more than `s` has separators. */
  lemma {:induction false} SplitCount(s: string, sep: char)
    ensures |Split(s, sep)| == multiset(s)[sep] + 1
    decreases |s|
  {
    var i := IndexOf(s, sep);
    IndexOfFirst(s, sep);
    if i == |s| {
      assert s[..i] == s;
    } else {
      SplitUnfold(s, sep);
      SplitCount(s[i + 1..], sep);
      CountAfterFirst(s, i, sep);
    }
  }

  /** The first `sep` of `s` at index `i` is one of its separators; the rest
      follow it. */
  lemma CountAfterFirst(s: string, i: nat, sep: char)
    requires i < |s| && s[i] == sep && sep !in s[..i]
    ensures multiset(s)[sep] == 1 + multiset(s[i + 1..])[sep]
  {
    assert s == s[..i] + [sep] + s[i + 1..];
  }

  /** Every piece of a split occurs in the split string. */
  lemma SplitPiecesOccur(s: string, sep: char, k: int)
    requires 0 <= k < |Split(s, sep)|
    ensures Contains(s, Split(s, sep)[k])
  {
    var j := SplitPieceAt(s, sep, k);
    OccursAtContains(s, Split(s, sep)[k], j);
  }

  // ---------------------------------------------------------------------------
  // Deleting characters (what re.sub(pattern, "", s) does)
  // ---------------------------------------------------------------------------

  /** `r` is `s` with some characters deleted and the others kept in order. */
  predicate Subsequence(r: string, s: string)
    decreases |s|
  {
    if s == [] then r == []
    else (r != [] && r[0] == s[0] && Subsequence(r[1..], s[1..])) || Subsequence(r, s[1..])
  }

  /** The characters of `s` that are of the class `keep`, in order. */
  function ClassChars(s: string, keep: char -> bool): string
  {
    if s == [] then [] else (if keep(s[0]) then [s[0]] else []) + ClassChars(s[1..], keep)
  }

  /** `r` holds the characters of the class `keep` that `s` holds, in the
      same order and as often (ClassCount). */
  predicate KeepsClass(r: string, s: string, keep: char -> bool)
  {
    ClassChars(r, keep) == ClassChars(s, keep)
  }

  /** A string holds a character of the class as often as its characters of
      the class do. */
  lemma {:induction false} ClassCount(s: string, keep: char -> bool, c: char)
    requires keep(c)
    ensures multiset(ClassChars(s, keep))[c] == multiset(s)[c]
  {
    if s != [] {
      ClassCount(s[1..], keep, c);
      assert s == [s[0]] + s[1..];
    }
  }

  /** Strings that keep a class hold each of its characters as often. */
  lemma KeepsCount(r: string, s: string, keep: char -> bool, c: char)
    requires KeepsClass(r, s, keep) && keep(c)
    ensures multiset(r)[c] == multiset(s)[c]
  {
    ClassCount(r, keep, c);
    ClassCount(s, keep, c);
  }

  /** Deleting the first `n` characters, then some of the rest, deletes
      characters of `s`. */
  lemma {:induction false} SubsequenceAfter(r: string, s: string, n: int)
    requires 0 <= n <= |s| && Subsequence(r, s[n..])
    ensures Subsequence(r, s)
    decreases n
  {
    if n == 0 {
      assert s[0..] == s;
    } else {
      assert s[1..][n - 1..] == s[n..];
      SubsequenceAfter(r, s[1..], n - 1);
    }
  }

  /** Keeping the first character in front of a subsequence of the rest. */
  lemma SubsequenceCons(s: string, rest: string)
    requires s != [] && Subsequence(rest, s[1..])
    ensures Subsequence([s[0]] + rest, s)
  {
    assert ([s[0]] + rest)[1..] == rest;
  }

  /** Deleting characters twice deletes characters. */
  lemma {:induction false} SubsequenceTrans(a: string, b: string, c: string)
    requires Subsequence(a, b) && Subsequence(b, c)
    ensures Subsequence(a, c)
    decreases |c|
  {
    if c != [] {
      if Subsequence(b, c[1..]) {
        SubsequenceTrans(a, b, c[1..]);
      } else if a != [] && a[0] == b[0] && Subsequence(a[1..], b[1..]) {
        SubsequenceTrans(a[1..], b[1..], c[1..]);
      } else {
        SubsequenceTrans(a, b[1..], c[1..]);
      }
    }
  }

  /** Deleting a prefix that holds no character of the class keeps the class. */
  lemma KeepsClassAfter(r: string, s: string, n: int, keep: char -> bool)
    requires 0 <= n <= |s| && KeepsClass(r, s[n..], keep)
    requires forall i :: 0 <= i < n ==> !keep(s[i])
    ensures KeepsClass(r, s, keep)
  {
    ClassCharsAfter(s, n, keep);
  }

  /** A prefix with no character of the class adds none. */
  lemma {:induction false} ClassCharsAfter(s: string, n: int, keep: char -> bool)
    requires 0 <= n <= |s| && forall i :: 0 <= i < n ==> !keep(s[i])
    ensures ClassChars(s, keep) == ClassChars(s[n..], keep)
    decreases n
  {
    if n > 0 {
      assert s[1..][n - 1..] == s[n..];
      ClassCharsAfter(s[1..], n - 1, keep);
    }
  }

  /** Keeping the first character keeps the class. */
  lemma KeepsClassCons(s: string, rest: string, keep: char -> bool)
    requires s != [] && KeepsClass(rest, s[1..], keep)
    ensures KeepsClass([s[0]] + rest, s, keep)
  {
    assert ([s[0]] + rest)[1..] == rest;
  }

  // ---------------------------------------------------------------------------
  // f"{n}" for a non-negative int
  // ---------------------------------------------------------------------------

  predicate IsDigit(c: char) { '0' <= c <= '9' }

  function DigitChar(d: nat): (c: char)
    requires d < 10
    ensures IsDigit(c) && c as int - '0' as int == d
  {
    ('0' as int + d) as char
  }

  /** The decimal numeral Python prints for `n`: digits only, no leading zero. */
  function Decimal(n: nat): (s: string)
    ensures |s| >= 1 && (s[0] == '0' ==> n == 0)
    ensures forall i :: 0 <= i < |s| ==> IsDigit(s[i])
  {
    if n < 10 then [DigitChar(n)] else Decimal(n / 10) + [DigitChar(n % 10)]
  }

  /** The number a string of decimal digits denotes (Python's int(s)). */
  function DecimalValue(s: string): nat
    requires forall i :: 0 <= i < |s| ==> IsDigit(s[i])
  {
    if s == [] then 0
    else
      assert IsDigit(s[|s| - 1]);
      DecimalValue(s[..|s| - 1]) * 10 + (s[|s| - 1] as int - '0' as int)
  }

  /** int(f"{n}") == n. */
  lemma {:induction false} DecimalRoundTrip(n: nat)
    ensures DecimalValue(Decimal(n)) == n
  {
    if n >= 10 {
      DecimalRoundTrip(n / 10);
      var s := Decimal(n);
      assert s[..|s| - 1] == Decimal(n / 10);
    }
  }

  /** Different numbers print differently. */
  lemma DecimalInjective(m: nat, n: nat)
    requires Decimal(m) == Decimal(n)
    ensures m == n
  {
    DecimalRoundTrip(m);
    DecimalRoundTrip(n);
  }
}
