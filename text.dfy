/**
 * String primitives the lifecycle engine relies on, written out the way the
 * Python interpreter behaves: `str.split` on one character (with and without
 * a split limit), `str.join`, `startswith`, the `in` substring test, string
 * comparison (code-point lexicographic order), `str.strip()` and `str.upper()`
 * restricted to ASCII, and the character classes used by `isalpha`/`isdigit`.
 */
module Text {

  // ---------------------------------------------------------------------------
  // Prefixes and substrings
  // ---------------------------------------------------------------------------

  /** `s.startswith(p)` */
  predicate StartsWith(s: string, p: string) {
    |p| <= |s| && s[..|p|] == p
  }

  /** `p in s` for strings: `p` occurs somewhere in `s`. */
  predicate Contains(s: string, p: string)
    decreases |s|
  {
    StartsWith(s, p) || (s != [] && Contains(s[1..], p))
  }

  /** A pattern that occurs in `s` has all its characters in `s`. */
  lemma {:induction false} ContainsChars(s: string, p: string, k: nat)
    requires Contains(s, p) && k < |p|
    ensures p[k] in s
    decreases |s|
  {
    if StartsWith(s, p) {
      assert s[k] == p[k];
    } else {
      ContainsChars(s[1..], p, k);
      assert p[k] in s[1..];
    }
  }

  /**
   * When the pattern ends with a character `y` lacks, an occurrence in `x + y`
   * cannot reach into `y`, so it is an occurrence in `x`.
   */
  lemma {:induction false} ContainsLeft(x: string, y: string, p: string)
    requires p != [] && p[|p| - 1] !in y
    requires Contains(x + y, p)
    ensures Contains(x, p)
    decreases |x|
  {
    if x == [] {
      assert x + y == y;
      ContainsChars(y, p, |p| - 1);
    } else if StartsWith(x + y, p) {
      if |p| > |x| {
        assert false;
      }
      assert x[..|p|] == (x + y)[..|p|];
    } else {
      assert (x + y)[1..] == x[1..] + y;
      ContainsLeft(x[1..], y, p);
    }
  }

  /** An occurrence in a part is an occurrence in the whole. */
  lemma {:induction false} ContainsWithin(x: string, y: string, z: string, p: string)
    requires Contains(y, p)
    ensures Contains(x + y + z, p)
    decreases |x| + |y|
  {
    if x != [] {
      assert (x + y + z)[1..] == x[1..] + y + z;
      ContainsWithin(x[1..], y, z, p);
    } else if StartsWith(y, p) {
      assert (x + y + z)[..|p|] == y[..|p|];
    } else {
      assert (x + y + z)[1..] == [] + y[1..] + z;
      ContainsWithin([], y[1..], z, p);
    }
  }

  /** A pattern with a character `s` lacks does not occur in `s`. */
  lemma {:induction false} NotContainsMissing(s: string, p: string, k: nat)
    requires k < |p| && p[k] !in s
    ensures !Contains(s, p)
    decreases |s|
  {
    if |p| <= |s| {
      assert s[..|p|][k] == s[k];
    }
    if s != [] {
      assert forall ch :: ch in s[1..] ==> ch in s;
      NotContainsMissing(s[1..], p, k);
    }
  }

  /** A pattern longer than `s` does not occur in it. */
  lemma {:induction false} NotContainsShort(s: string, p: string)
    requires |s| < |p|
    ensures !Contains(s, p)
    decreases |s|
  {
    if s != [] {
      NotContainsShort(s[1..], p);
    }
  }

  /**
   * Appending text that lacks the pattern's last character cannot create an
   * occurrence of the pattern.
   */
  lemma {:induction false} NotContainsAppend(x: string, y: string, p: string)
    requires p != [] && p[|p| - 1] !in y && !Contains(x, p)
    ensures !Contains(x + y, p)
    decreases |x|
  {
    if x == [] {
      assert x + y == y;
      NotContainsMissing(y, p, |p| - 1);
    } else {
      if |p| <= |x| + |y| {
        if |p| <= |x| {
          assert (x + y)[..|p|] == x[..|p|];
        } else {
          assert (x + y)[..|p|][|p| - 1] == y[|p| - 1 - |x|];
        }
      }
      assert (x + y)[1..] == x[1..] + y;
      NotContainsAppend(x[1..], y, p);
    }
  }

  /**
   * First index at which `p` occurs in `s`; used for `s.split(p)` with a
   * multi-character separator.
   */
  function FindFrom(s: string, p: string): (r: nat)
    requires Contains(s, p)
    ensures r + |p| <= |s| && StartsWith(s[r..], p)
    ensures forall j :: 0 <= j < r ==> !StartsWith(s[j..], p)
    decreases |s|
  {
    if StartsWith(s, p) then 0
    else
      var r := 1 + FindFrom(s[1..], p);
      assert forall j :: 1 <= j < r ==> s[j..] == s[1..][j - 1..];
      r
  }

  /**
   * `s.split(p)[1]` for a non-empty separator `p` that occurs in `s`: the text
   * after the first occurrence, up to the next non-overlapping occurrence.
   */
  function AfterFirst(s: string, p: string): (r: string)
    requires p != [] && Contains(s, p)
  {
    var rest := s[FindFrom(s, p) + |p|..];
    if Contains(rest, p) then rest[..FindFrom(rest, p)] else rest
  }

  /** `(p + t).split(p)[1]` is `t` when `t` lacks the last character of `p`. */
  lemma AfterPrefix(p: string, t: string)
    requires p != [] && p[|p| - 1] !in t
    ensures Contains(p + t, p) && AfterFirst(p + t, p) == t
  {
    assert (p + t)[..|p|] == p;
    assert (p + t)[|p|..] == t;
    NotContainsMissing(t, p, |p| - 1);
  }

  // ---------------------------------------------------------------------------
  // Splitting on one character and joining back
  // ---------------------------------------------------------------------------

  /** `s.split(c)`: the maximal pieces between occurrences of `c`. */
  function Split(s: string, c: char): (parts: seq<string>)
    ensures |parts| >= 1
    decreases |s|
  {
    if s == [] then [""]
    else
      var rest := Split(s[1..], c);
      if s[0] == c then [""] + rest else [[s[0]] + rest[0]] + rest[1..]
  }

  /** `c.join(parts)` */
  function Join(parts: seq<string>, c: char): string
    decreases |parts|
  {
    if |parts| == 0 then ""
    else if |parts| == 1 then parts[0]
    else parts[0] + [c] + Join(parts[1..], c)
  }

  /** No piece produced by `split` contains the separator. */
  lemma {:induction false} SplitPartsFree(s: string, c: char)
    ensures forall k :: 0 <= k < |Split(s, c)| ==> c !in Split(s, c)[k]
    decreases |s|
  {
    if s != [] {
      SplitPartsFree(s[1..], c);
    }
  }

  /** A string without the separator splits into itself. */
  lemma {:induction false} SplitNoSeparator(s: string, c: char)
    requires c !in s
    ensures Split(s, c) == [s]
    decreases |s|
  {
    if s != [] {
      SplitNoSeparator(s[1..], c);
      assert [s[0]] + s[1..] == s;
    }
  }

  /** Splitting distributes over a separator: the split of `x + c + y`. */
  lemma {:induction false} SplitAround(x: string, c: char, y: string)
    ensures Split(x + [c] + y, c) == Split(x, c) + Split(y, c)
    decreases |x|
  {
    if x == [] {
      assert x + [c] + y == [c] + y;
      assert ([c] + y)[1..] == y;
    } else {
      assert (x + [c] + y)[1..] == x[1..] + [c] + y;
      SplitAround(x[1..], c, y);
    }
  }

  /** `c.join(s.split(c)) == s` */
  lemma {:induction false} JoinSplit(s: string, c: char)
    ensures Join(Split(s, c), c) == s
    decreases |s|
  {
    if s != [] {
      var rest := Split(s[1..], c);
      JoinSplit(s[1..], c);
      if s[0] != c {
        var parts := [[s[0]] + rest[0]] + rest[1..];
        if |rest| > 1 {
          assert parts[1..] == rest[1..];
          assert Join(rest, c) == rest[0] + [c] + Join(rest[1..], c);
        }
      } else {
        var parts := [""] + rest;
        assert parts[1..] == rest;
      }
    }
  }

  /** A pattern inside one part occurs in the joined string. */
  lemma {:induction false} JoinContains(parts: seq<string>, c: char, k: nat, p: string)
    requires k < |parts| && Contains(parts[k], p)
    ensures Contains(Join(parts, c), p)
    decreases |parts|
  {
    if |parts| == 1 {
      assert Join(parts, c) == parts[0];
    } else if k == 0 {
      ContainsWithin("", parts[0], [c] + Join(parts[1..], c), p);
      assert "" + parts[0] + ([c] + Join(parts[1..], c)) == Join(parts, c);
    } else {
      JoinContains(parts[1..], c, k - 1, p);
      ContainsWithin(parts[0] + [c], Join(parts[1..], c), "", p);
      assert parts[0] + [c] + Join(parts[1..], c) + "" == Join(parts, c);
    }
  }

  /** A pattern inside one piece of a split occurs in the whole string. */
  lemma PartContained(s: string, c: char, k: nat, p: string)
    requires k < |Split(s, c)| && Contains(Split(s, c)[k], p)
    ensures Contains(s, p)
  {
    JoinSplit(s, c);
    JoinContains(Split(s, c), c, k, p);
  }

  /** Splitting a join of separator-free pieces gives the pieces back. */
  lemma {:induction false} SplitJoin(parts: seq<string>, c: char)
    requires |parts| >= 1
    requires forall k :: 0 <= k < |parts| ==> c !in parts[k]
    ensures Split(Join(parts, c), c) == parts
    decreases |parts|
  {
    if |parts| == 1 {
      SplitNoSeparator(parts[0], c);
    } else {
      assert forall k :: 0 <= k < |parts| - 1 ==> parts[1..][k] == parts[k + 1];
      SplitJoin(parts[1..], c);
      SplitJoinStep(parts, c);
    }
  }

  lemma SplitJoinStep(parts: seq<string>, c: char)
    requires |parts| >= 2 && c !in parts[0]
    requires Split(Join(parts[1..], c), c) == parts[1..]
    ensures Split(Join(parts, c), c) == parts
  {
    assert Join(parts, c) == parts[0] + [c] + Join(parts[1..], c);
    SplitAround(parts[0], c, Join(parts[1..], c));
    SplitNoSeparator(parts[0], c);
    assert [parts[0]] + parts[1..] == parts;
  }

  /** A text of whole lines: every line followed by a newline. */
  function Lines(ls: seq<string>): string
    decreases |ls|
  {
    if ls == [] then "" else ls[0] + "\n" + Lines(ls[1..])
  }

  /** `text.split('\n')` of whole lines: the lines, then the empty piece after the last newline. */
  lemma {:induction false} LinesSplit(ls: seq<string>)
    requires forall k :: 0 <= k < |ls| ==> '\n' !in ls[k]
    ensures Split(Lines(ls), '\n') == ls + [""]
    decreases |ls|
  {
    if ls != [] {
      LinesSplit(ls[1..]);
      assert Lines(ls) == ls[0] + ['\n'] + Lines(ls[1..]);
      SplitAround(ls[0], '\n', Lines(ls[1..]));
      SplitNoSeparator(ls[0], '\n');
      assert ls == [ls[0]] + ls[1..];
    }
  }

  /** Every line occurs in the text. */
  lemma {:induction false} LinesContains(ls: seq<string>, k: nat, p: string)
    requires k < |ls| && Contains(ls[k], p)
    ensures Contains(Lines(ls), p)
    decreases |ls|
  {
    if k == 0 {
      ContainsWithin("", ls[0], "\n" + Lines(ls[1..]), p);
      assert "" + ls[0] + ("\n" + Lines(ls[1..])) == Lines(ls);
    } else {
      LinesContains(ls[1..], k - 1, p);
      ContainsWithin(ls[0] + "\n", Lines(ls[1..]), "", p);
      assert ls[0] + "\n" + Lines(ls[1..]) + "" == Lines(ls);
    }
  }

  /** A pattern without the separator that occurs in `s` occurs in one piece of `s.split(c)`. */
  lemma {:induction false} ContainsSomePart(s: string, c: char, p: string)
    requires c !in p && Contains(s, p)
    ensures exists k :: 0 <= k < |Split(s, c)| && Contains(Split(s, c)[k], p)
    decreases |s|
  {
    var parts := Split(s, c);
    if StartsWith(s, p) {
      PrefixInFirstPart(s, c, p);
      assert Contains(parts[0], p);
    } else {
      var rest := Split(s[1..], c);
      ContainsSomePart(s[1..], c, p);
      var k :| 0 <= k < |rest| && Contains(rest[k], p);
      if s[0] == c {
        assert parts[k + 1] == rest[k];
      } else if k == 0 {
        assert parts[0] == [s[0]] + rest[0];
        ContainsWithin([s[0]], rest[0], "", p);
        assert [s[0]] + rest[0] + "" == parts[0];
      } else {
        assert parts[k] == rest[k];
      }
    }
  }

  /** A separator-free prefix of `s` is a prefix of the first piece of `s.split(c)`. */
  lemma {:induction false} PrefixInFirstPart(s: string, c: char, p: string)
    requires c !in p && StartsWith(s, p)
    ensures StartsWith(Split(s, c)[0], p)
    decreases |s|
  {
    if p != [] {
      assert s[0] == p[0];
      assert StartsWith(s[1..], p[1..]) by {
        assert s[1..][..|p| - 1] == s[..|p|][1..];
      }
      PrefixInFirstPart(s[1..], c, p[1..]);
      var rest := Split(s[1..], c);
      assert Split(s, c)[0] == [s[0]] + rest[0];
      assert Split(s, c)[0][..|p|] == [s[0]] + rest[0][..|p| - 1];
    }
  }

  /**
   * `s.split(c, n)`: split at the first `n` occurrences of `c` only, keeping
   * the remainder (with its separators) as the last piece.
   */
  function SplitN(s: string, c: char, n: nat): (parts: seq<string>)
    ensures 1 <= |parts| <= n + 1
    decreases |s|
  {
    if s == [] then [""]
    else if n == 0 then [s]
    else if s[0] == c then [""] + SplitN(s[1..], c, n - 1)
    else
      var rest := SplitN(s[1..], c, n);
      [[s[0]] + rest[0]] + rest[1..]
  }

  /** A separator-free first piece peels off as the first part of a limited split. */
  lemma {:induction false} SplitNFirst(x: string, c: char, y: string, n: nat)
    requires c !in x
    ensures SplitN(x + [c] + y, c, n + 1) == [x] + SplitN(y, c, n)
    decreases |x|
  {
    if x == [] {
      assert x + [c] + y == [c] + y;
      assert ([c] + y)[1..] == y;
    } else {
      assert (x + [c] + y)[1..] == x[1..] + [c] + y;
      SplitNFirst(x[1..], c, y, n);
      assert [x[0]] + x[1..] == x;
    }
  }

  /** With no splits left the whole string is the only piece. */
  lemma SplitNZero(s: string, c: char)
    ensures SplitN(s, c, 0) == [s]
  {
  }

  // ---------------------------------------------------------------------------
  // Python string comparison: lexicographic by code point
  // ---------------------------------------------------------------------------

  /** `a <= b` on Python strings. */
  predicate LexLe(a: string, b: string)
    decreases |a|
  {
    a == [] || (b != [] && (a[0] < b[0] || (a[0] == b[0] && LexLe(a[1..], b[1..]))))
  }

  lemma {:induction false} LexLeReflexive(a: string)
    ensures LexLe(a, a)
    decreases |a|
  {
    if a != [] {
      LexLeReflexive(a[1..]);
    }
  }

  lemma {:induction false} LexLeTotal(a: string, b: string)
    ensures LexLe(a, b) || LexLe(b, a)
    decreases |a|
  {
    if a != [] && b != [] && a[0] == b[0] {
      LexLeTotal(a[1..], b[1..]);
    }
  }

  lemma {:induction false} LexLeTransitive(a: string, b: string, d: string)
    requires LexLe(a, b) && LexLe(b, d)
    ensures LexLe(a, d)
    decreases |a|
  {
    if a != [] && a[0] == b[0] && b[0] == d[0] {
      LexLeTransitive(a[1..], b[1..], d[1..]);
    }
  }

  lemma {:induction false} LexLeAntisymmetric(a: string, b: string)
    requires LexLe(a, b) && LexLe(b, a)
    ensures a == b
    decreases |a|
  {
    if a != [] {
      LexLeAntisymmetric(a[1..], b[1..]);
      assert a == [a[0]] + a[1..] && b == [b[0]] + b[1..];
    }
  }

  /** `max(a, b)` on Python strings (equal strings are identical). */
  function LexMax(a: string, b: string): string {
    if LexLe(a, b) then b else a
  }

  // ---------------------------------------------------------------------------
  // Character classes, slices, strip and upper (ASCII)
  // ---------------------------------------------------------------------------

  predicate IsDigit(ch: char) { '0' <= ch <= '9' }

  predicate IsAlpha(ch: char) { ('a' <= ch <= 'z') || ('A' <= ch <= 'Z') }

  /** `s.isdigit()`: non-empty and made of digits only. */
  predicate AllDigits(s: string) {
    s != [] && forall k :: 0 <= k < |s| ==> IsDigit(s[k])
  }

  /** `''.join(ch for ch in s if ch.isalpha())` */
  function Letters(s: string): (r: string)
    decreases |s|
  {
    if s == [] then "" else (if IsAlpha(s[0]) then [s[0]] else "") + Letters(s[1..])
  }

  /** `''.join(ch for ch in s if ch.isdigit())` */
  function Digits(s: string): (r: string)
    decreases |s|
  {
    if s == [] then "" else (if IsDigit(s[0]) then [s[0]] else "") + Digits(s[1..])
  }

  /** An all-digit string has no letters and is its own digits. */
  lemma {:induction false} DigitsOnly(d: string)
    requires forall k :: 0 <= k < |d| ==> IsDigit(d[k])
    ensures Letters(d) == "" && Digits(d) == d
    decreases |d|
  {
    if d != [] {
      DigitsOnly(d[1..]);
      assert d == [d[0]] + d[1..];
    }
  }

  /** Letters of an all-letter string followed by an all-digit string are the first part. */
  lemma {:induction false} LettersOfCode(t: string, d: string)
    requires forall k :: 0 <= k < |t| ==> IsAlpha(t[k])
    requires forall k :: 0 <= k < |d| ==> IsDigit(d[k])
    ensures Letters(t + d) == t && Digits(t + d) == d
    decreases |t|
  {
    if t == [] {
      assert t + d == d;
      DigitsOnly(d);
    } else {
      var u := t + d;
      assert u[0] == t[0] && u[1..] == t[1..] + d;
      LettersOfCode(t[1..], d);
      assert t == [t[0]] + t[1..];
    }
  }

  /** `s[:n]` */
  function Take(s: string, n: nat): (r: string)
    ensures |r| <= n && StartsWith(s, r)
  {
    if |s| <= n then s else s[..n]
  }

  /** The characters `str.isspace()` accepts. */
  predicate IsSpace(ch: char) {
    || ch == ' ' || '\t' <= ch <= '\r' || '\U{1C}' <= ch <= '\U{1F}'
    || ch == '\U{85}' || ch == '\U{A0}' || ch == '\U{1680}' || '\U{2000}' <= ch <= '\U{200A}'
    || ch == '\U{2028}' || ch == '\U{2029}' || ch == '\U{202F}' || ch == '\U{205F}' || ch == '\U{3000}'
  }

  function StripLeft(s: string): (r: string)
    decreases |s|
  {
    if s != [] && IsSpace(s[0]) then StripLeft(s[1..]) else s
  }

  function StripRight(s: string): (r: string)
    decreases |s|
  {
    if s != [] && IsSpace(s[|s| - 1]) then StripRight(s[..|s| - 1]) else s
  }

  /** `s.strip()` */
  function Strip(s: string): string {
    StripRight(StripLeft(s))
  }

  /** A string that neither starts nor ends with white space is its own strip. */
  lemma StripUnchanged(s: string)
    requires s != [] ==> !IsSpace(s[0]) && !IsSpace(s[|s| - 1])
    ensures Strip(s) == s
  {
  }

  /** Stripping a single leading blank from text that is otherwise trimmed. */
  lemma StripLeadingBlank(t: string)
    requires t != [] && !IsSpace(t[0]) && !IsSpace(t[|t| - 1])
    ensures Strip(" " + t) == t
  {
    assert (" " + t)[1..] == t;
    StripUnchanged(t);
  }

  function UpperChar(ch: char): char {
    if 'a' <= ch <= 'z' then (ch as int - 32) as char else ch
  }

  /** `s.upper()` (ASCII letters only) */
  function Upper(s: string): (r: string)
    ensures |r| == |s|
    decreases |s|
  {
    if s == [] then "" else [UpperChar(s[0])] + Upper(s[1..])
  }
}
