/**
 * Python's `max` over a list of strings and `sorted`/`sort_values` by a
 * string key, both under Python's string order (`Text.LexLe`).
 */
module Ordering {
  import opened Text

  /** Every string of `s` is at most `m`. */
  ghost predicate UpperBound(s: seq<string>, m: string) {
    forall k :: 0 <= k < |s| ==> LexLe(s[k], m)
  }

  lemma RaiseBound(s: seq<string>, m: string, x: string)
    requires UpperBound(s, m)
    ensures UpperBound(s, LexMax(m, x))
  {
    if LexLe(m, x) {
      forall k | 0 <= k < |s| ensures LexLe(s[k], x) {
        LexLeTransitive(s[k], m, x);
      }
    }
  }

  /** `max(s)`: a member of `s` that no member exceeds. */
  function MaxOf(s: seq<string>): (r: string)
    requires |s| > 0
    ensures r in s
    ensures forall k :: 0 <= k < |s| ==> LexLe(s[k], r)
    decreases |s|
  {
    if |s| == 1 then
      LexLeReflexive(s[0]);
      s[0]
    else
      var init := s[..|s| - 1];
      var m := MaxOf(init);
      var x := s[|s| - 1];
      RaiseBound(init, m, x);
      LexLeTotal(m, x);
      LexLeReflexive(x);
      assert forall k :: 0 <= k < |s| - 1 ==> s[k] == init[k];
      LexMax(m, x)
  }

  /** The maximum does not depend on where the candidates come from, only on which they are. */
  lemma {:induction false} MaxOfAppend(s: seq<string>, x: string)
    requires |s| > 0
    ensures MaxOf(s + [x]) == LexMax(MaxOf(s), x)
  {
    assert (s + [x])[..|s|] == s;
  }

  /** A member that bounds every member is the maximum: `max` depends only on which strings occur. */
  lemma MaxOfUnique(s: seq<string>, m: string)
    requires m in s
    requires forall k :: 0 <= k < |s| ==> LexLe(s[k], m)
    ensures MaxOf(s) == m
  {
    var r := MaxOf(s);
    var i :| 0 <= i < |s| && s[i] == m;
    var j :| 0 <= j < |s| && s[j] == r;
    LexLeAntisymmetric(r, m);
  }

  // ---------------------------------------------------------------------------
  // Stable insertion sort by a string key (ascending)
  // ---------------------------------------------------------------------------

  ghost predicate SortedByKey<T>(s: seq<T>, key: T -> string) {
    forall i, j :: 0 <= i < j < |s| ==> LexLe(key(s[i]), key(s[j]))
  }

  /** Insert `x` after every element whose key is at most its own. */
  function InsertByKey<T>(x: T, s: seq<T>, key: T -> string): seq<T>
    decreases |s|
  {
    if s == [] then [x]
    else if LexLe(key(s[0]), key(x)) then [s[0]] + InsertByKey(x, s[1..], key)
    else [x] + s
  }

  lemma SortedTail<T>(s: seq<T>, key: T -> string)
    requires SortedByKey(s, key) && s != []
    ensures SortedByKey(s[1..], key)
  {
    assert forall i :: 0 <= i < |s| - 1 ==> s[1..][i] == s[i + 1];
  }

  /** An element whose key bounds every key of a sorted sequence from below can go in front. */
  lemma SortedWithHead<T>(y: T, r: seq<T>, key: T -> string)
    requires SortedByKey(r, key)
    requires forall j :: 0 <= j < |r| ==> LexLe(key(y), key(r[j]))
    ensures SortedByKey([y] + r, key)
  {
    assert forall j :: 1 <= j < |r| + 1 ==> ([y] + r)[j] == r[j - 1];
  }

  /** The head of a sorted sequence stays in front when `x`, with a key no smaller, joins the rest. */
  lemma KeepFront<T>(x: T, y: T, s: seq<T>, rest: seq<T>, key: T -> string)
    requires SortedByKey([y] + s, key) && LexLe(key(y), key(x))
    requires SortedByKey(rest, key) && multiset(rest) == multiset(s) + multiset{x}
    ensures SortedByKey([y] + rest, key)
    ensures multiset([y] + rest) == multiset([y] + s) + multiset{x}
  {
    forall j | 0 <= j < |rest| ensures LexLe(key(y), key(rest[j])) {
      assert rest[j] in multiset(rest);
      if rest[j] != x {
        assert rest[j] in multiset(s);
        var i :| 0 <= i < |s| && s[i] == rest[j];
        assert ([y] + s)[0] == y && ([y] + s)[i + 1] == rest[j];
      }
    }
    SortedWithHead(y, rest, key);
  }

  /** An element whose key is below the head's goes in front of a sorted sequence. */
  lemma PutInFront<T>(x: T, s: seq<T>, key: T -> string)
    requires SortedByKey(s, key) && s != [] && !LexLe(key(s[0]), key(x))
    ensures SortedByKey([x] + s, key)
    ensures multiset([x] + s) == multiset(s) + multiset{x}
  {
    LexLeTotal(key(x), key(s[0]));
    forall j | 0 <= j < |s| ensures LexLe(key(x), key(s[j])) {
      if j > 0 {
        LexLeTransitive(key(x), key(s[0]), key(s[j]));
      }
    }
    SortedWithHead(x, s, key);
  }

  /** Inserting into a sorted sequence keeps it sorted and adds exactly `x`. */
  lemma {:induction false} InsertByKeySorted<T>(x: T, s: seq<T>, key: T -> string)
    requires SortedByKey(s, key)
    ensures SortedByKey(InsertByKey(x, s, key), key)
    ensures multiset(InsertByKey(x, s, key)) == multiset(s) + multiset{x}
    decreases |s|
  {
    if s == [] {
    } else if LexLe(key(s[0]), key(x)) {
      SortedTail(s, key);
      var rest := InsertByKey(x, s[1..], key);
      InsertByKeySorted(x, s[1..], key);
      assert InsertByKey(x, s, key) == [s[0]] + rest;
      assert s == [s[0]] + s[1..];
      KeepFront(x, s[0], s[1..], rest, key);
    } else {
      assert InsertByKey(x, s, key) == [x] + s;
      PutInFront(x, s, key);
    }
  }

  /** `sorted(s, key=key)`: ascending by key, same elements. */
  function SortByKey<T>(s: seq<T>, key: T -> string): (r: seq<T>)
    ensures SortedByKey(r, key)
    ensures multiset(r) == multiset(s)
    ensures |r| == |s|
    decreases |s|
  {
    if s == [] then []
    else
      var init := s[..|s| - 1];
      var x := s[|s| - 1];
      assert s == init + [x];
      var sorted := SortByKey(init, key);
      InsertByKeySorted(x, sorted, key);
      var r := InsertByKey(x, sorted, key);
      assert |r| == |multiset(r)| == |multiset(s)| == |s|;
      r
  }
}
