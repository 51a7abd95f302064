/**
 * Version grouping and the superseded-archival policy as functions of a
 * folder listing. Files are grouped by base name (every `_`-piece but the
 * last two); a group touched by FINAL or APPROVED is exempt; every other
 * group is ranked newest first by modification time (a stable sort, so ties
 * keep listing order) and all but the first `keep` variants are superseded.
 * The class method that performs the moves is `Lifecycle.Folder.ManageSupersededVersions`.
 */
module Versioning {
  import opened Text
  import opened Listing

  const SupersededFolder: string := "_SUPERSEDED"

  /** Only regular files with at least five `_`-pieces take part in grouping. */
  predicate Groupable(e: Entry) {
    e.isFile && |Split(e.name, '_')| >= 5
  }

  /** `'_'.join(parts[:-2])`: the name without its date and version pieces. */
  function BaseName(name: string): string
    requires |Split(name, '_')| >= 2
  {
    var parts := Split(name, '_');
    Join(parts[..|parts| - 2], '_')
  }

  /** A finalised deliverable: case-sensitive FINAL or APPROVED in the name. */
  predicate Finalised(e: Entry) {
    Contains(e.name, "FINAL") || Contains(e.name, "APPROVED")
  }

  predicate Exempt(g: seq<Entry>) {
    exists k :: 0 <= k < |g| && Finalised(g[k])
  }

  /** The keys of `file_groups`, in order of first insertion. */
  function GroupKeys(es: seq<Entry>): seq<string>
    decreases |es|
  {
    if es == [] then []
    else
      var ks := GroupKeys(es[..|es| - 1]);
      var e := es[|es| - 1];
      if Groupable(e) && BaseName(e.name) !in ks then ks + [BaseName(e.name)] else ks
  }

  /** `file_groups[key]`: the grouped files with that base name, in listing order. */
  function Group(es: seq<Entry>, key: string): seq<Entry>
    decreases |es|
  {
    if es == [] then []
    else
      var e := es[|es| - 1];
      Group(es[..|es| - 1], key) + (if Groupable(e) && BaseName(e.name) == key then [e] else [])
  }

  /** Grouping one more entry of a listing: its base name joins the keys on first sight. */
  lemma GroupKeysStep(es: seq<Entry>, i: nat)
    requires i < |es|
    ensures var e := es[i];
      GroupKeys(es[..i + 1]) == GroupKeys(es[..i]) +
        (if Groupable(e) && BaseName(e.name) !in GroupKeys(es[..i]) then [BaseName(e.name)] else [])
  {
    assert es[..i + 1][..i] == es[..i];
    assert es[..i + 1][i] == es[i];
  }

  /** Grouping one more entry of a listing: it joins the group of its base name. */
  lemma GroupStepAt(es: seq<Entry>, i: nat, key: string)
    requires i < |es|
    ensures var e := es[i];
      Group(es[..i + 1], key) == Group(es[..i], key) + (if Groupable(e) && BaseName(e.name) == key then [e] else [])
  {
    assert es[..i + 1][..i] == es[..i];
    assert es[..i + 1][i] == es[i];
  }

  /** The entries of `es` that are not in `gone`, in order. */
  function Without(es: seq<Entry>, gone: seq<Entry>): (r: seq<Entry>)
    ensures |r| <= |es|
    decreases |es|
  {
    if es == [] then []
    else
      var e := es[|es| - 1];
      Without(es[..|es| - 1], gone) + (if e in gone then [] else [e])
  }

  // ---------------------------------------------------------------------------
  // Ranking: a stable sort, newest first
  // ---------------------------------------------------------------------------

  ghost predicate NewestFirst(s: seq<Entry>) {
    forall i, j :: 0 <= i < j < |s| ==> s[i].mtime >= s[j].mtime
  }

  /** The entries of `s` modified at time `t`, in order. */
  function AtTime(s: seq<Entry>, t: int): seq<Entry>
    decreases |s|
  {
    if s == [] then []
    else (if s[0].mtime == t then [s[0]] else []) + AtTime(s[1..], t)
  }

  lemma {:induction false} AtTimeConcat(a: seq<Entry>, b: seq<Entry>, t: int)
    ensures AtTime(a + b, t) == AtTime(a, t) + AtTime(b, t)
    decreases |a|
  {
    if a == [] {
      assert a + b == b;
    } else {
      AtTimeConcat(a[1..], b, t);
      ConsKeepsTail(a[0], a[1..] + b, a[1..], t, AtTime(b, t));
      ConsSplit(a, b);
    }
  }

  lemma ConsSplit<T>(a: seq<T>, b: seq<T>)
    requires a != []
    ensures [a[0]] + (a[1..] + b) == a + b && [a[0]] + a[1..] == a
  {
  }

  /** The same filter, read from the back. */
  lemma AtTimeLast(s: seq<Entry>, t: int)
    requires s != []
    ensures AtTime(s, t) == AtTime(s[..|s| - 1], t) + (if s[|s| - 1].mtime == t then [s[|s| - 1]] else [])
  {
    var x := s[|s| - 1];
    assert s == s[..|s| - 1] + [x];
    AtTimeConcat(s[..|s| - 1], [x], t);
    assert AtTime([x], t) == (if x.mtime == t then [x] else []) + AtTime([], t);
  }

  lemma {:induction false} AtTimeNone(s: seq<Entry>, t: int)
    requires forall k :: 0 <= k < |s| ==> s[k].mtime != t
    ensures AtTime(s, t) == []
    decreases |s|
  {
    if s != [] {
      AtTimeNone(s[1..], t);
    }
  }

  /** Insert `x` after every entry at least as new, i.e. after its equals. */
  function InsertNewest(x: Entry, s: seq<Entry>): seq<Entry>
    decreases |s|
  {
    if s == [] then [x]
    else if s[0].mtime >= x.mtime then [s[0]] + InsertNewest(x, s[1..])
    else [x] + s
  }

  /** Inserting into a newest-first sequence keeps it newest first and adds exactly `x`. */
  lemma {:induction false} InsertNewestSorted(x: Entry, s: seq<Entry>)
    requires NewestFirst(s)
    ensures NewestFirst(InsertNewest(x, s))
    ensures multiset(InsertNewest(x, s)) == multiset(s) + multiset{x}
    decreases |s|
  {
    if s == [] {
    } else if s[0].mtime >= x.mtime {
      NewestFirstTail(s);
      var rest := InsertNewest(x, s[1..]);
      InsertNewestSorted(x, s[1..]);
      assert InsertNewest(x, s) == [s[0]] + rest;
      assert s == [s[0]] + s[1..];
      KeepHead(x, s[0], s[1..], rest);
    } else {
      assert InsertNewest(x, s) == [x] + s;
      assert multiset([x] + s) == multiset{x} + multiset(s);
    }
  }

  /** The head of a newest-first sequence stays in front when `x`, no newer, joins the rest. */
  lemma KeepHead(x: Entry, y: Entry, s: seq<Entry>, rest: seq<Entry>)
    requires NewestFirst([y] + s) && y.mtime >= x.mtime
    requires NewestFirst(rest) && multiset(rest) == multiset(s) + multiset{x}
    ensures NewestFirst([y] + rest)
    ensures multiset([y] + rest) == multiset([y] + s) + multiset{x}
  {
    forall j | 0 <= j < |rest| ensures y.mtime >= rest[j].mtime {
      assert rest[j] in multiset(rest);
      if rest[j] != x {
        assert rest[j] in multiset(s);
        var i :| 0 <= i < |s| && s[i] == rest[j];
        assert ([y] + s)[0] == y && ([y] + s)[i + 1] == rest[j];
      }
    }
    HeadOnSorted(y, rest);
  }

  /** An entry at least as new as all of a newest-first sequence can go in front. */
  lemma HeadOnSorted(y: Entry, r: seq<Entry>)
    requires NewestFirst(r)
    requires forall j :: 0 <= j < |r| ==> y.mtime >= r[j].mtime
    ensures NewestFirst([y] + r)
  {
    assert forall j :: 1 <= j < |r| + 1 ==> ([y] + r)[j] == r[j - 1];
  }

  /** The entries at time `t` of a sequence with one more entry in front. */
  lemma AtTimeCons(y: Entry, s: seq<Entry>, t: int)
    ensures AtTime([y] + s, t) == (if y.mtime == t then [y] else []) + AtTime(s, t)
  {
    assert ([y] + s)[0] == y && ([y] + s)[1..] == s;
  }

  lemma {:induction false} InsertNewestStable(x: Entry, s: seq<Entry>, t: int)
    requires NewestFirst(s)
    ensures AtTime(InsertNewest(x, s), t) == AtTime(s, t) + (if x.mtime == t then [x] else [])
    decreases |s|
  {
    if s == [] {
      AtTimeCons(x, [], t);
      assert [x] + [] == [x];
    } else if s[0].mtime >= x.mtime {
      NewestFirstTail(s);
      InsertNewestStable(x, s[1..], t);
      StableBehindHead(x, s, t);
    } else {
      assert InsertNewest(x, s) == [x] + s;
      NewerInFront(x, s, t);
    }
  }

  /** The step of `InsertNewestStable` where `x` goes behind the head. */
  lemma StableBehindHead(x: Entry, s: seq<Entry>, t: int)
    requires s != [] && s[0].mtime >= x.mtime
    requires AtTime(InsertNewest(x, s[1..]), t) == AtTime(s[1..], t) + (if x.mtime == t then [x] else [])
    ensures AtTime(InsertNewest(x, s), t) == AtTime(s, t) + (if x.mtime == t then [x] else [])
  {
    var rest := InsertNewest(x, s[1..]);
    assert InsertNewest(x, s) == [s[0]] + rest;
    ConsKeepsTail(s[0], rest, s[1..], t, if x.mtime == t then [x] else []);
    assert [s[0]] + s[1..] == s;
  }

  lemma NewestFirstTail(s: seq<Entry>)
    requires NewestFirst(s) && s != []
    ensures NewestFirst(s[1..])
  {
    assert forall i :: 0 <= i < |s| - 1 ==> s[1..][i] == s[i + 1];
  }

  /** Putting the same entry in front of two sequences keeps what their filters differ by. */
  lemma ConsKeepsTail(y: Entry, a: seq<Entry>, b: seq<Entry>, t: int, tail: seq<Entry>)
    requires AtTime(a, t) == AtTime(b, t) + tail
    ensures AtTime([y] + a, t) == AtTime([y] + b, t) + tail
  {
    var head: seq<Entry> := if y.mtime == t then [y] else [];
    AtTimeCons(y, a, t);
    AtTimeCons(y, b, t);
    assert head + (AtTime(b, t) + tail) == (head + AtTime(b, t)) + tail;
  }

  /** An entry newer than all of `s` goes in front without disturbing any timestamp's order. */
  lemma NewerInFront(x: Entry, s: seq<Entry>, t: int)
    requires NewestFirst(s) && s != [] && x.mtime > s[0].mtime
    ensures AtTime([x] + s, t) == AtTime(s, t) + (if x.mtime == t then [x] else [])
  {
    AtTimeCons(x, s, t);
    if x.mtime == t {
      assert forall k :: 0 <= k < |s| ==> s[k].mtime <= s[0].mtime;
      AtTimeNone(s, t);
      assert [x] + [] == [] + [x];
    } else {
      assert [] + AtTime(s, t) == AtTime(s, t) + [];
    }
  }

  /** `files.sort(key=mtime, reverse=True)`: newest first, same files. */
  function SortNewestFirst(s: seq<Entry>): (r: seq<Entry>)
    ensures NewestFirst(r)
    ensures multiset(r) == multiset(s) && |r| == |s|
    decreases |s|
  {
    if s == [] then []
    else
      var init := s[..|s| - 1];
      assert s == init + [s[|s| - 1]];
      var r := InsertNewest(s[|s| - 1], SortNewestFirst(init));
      InsertNewestSorted(s[|s| - 1], SortNewestFirst(init));
      assert |r| == |multiset(r)| == |multiset(s)| == |s|;
      r
  }

  /** The sort is stable: for every timestamp, the files carrying it keep their listing order. */
  lemma {:induction false} SortNewestFirstStable(s: seq<Entry>, t: int)
    ensures AtTime(SortNewestFirst(s), t) == AtTime(s, t)
    decreases |s|
  {
    if s != [] {
      var init := s[..|s| - 1];
      var x := s[|s| - 1];
      var sorted := SortNewestFirst(init);
      assert SortNewestFirst(s) == InsertNewest(x, sorted);
      SortNewestFirstStable(init, t);
      InsertNewestStable(x, sorted, t);
      AtTimeLast(s, t);
    }
  }

  // ---------------------------------------------------------------------------
  // Which files move
  // ---------------------------------------------------------------------------

  /** `files[k:]` with Python's slice rules (a negative `k` counts from the end). */
  function DropPy(s: seq<Entry>, k: int): (r: seq<Entry>)
    ensures multiset(r) <= multiset(s)
  {
    if k >= 0 then (if k <= |s| then (assert s == s[..k] + s[k..]; s[k..]) else [])
    else if |s| + k >= 0 then (assert s == s[..|s| + k] + s[|s| + k..]; s[|s| + k..])
    else s
  }

  /** The variants of one group that move: none if exempt, else all but the newest `keep`. */
  function Superseded(g: seq<Entry>, keep: int): seq<Entry> {
    if Exempt(g) then []
    else if |g| > keep then DropPy(SortNewestFirst(g), keep)
    else []
  }

  /** The moves for the groups of `ks`, in that order. */
  function MovesFor(es: seq<Entry>, ks: seq<string>, keep: int): seq<Entry>
    decreases |ks|
  {
    if ks == [] then []
    else MovesFor(es, ks[..|ks| - 1], keep) + Superseded(Group(es, ks[|ks| - 1]), keep)
  }

  /** Every file `manage_superseded_versions` moves, in the order it moves them. */
  function ToMove(es: seq<Entry>, keep: int): seq<Entry> {
    MovesFor(es, GroupKeys(es), keep)
  }

  // ---------------------------------------------------------------------------
  // Membership facts
  // ---------------------------------------------------------------------------

  lemma {:induction false} GroupMembers(es: seq<Entry>, key: string)
    ensures forall x :: x in Group(es, key) <==> x in es && Groupable(x) && BaseName(x.name) == key
    decreases |es|
  {
    if es != [] {
      var init := es[..|es| - 1];
      GroupMembers(init, key);
      assert es == init + [es[|es| - 1]];
    }
  }

  lemma {:induction false} GroupKeysMembers(es: seq<Entry>)
    ensures forall k :: k in GroupKeys(es) <==> exists x :: x in es && Groupable(x) && BaseName(x.name) == k
    decreases |es|
  {
    if es != [] {
      var init := es[..|es| - 1];
      GroupKeysMembers(init);
      assert es == init + [es[|es| - 1]];
      assert forall x :: x in es <==> x in init || x == es[|es| - 1];
    }
  }

  /** A base name that is not a key has no group. */
  lemma {:induction false} GroupOutsideKeys(es: seq<Entry>, key: string)
    requires key !in GroupKeys(es)
    ensures Group(es, key) == []
    decreases |es|
  {
    if es != [] {
      GroupOutsideKeys(es[..|es| - 1], key);
    }
  }

  lemma SupersededWithin(g: seq<Entry>, keep: int)
    ensures multiset(Superseded(g, keep)) <= multiset(g)
    ensures forall x :: x in Superseded(g, keep) ==> x in g
  {
    forall x | x in Superseded(g, keep) ensures x in g {
      assert x in multiset(Superseded(g, keep));
    }
  }

  lemma {:induction false} MovesForMembers(es: seq<Entry>, ks: seq<string>, keep: int)
    ensures forall x :: x in MovesFor(es, ks, keep) <==>
                        exists k :: k in ks && x in Superseded(Group(es, k), keep)
    decreases |ks|
  {
    if ks != [] {
      var init := ks[..|ks| - 1];
      var last := ks[|ks| - 1];
      MovesForMembers(es, init, keep);
      assert ks == init + [last];
      assert MovesFor(es, ks, keep) == MovesFor(es, init, keep) + Superseded(Group(es, last), keep);
      forall x | x in MovesFor(es, ks, keep)
        ensures exists k :: k in ks && x in Superseded(Group(es, k), keep)
      {
        if x !in Superseded(Group(es, last), keep) {
          var k :| k in init && x in Superseded(Group(es, k), keep);
          assert k in ks;
        }
      }
      forall x, k | k in ks && x in Superseded(Group(es, k), keep)
        ensures x in MovesFor(es, ks, keep)
      {
        if k != last {
          assert k in init;
        }
      }
    }
  }

  /**
   * A file moves exactly when it is a grouped file of the listing and it is
   * among the superseded variants of its own group.
   */
  lemma MovesCharacterised(es: seq<Entry>, keep: int)
    ensures forall x :: x in ToMove(es, keep) <==>
                        x in es && Groupable(x) && x in Superseded(Group(es, BaseName(x.name)), keep)
  {
    var ks := GroupKeys(es);
    MovesForMembers(es, ks, keep);
    GroupKeysMembers(es);
    forall x | x in ToMove(es, keep)
      ensures x in es && Groupable(x) && x in Superseded(Group(es, BaseName(x.name)), keep)
    {
      var k :| k in ks && x in Superseded(Group(es, k), keep);
      SupersededWithin(Group(es, k), keep);
      GroupMembers(es, k);
    }
    forall x | x in es && Groupable(x) && x in Superseded(Group(es, BaseName(x.name)), keep)
      ensures x in ToMove(es, keep)
    {
      assert BaseName(x.name) in ks;
    }
  }

  // ---------------------------------------------------------------------------
  // The archival policy, as the source promises it
  // ---------------------------------------------------------------------------

  /**
   * Only grouped files move: directories (the archive folder among them) and
   * files with fewer than five `_`-pieces never do.
   */
  lemma OnlyGroupedFilesMove(es: seq<Entry>, keep: int)
    ensures forall x :: x in ToMove(es, keep) ==> x in es && x.isFile && |Split(x.name, '_')| >= 5
  {
    MovesCharacterised(es, keep);
  }

  /** No member of a group containing FINAL or APPROVED ever moves. */
  lemma ExemptGroupsUntouched(es: seq<Entry>, key: string, keep: int)
    requires Exempt(Group(es, key))
    ensures forall x :: x in Group(es, key) ==> x !in ToMove(es, keep)
  {
    MovesCharacterised(es, keep);
    GroupMembers(es, key);
  }

  /**
   * In a group without FINAL/APPROVED and `keep >= 0`: the members that move
   * are the group's variants after its `keep` newest, there are
   * max(0, n - keep) of them, and every kept variant is at least as new as
   * every moved one.
   */
  lemma GroupMoves(es: seq<Entry>, key: string, keep: int)
    requires keep >= 0 && !Exempt(Group(es, key))
    ensures var g := Group(es, key);
      var ranked := SortNewestFirst(g);
      && (forall x :: x in g ==> (x in ToMove(es, keep) <==> x in Superseded(g, keep)))
      && |Superseded(g, keep)| == (if |g| > keep then |g| - keep else 0)
      && (|g| > keep ==> Superseded(g, keep) == ranked[keep..])
      && (|g| > keep ==> forall i, j :: 0 <= i < keep <= j < |g| ==> ranked[i].mtime >= ranked[j].mtime)
  {
    MovesCharacterised(es, keep);
    GroupMembers(es, key);
  }

  /** The kept variants (the first `keep` of the ranking) and the moved ones together are the group. */
  lemma KeptAndMovedPartition(g: seq<Entry>, keep: int)
    requires keep >= 0 && !Exempt(g) && |g| > keep
    ensures multiset(SortNewestFirst(g)[..keep]) + multiset(Superseded(g, keep)) == multiset(g)
  {
    var ranked := SortNewestFirst(g);
    assert ranked == ranked[..keep] + ranked[keep..];
  }

  // ---------------------------------------------------------------------------
  // A second run moves nothing
  // ---------------------------------------------------------------------------

  lemma {:induction false} GroupWithout(es: seq<Entry>, gone: seq<Entry>, key: string)
    ensures Group(Without(es, gone), key) == Without(Group(es, key), gone)
    decreases |es|
  {
    if es != [] {
      var init := es[..|es| - 1];
      var e := es[|es| - 1];
      GroupWithout(init, gone, key);
      var w := Without(init, gone);
      var g := Group(init, key);
      var member := Groupable(e) && BaseName(e.name) == key;
      if e in gone {
        assert Without(es, gone) == w;
        if member {
          assert Group(es, key) == g + [e];
          assert (g + [e])[..|g + [e]| - 1] == g;
          assert Without(g + [e], gone) == Without(g, gone);
        } else {
          assert Group(es, key) == g;
        }
      } else {
        assert Without(es, gone) == w + [e];
        assert (w + [e])[..|w + [e]| - 1] == w;
        if member {
          assert Group(w + [e], key) == Group(w, key) + [e];
          assert Group(es, key) == g + [e];
          assert (g + [e])[..|g + [e]| - 1] == g;
          assert Without(g + [e], gone) == Without(g, gone) + [e];
        } else {
          assert Group(w + [e], key) == Group(w, key);
          assert Group(es, key) == g;
        }
      }
    }
  }

  /** Removing two sets that agree on the members of `g` gives the same result. */
  lemma {:induction false} WithoutAgreeing(g: seq<Entry>, a: seq<Entry>, b: seq<Entry>)
    requires forall x :: x in g ==> (x in a <==> x in b)
    ensures Without(g, a) == Without(g, b)
    decreases |g|
  {
    if g != [] {
      WithoutAgreeing(g[..|g| - 1], a, b);
    }
  }

  lemma {:induction false} WithoutNothing(g: seq<Entry>)
    ensures Without(g, []) == g
    decreases |g|
  {
    if g != [] {
      WithoutNothing(g[..|g| - 1]);
    }
  }

  /** Count of `y` left after removing all of `gone`. */
  lemma {:induction false} WithoutCounts(g: seq<Entry>, gone: seq<Entry>, y: Entry)
    ensures multiset(Without(g, gone))[y] == if y in gone then 0 else multiset(g)[y]
    decreases |g|
  {
    if g != [] {
      var init, x := g[..|g| - 1], g[|g| - 1];
      WithoutCounts(init, gone, y);
      WithoutCountsStep(init, x, gone, y);
      SplitLast(g);
    }
  }

  lemma WithoutCountsStep(init: seq<Entry>, x: Entry, gone: seq<Entry>, y: Entry)
    requires multiset(Without(init, gone))[y] == if y in gone then 0 else multiset(init)[y]
    ensures multiset(Without(init + [x], gone))[y] == if y in gone then 0 else multiset(init + [x])[y]
  {
    var g := init + [x];
    assert g[..|g| - 1] == init;
    var w := Without(init, gone);
    CountSnoc(init, x, y);
    if x in gone {
      assert Without(g, gone) == w;
    } else {
      assert Without(g, gone) == w + [x];
      CountSnoc(w, x, y);
    }
  }

  lemma SplitLast<T>(s: seq<T>)
    requires s != []
    ensures s == s[..|s| - 1] + [s[|s| - 1]]
  {
  }

  /** One more element adds one to its own count and nothing to any other. */
  lemma CountSnoc<T>(s: seq<T>, x: T, y: T)
    ensures multiset(s + [x])[y] == multiset(s)[y] + (if x == y then 1 else 0)
  {
    assert multiset(s + [x]) == multiset(s) + multiset{x};
  }

  /** Removing a sub-multiset shortens a sequence by at least its size. */
  lemma WithoutShrinks(g: seq<Entry>, gone: seq<Entry>)
    requires multiset(gone) <= multiset(g)
    ensures |Without(g, gone)| + |gone| <= |g|
  {
    var w := multiset(Without(g, gone));
    var v := multiset(gone);
    forall y ensures (w + v)[y] <= multiset(g)[y] {
      WithoutCounts(g, gone, y);
    }
    assert w + v <= multiset(g);
    assert multiset(g) == (w + v) + (multiset(g) - (w + v));
  }

  /** What remains of a group after its superseded variants left has none to spare. */
  lemma RemainderSettled(g: seq<Entry>, keep: int)
    requires keep >= 0
    ensures Superseded(Without(g, Superseded(g, keep)), keep) == []
  {
    var v := Superseded(g, keep);
    var rest := Without(g, v);
    if Exempt(g) || |g| <= keep {
      WithoutNothing(g);
    } else {
      SupersededWithin(g, keep);
      WithoutShrinks(g, v);
      KeptAndMovedPartition(g, keep);
      assert |v| == |g| - keep by {
        assert |multiset(SortNewestFirst(g)[..keep])| == keep;
      }
    }
  }

  lemma {:induction false} MovesForNothing(es: seq<Entry>, ks: seq<string>, keep: int)
    requires forall k :: Superseded(Group(es, k), keep) == []
    ensures MovesFor(es, ks, keep) == []
    decreases |ks|
  {
    if ks != [] {
      MovesForNothing(es, ks[..|ks| - 1], keep);
    }
  }

  /**
   * Idempotence: once the superseded variants are gone, running the policy
   * again on what is left moves nothing (for `keep >= 0`).
   */
  lemma RerunMovesNothing(es: seq<Entry>, keep: int)
    requires keep >= 0
    ensures ToMove(Without(es, ToMove(es, keep)), keep) == []
  {
    var moved := ToMove(es, keep);
    var left := Without(es, moved);
    MovesCharacterised(es, keep);
    forall k ensures Superseded(Group(left, k), keep) == [] {
      var g := Group(es, k);
      GroupWithout(es, moved, k);
      GroupMembers(es, k);
      WithoutAgreeing(g, moved, Superseded(g, keep));
      RemainderSettled(g, keep);
    }
    MovesForNothing(left, GroupKeys(left), keep);
  }
}
