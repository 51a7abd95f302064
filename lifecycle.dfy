/**
 * The notebook's automated file operations on one folder: creating an asset
 * from the template with its first status marker, moving an asset to a new
 * phase, and archiving superseded document versions. A `Folder` is one
 * directory: whether it exists, its listing, the listing of its
 * `_SUPERSEDED` subfolder, and the paths a transition asked to make
 * read-only. Dates and modification times come in through a `Clock`.
 */
module Lifecycle {
  import opened Text
  import opened Listing
  import opened Ordering
  import opened Naming
  import opened PhaseInference
  import opened Versioning

  /** The three readings of the clock an operation makes: `%Y-%m-%d`, `%Y-%m-%d %H:%M:%S`, and the file time. */
  datatype Clock = Clock(today: string, stamp: string, mtime: int)

  /** The dates 14, 60 and 90 days ahead, written into a new asset's first marker. */
  datatype Schedule = Schedule(siteVisit: string, goNoGo: string, target: string)

  const OpenLine: string := "Phase Closed: " + OpenSentinel
  const PipelineMarkerName: string := "_STATUS_01_PIPELINE.txt"
  /** The signature the engine puts under what it writes, after the label's colon. */
  const SignatureTail: string := " Python Automation Script"
  const ClosedByLine: string := "Closed By:" + SignatureTail
  const UpdatedByLine: string := "Updated By:" + SignatureTail

  // ---------------------------------------------------------------------------
  // Marker texts
  // ---------------------------------------------------------------------------

  /** The lines `create_new_asset` writes into `_STATUS_01_PIPELINE.txt`. */
  function PipelineLines(pm: string, clock: Clock, plan: Schedule): seq<string> {
    ["STATUS: PIPELINE", "Phase Started: " + clock.today, "Responsible PM: " + pm,
     "Target Completion: " + plan.target, "", "Key Activities in Progress:",
     "1. Initial site identification", "2. Preliminary market research",
     "3. High-level feasibility assessment", "", "Next Milestones:",
     "- Site visit: " + plan.siteVisit, "- Go/No-Go Decision: " + plan.goNoGo, "",
     OpenLine, "Last Updated: " + clock.stamp, UpdatedByLine]
  }

  function PipelineBody(pm: string, clock: Clock, plan: Schedule): string {
    Lines(PipelineLines(pm, clock, plan))
  }

  /** The fixed middle of a transition marker: target, activities and milestones left to fill in. */
  const NewMarkerAgenda: seq<string> :=
    ["Target Completion: TBD", "", "Key Activities in Progress:", "1. [To be updated]", "",
     "Next Milestones:", "- [To be updated]", ""]

  /** The lines `transition_phase` writes into the new marker. */
  function NewMarkerLines(tag: string, pm: string, clock: Clock): seq<string> {
    ["STATUS: " + tag, "Phase Started: " + clock.today, "Responsible PM: " + pm]
    + NewMarkerAgenda
    + [OpenLine, "Last Updated: " + clock.stamp, UpdatedByLine]
  }

  function NewMarkerBody(tag: string, pm: string, clock: Clock): string {
    Lines(NewMarkerLines(tag, pm, clock))
  }

  /** The two lines appended to the marker being closed. */
  function ClosureLines(today: string): string {
    "\n" + ("Phase Closed: " + today) + "\n" + ClosedByLine
  }

  lemma PipelineBodyIsOpen(pm: string, clock: Clock, plan: Schedule)
    ensures Contains(PipelineBody(pm, clock, plan), OpenLine)
  {
    var ls := PipelineLines(pm, clock, plan);
    assert ls[14][..|OpenLine|] == OpenLine;
    LinesContains(ls, 14, OpenLine);
  }

  lemma NewMarkerBodyIsOpen(tag: string, pm: string, clock: Clock)
    ensures Contains(NewMarkerBody(tag, pm, clock), OpenLine)
  {
    var ls := NewMarkerLines(tag, pm, clock);
    assert ls[11][..|OpenLine|] == OpenLine;
    LinesContains(ls, 11, OpenLine);
  }

  // ---------------------------------------------------------------------------
  // transition_phase, as functions of the listing
  // ---------------------------------------------------------------------------

  /** The position of the first listed entry whose name starts with `p`. */
  function FirstWithPrefix(es: seq<Entry>, p: string): (r: Option<nat>)
    ensures r.Some? ==> r.value < |es| && StartsWith(es[r.value].name, p)
    ensures r.Some? ==> forall k :: 0 <= k < r.value ==> !StartsWith(es[k].name, p)
    ensures r.None? ==> forall k :: 0 <= k < |es| ==> !StartsWith(es[k].name, p)
    decreases |es|
  {
    if es == [] then None
    else if StartsWith(es[0].name, p) then Some(0)
    else
      match FirstWithPrefix(es[1..], p)
      case None =>
        assert forall k :: 1 <= k < |es| ==> es[k] == es[1..][k - 1];
        None
      case Some(i) =>
        assert forall k :: 1 <= k < i + 1 ==> es[k] == es[1..][k - 1];
        Some(i + 1)
  }

  /**
   * Closing the current marker: the first entry prefixed `_STATUS_<current>`
   * gets the closure lines appended (opening a directory for append raises);
   * with no such entry nothing happens.
   */
  function CloseCurrent(es: seq<Entry>, current: string, clock: Clock): Outcome<seq<Entry>> {
    match FirstWithPrefix(es, MarkerPrefix + current)
    case None => Returned(es)
    case Some(k) =>
      if !es[k].isFile then Raised
      else Returned(es[k := Written(es[k].name, es[k].content + ClosureLines(clock.today), clock.mtime)])
  }

  /** The marker a transition to `code` writes (mode 'w'). */
  function NewMarker(code: string, pm: string, clock: Clock): (e: Entry)
    ensures e.isFile && StartsWith(e.name, MarkerPrefix)
  {
    var tag := MarkerLabel(code);
    assert MarkerFileName(code, tag)[..8] == MarkerPrefix;
    Written(MarkerFileName(code, tag), NewMarkerBody(tag, pm, clock), clock.mtime)
  }

  /** Writing the new marker; raises when a directory already has its name. */
  function OpenNext(es: seq<Entry>, code: string, pm: string, clock: Clock): Outcome<seq<Entry>>
    requires DistinctNames(es)
  {
    var m := NewMarker(code, pm, clock);
    match FindName(es, m.name)
    case Some(k) => if es[k].isFile then Returned(Put(es, m)) else Raised
    case None => Returned(Put(es, m))
  }

  /** The names of `names` that exist in the listing, in order: the folders a transition protects. */
  function Existing(es: seq<Entry>, names: seq<string>): (r: seq<string>)
    ensures forall n :: n in r <==> n in names && HasName(es, n)
    decreases |names|
  {
    if names == [] then []
    else
      var init := names[..|names| - 1];
      var n := names[|names| - 1];
      assert forall x :: x in names <==> x in init || x == n;
      Existing(es, init) + (if HasName(es, n) then [n] else [])
  }

  /** The result of a transition on an existing asset folder. */
  datatype Transition = Transition(raised: bool, entries: seq<Entry>, locks: seq<string>)

  function Transitioned(es: seq<Entry>, code: string, pm: string, clock: Clock): Transition
    requires DistinctNames(es)
  {
    match CloseCurrent(es, PhaseFrom(MarkerCodes(es, false)), clock)
    case Raised => Transition(true, es, [])
    case Returned(closed) =>
      CloseKeepsShape(es, PhaseFrom(MarkerCodes(es, false)), clock);
      match OpenNext(closed, code, pm, clock)
      case Raised => Transition(true, closed, [])
      case Returned(written) => Transition(false, written, Existing(written, LockedOnEntry(code)))
  }

  // ---------------------------------------------------------------------------
  // What a transition promises
  // ---------------------------------------------------------------------------

  /** Two listings with the same names, each name of the same kind in both. */
  ghost predicate SameShape(a: seq<Entry>, b: seq<Entry>) {
    && |a| == |b|
    && forall k :: 0 <= k < |a| ==> a[k].name == b[k].name && a[k].isFile == b[k].isFile
  }

  /** Closing a marker changes one text, never a name or a kind. */
  lemma CloseKeepsShape(es: seq<Entry>, current: string, clock: Clock)
    requires DistinctNames(es) && CloseCurrent(es, current, clock).Returned?
    ensures SameShape(es, CloseCurrent(es, current, clock).value)
    ensures DistinctNames(CloseCurrent(es, current, clock).value)
    ensures HasName(es, SupersededFolder) ==> HasName(CloseCurrent(es, current, clock).value, SupersededFolder)
  {
    var closed := CloseCurrent(es, current, clock).value;
    if HasName(es, SupersededFolder) {
      var k :| 0 <= k < |es| && es[k].name == SupersededFolder;
      assert closed[k].name == SupersededFolder;
    }
  }

  /** The scan of `transition_phase` for the marker to close: the first name with the prefix. */
  method FindPrefixed(es: seq<Entry>, p: string) returns (found: Option<nat>)
    ensures found == FirstWithPrefix(es, p)
  {
    found := None;
    var i := 0;
    while i < |es|
      invariant 0 <= i <= |es|
      invariant forall k :: 0 <= k < i ==> !StartsWith(es[k].name, p)
    {
      if StartsWith(es[i].name, p) {
        found := Some(i);
        break;
      }
      i := i + 1;
    }
  }

  lemma NewMarkerIsNotArchive(code: string, pm: string, clock: Clock)
    ensures NewMarker(code, pm, clock).name != SupersededFolder
  {
    var n := NewMarker(code, pm, clock).name;
    assert n[2] == 'T' && SupersededFolder[2] == 'U';
  }

  /** A transition whose closing step raised. */
  lemma TransitionRaisedClosing(es: seq<Entry>, code: string, pm: string, clock: Clock)
    requires DistinctNames(es) && CloseCurrent(es, PhaseFrom(MarkerCodes(es, false)), clock).Raised?
    ensures Transitioned(es, code, pm, clock) == Transition(true, es, [])
  {
  }

  /** A transition whose closing step succeeded, by the kind of entry holding the new marker's name. */
  lemma TransitionAfterClosing(es: seq<Entry>, code: string, pm: string, clock: Clock, closed: seq<Entry>)
    requires DistinctNames(es) && CloseCurrent(es, PhaseFrom(MarkerCodes(es, false)), clock) == Returned(closed)
    ensures DistinctNames(closed)
    ensures var m := NewMarker(code, pm, clock);
      Transitioned(es, code, pm, clock) ==
        if HasDirectory(closed, m.name) then Transition(true, closed, [])
        else Transition(false, Put(closed, m), Existing(Put(closed, m), LockedOnEntry(code)))
  {
    CloseKeepsShape(es, PhaseFrom(MarkerCodes(es, false)), clock);
    FindNameKind(closed, NewMarker(code, pm, clock).name);
  }

  lemma {:induction false} SameShapeMarkers(a: seq<Entry>, b: seq<Entry>, filesOnly: bool)
    requires SameShape(a, b)
    ensures MarkerNames(a, filesOnly) == MarkerNames(b, filesOnly)
    decreases |a|
  {
    if a != [] {
      SameShapeMarkers(a[..|a| - 1], b[..|b| - 1], filesOnly);
    }
  }

  /**
   * The codes after writing marker file `m` are those before plus `m`'s,
   * provided no directory already had `m`'s name.
   */
  lemma PutMarkerCodes(es: seq<Entry>, m: Entry, filesOnly: bool)
    requires DistinctNames(es) && m.isFile && StartsWith(m.name, MarkerPrefix)
    requires forall k :: 0 <= k < |es| && es[k].name == m.name ==> es[k].isFile
    ensures forall c :: c in MarkerCodes(Put(es, m), filesOnly) <==>
                        c in MarkerCodes(es, filesOnly) || Some(c) == MarkerCode(m.name)
  {
    var after := Put(es, m);
    MarkerCodesMembers(es, filesOnly);
    MarkerCodesMembers(after, filesOnly);
    MarkerCodeOfPrefixed(m.name);
    assert IsMarker(m, filesOnly);
    forall c | c in MarkerCodes(es, filesOnly) ensures c in MarkerCodes(after, filesOnly) {
      var x :| x in es && IsMarker(x, filesOnly) && MarkerCode(x.name) == Some(c);
      if x.name != m.name {
        assert x in after;
      } else {
        assert m in after;
      }
    }
    forall c | c in MarkerCodes(after, filesOnly)
      ensures c in MarkerCodes(es, filesOnly) || Some(c) == MarkerCode(m.name)
    {
      var y :| y in after && IsMarker(y, filesOnly) && MarkerCode(y.name) == Some(c);
      if y != m {
        assert y in es;
      }
    }
    assert m in after;
  }

  /** A maximum over the codes before plus one more. */
  lemma MaxWithOneMore(before: seq<string>, after: seq<string>, c: string)
    requires forall x :: x in after <==> x in before || x == c
    ensures PhaseFrom(after) == if before == [] then c else LexMax(PhaseFrom(before), c)
  {
    assert c in after;
    var e := if before == [] then c else LexMax(PhaseFrom(before), c);
    if before == [] {
      LexLeReflexive(c);
    } else {
      LexLeTotal(PhaseFrom(before), c);
    }
    forall k | 0 <= k < |after| ensures LexLe(after[k], e) {
      var y := after[k];
      if y == c {
        LexLeReflexive(c);
      } else {
        assert y in before;
        var i :| 0 <= i < |before| && before[i] == y;
        if LexLe(PhaseFrom(before), c) {
          LexLeTransitive(y, PhaseFrom(before), c);
        }
      }
    }
    MaxOfUnique(after, e);
  }

  /** A completed transition is the closing step followed by writing the new marker over a file or into a gap. */
  lemma TransitionSteps(es: seq<Entry>, code: string, pm: string, clock: Clock) returns (closed: seq<Entry>, m: Entry)
    requires DistinctNames(es)
    requires !Transitioned(es, code, pm, clock).raised
    ensures var current := PhaseFrom(MarkerCodes(es, false));
      && CloseCurrent(es, current, clock) == Returned(closed)
      && SameShape(es, closed) && DistinctNames(closed)
      && m == NewMarker(code, pm, clock)
      && (forall k :: 0 <= k < |closed| && closed[k].name == m.name ==> closed[k].isFile)
      && Transitioned(es, code, pm, clock).entries == Put(closed, m)
  {
    var current := PhaseFrom(MarkerCodes(es, false));
    var cc := CloseCurrent(es, current, clock);
    assert cc.Returned? by {
      if cc.Raised? {
        TransitionRaisedClosing(es, code, pm, clock);
      }
    }
    closed := cc.value;
    CloseKeepsShape(es, current, clock);
    TransitionAfterClosing(es, code, pm, clock, closed);
    m := NewMarker(code, pm, clock);
    assert !HasDirectory(closed, m.name);
  }

  /**
   * The inferred phase after a completed transition to a separator-free code
   * is the larger of the old phase and the code's first two characters (the
   * code itself when there were no markers); in both phase-inference variants.
   */
  lemma TransitionRaisesPhase(es: seq<Entry>, code: string, pm: string, clock: Clock, filesOnly: bool)
    requires DistinctNames(es) && '_' !in code
    requires !Transitioned(es, code, pm, clock).raised
    ensures var before := MarkerCodes(es, filesOnly);
      PhaseFrom(MarkerCodes(Transitioned(es, code, pm, clock).entries, filesOnly))
        == if before == [] then Take(code, 2) else LexMax(PhaseFrom(before), Take(code, 2))
  {
    var closed, m := TransitionSteps(es, code, pm, clock);
    SameShapeMarkers(es, closed, filesOnly);
    MarkerCodeOfFileName(code, MarkerLabel(code));
    PutMarkerCodes(closed, m, filesOnly);
    MaxWithOneMore(MarkerCodes(es, filesOnly), MarkerCodes(Put(closed, m), filesOnly), Take(code, 2));
  }

  /** A completed transition holds the new marker, whose text has the open `Phase Closed:` line. */
  lemma TransitionWritesOpenMarker(es: seq<Entry>, code: string, pm: string, clock: Clock)
    requires DistinctNames(es)
    requires !Transitioned(es, code, pm, clock).raised
    ensures var m := NewMarker(code, pm, clock);
      && m in Transitioned(es, code, pm, clock).entries
      && m.name == MarkerFileName(code, MarkerLabel(code))
      && Contains(m.content, OpenLine)
  {
    var closed, m := TransitionSteps(es, code, pm, clock);
    NewMarkerBodyIsOpen(MarkerLabel(code), pm, clock);
  }

  /** Apart from the new marker, a transition only appends: every file after it extends the text of one before it. */
  lemma TransitionOnlyAppends(es: seq<Entry>, code: string, pm: string, clock: Clock)
    requires DistinctNames(es)
    requires !Transitioned(es, code, pm, clock).raised
    ensures var m := NewMarker(code, pm, clock);
      forall x :: x in Transitioned(es, code, pm, clock).entries ==>
        x == m || exists y :: y in es && y.name == x.name && StartsWith(x.content, y.content)
  {
    var after := Transitioned(es, code, pm, clock).entries;
    var closed, m := TransitionSteps(es, code, pm, clock);
    CloseCurrentTexts(es, PhaseFrom(MarkerCodes(es, false)), clock);
    forall x | x in after && x != m
      ensures exists y :: y in es && y.name == x.name && StartsWith(x.content, y.content)
    {
      assert x in closed;
      var i :| 0 <= i < |closed| && closed[i] == x;
      assert es[i] in es;
    }
  }

  /** With no marker of the current phase, a transition changes no entry but the one the new marker overwrites. */
  lemma TransitionWithoutCurrent(es: seq<Entry>, code: string, pm: string, clock: Clock)
    requires DistinctNames(es)
    requires !Transitioned(es, code, pm, clock).raised
    requires FirstWithPrefix(es, MarkerPrefix + PhaseFrom(MarkerCodes(es, false))).None?
    ensures var m := NewMarker(code, pm, clock);
      forall x :: x in es && x.name != m.name ==> x in Transitioned(es, code, pm, clock).entries
  {
    var closed, m := TransitionSteps(es, code, pm, clock);
    CloseCurrentTexts(es, PhaseFrom(MarkerCodes(es, false)), clock);
  }

  /** The closing step touches only the marker it closes, and only by appending to its text. */
  lemma CloseCurrentTexts(es: seq<Entry>, current: string, clock: Clock)
    requires CloseCurrent(es, current, clock).Returned?
    ensures var closed := CloseCurrent(es, current, clock).value;
      && |closed| == |es|
      && (forall i :: 0 <= i < |es| ==> closed[i].name == es[i].name && StartsWith(closed[i].content, es[i].content))
      && match FirstWithPrefix(es, MarkerPrefix + current)
         case None => closed == es
         case Some(k) =>
           && closed[k] == Written(es[k].name, es[k].content + ClosureLines(clock.today), clock.mtime)
           && forall i :: 0 <= i < |es| && i != k ==> closed[i] == es[i]
  {
    var closed := CloseCurrent(es, current, clock).value;
    forall i | 0 <= i < |es| ensures StartsWith(closed[i].content, es[i].content) {
      var old_ := es[i].content;
      if closed[i] == es[i] {
        assert closed[i].content[..|old_|] == old_;
      } else {
        assert closed[i].content == old_ + ClosureLines(clock.today);
        assert (old_ + ClosureLines(clock.today))[..|old_|] == old_;
      }
    }
  }

  /** Only folders of the table for the new phase that exist are protected; phase 01 and unknown codes protect nothing. */
  lemma TransitionLocks(es: seq<Entry>, code: string, pm: string, clock: Clock)
    requires DistinctNames(es)
    ensures var t := Transitioned(es, code, pm, clock);
      && (forall n :: n in t.locks <==> !t.raised && n in LockedOnEntry(code) && HasName(t.entries, n))
      && (code != "02" && code != "03" && code != "04" ==> t.locks == [])
  {
    var current := PhaseFrom(MarkerCodes(es, false));
    var t := Transitioned(es, code, pm, clock);
    match CloseCurrent(es, current, clock) {
      case Raised =>
        assert t.locks == [] && t.raised;
      case Returned(closed) =>
        CloseKeepsShape(es, current, clock);
        match OpenNext(closed, code, pm, clock) {
          case Raised =>
            assert t.locks == [] && t.raised;
          case Returned(written) =>
            assert t == Transition(false, written, Existing(written, LockedOnEntry(code)));
        }
    }
  }

  // ---------------------------------------------------------------------------
  // manage_superseded_versions, as functions of the listing
  // ---------------------------------------------------------------------------

  /** `os.makedirs(..., exist_ok=True)` fails when a file already holds the name. */
  predicate ArchiveBlocked(es: seq<Entry>) {
    HasFile(es, SupersededFolder)
  }

  /** The listing after the archive folder is ensured to exist. */
  function Prepared(es: seq<Entry>, now: int): seq<Entry> {
    if HasName(es, SupersededFolder) then es else es + [NewDirectory(SupersededFolder, now)]
  }

  lemma {:induction false} GroupSkipsDirectory(es: seq<Entry>, d: Entry, key: string)
    requires !d.isFile
    ensures Group(es + [d], key) == Group(es, key) && GroupKeys(es + [d]) == GroupKeys(es)
  {
    assert (es + [d])[..|es|] == es;
  }

  lemma {:induction false} MovesForSkipsDirectory(es: seq<Entry>, d: Entry, ks: seq<string>, keep: int)
    requires !d.isFile
    ensures MovesFor(es + [d], ks, keep) == MovesFor(es, ks, keep)
    decreases |ks|
  {
    if ks != [] {
      MovesForSkipsDirectory(es, d, ks[..|ks| - 1], keep);
      GroupSkipsDirectory(es, d, ks[|ks| - 1]);
    }
  }

  /** Creating the archive folder does not change which files move. */
  lemma PreparedMovesSame(es: seq<Entry>, now: int, keep: int)
    ensures ToMove(Prepared(es, now), keep) == ToMove(es, keep)
  {
    if !HasName(es, SupersededFolder) {
      var d := NewDirectory(SupersededFolder, now);
      GroupSkipsDirectory(es, d, "");
      MovesForSkipsDirectory(es, d, GroupKeys(es), keep);
    }
  }

  lemma {:induction false} WithoutWithout(es: seq<Entry>, a: seq<Entry>, b: seq<Entry>)
    ensures Without(Without(es, a), b) == Without(es, a + b)
    decreases |es|
  {
    if es != [] {
      var init := es[..|es| - 1];
      var e := es[|es| - 1];
      WithoutWithout(init, a, b);
      var w := Without(init, a);
      assert e in a + b <==> e in a || e in b;
      if e in a {
        assert Without(es, a) == w + [] == w;
        assert Without(es, a + b) == Without(init, a + b) + [];
      } else {
        assert Without(es, a) == w + [e];
        assert (w + [e])[..|w + [e]| - 1] == w && (w + [e])[|w + [e]| - 1] == e;
        assert Without(w + [e], b) == Without(w, b) + (if e in b then [] else [e]);
      }
    }
  }

  lemma {:induction false} WithoutMembers(es: seq<Entry>, gone: seq<Entry>)
    ensures forall x :: x in Without(es, gone) <==> x in es && x !in gone
    decreases |es|
  {
    if es != [] {
      var init := es[..|es| - 1];
      WithoutMembers(init, gone);
      assert es == init + [es[|es| - 1]];
    }
  }

  lemma {:induction false} WithoutDistinct(es: seq<Entry>, gone: seq<Entry>)
    requires DistinctNames(es)
    ensures DistinctNames(Without(es, gone))
    decreases |es|
  {
    if es != [] {
      var init := es[..|es| - 1];
      var e := es[|es| - 1];
      WithoutDistinct(init, gone);
      WithoutMembers(init, gone);
      var w := Without(init, gone);
      if e !in gone {
        forall i | 0 <= i < |w| ensures w[i].name != e.name {
          assert w[i] in init;
        }
      }
    }
  }

  lemma {:induction false} MovesForStep(es: seq<Entry>, ks: seq<string>, j: nat, keep: int)
    requires j < |ks|
    ensures MovesFor(es, ks[..j + 1], keep) == MovesFor(es, ks[..j], keep) + Superseded(Group(es, ks[j]), keep)
  {
    assert ks[..j + 1][..j] == ks[..j];
  }

  /**
   * `shutil.move` of the file `e` into the archive folder listed by `es`. A
   * directory of that name takes the file inside it, so the archive's own
   * listing stays as it was; otherwise the file is put under its name,
   * replacing a file of that name.
   */
  function MoveInto(es: seq<Entry>, e: Entry): (r: seq<Entry>)
    requires DistinctNames(es)
    ensures DistinctNames(r) && HasName(r, e.name)
    ensures HasDirectory(es, e.name) ==> r == es
    ensures !HasDirectory(es, e.name) ==> e in r && |r| <= |es| + 1
    ensures forall x :: x in es && (x.name != e.name || !x.isFile) ==> x in r
    ensures forall x :: x in r ==> x == e || x in es
  {
    if HasDirectory(es, e.name) then es else Put(es, e)
  }

  /** Moving a file into the archive keeps every name the archive had. */
  lemma MoveIntoKeepsName(es: seq<Entry>, e: Entry, n: string)
    requires DistinctNames(es) && HasName(es, n)
    ensures HasName(MoveInto(es, e), n)
  {
    var k :| 0 <= k < |es| && es[k].name == n;
    if n != e.name {
      assert es[k] in MoveInto(es, e);
      var j :| 0 <= j < |MoveInto(es, e)| && MoveInto(es, e)[j] == es[k];
    }
  }

  /**
   * The moves of `xs` into the archive one after another. Every moved name
   * is there afterwards, no directory of the archive is ever replaced, and
   * nothing but the archive's entries and the moved files appears.
   */
  function MoveAllInto(es: seq<Entry>, xs: seq<Entry>): (r: seq<Entry>)
    requires DistinctNames(es)
    ensures DistinctNames(r)
    ensures forall x :: x in xs ==> HasName(r, x.name)
    ensures forall d :: d in es && !d.isFile ==> d in r
    ensures forall x :: x in r ==> x in es || x in xs
    decreases |xs|
  {
    if xs == [] then es
    else
      var init := xs[..|xs| - 1];
      var x := xs[|xs| - 1];
      var before := MoveAllInto(es, init);
      var r := MoveInto(before, x);
      forall y | y in xs ensures HasName(r, y.name) {
        if y != x {
          assert y in init;
          MoveIntoKeepsName(before, x, y.name);
        }
      }
      r
  }

  lemma {:induction false} MoveAllIntoStep(es: seq<Entry>, xs: seq<Entry>, x: Entry)
    requires DistinctNames(es)
    ensures MoveAllInto(es, xs + [x]) == MoveInto(MoveAllInto(es, xs), x)
  {
    assert (xs + [x])[..|xs|] == xs;
  }

  /** Moving a file whose name is a directory of the archive leaves the archive's listing unchanged. */
  lemma MoveOntoDirectory(es: seq<Entry>, f: Entry)
    requires DistinctNames(es) && f.isFile && HasDirectory(es, f.name)
    ensures MoveAllInto(es, [f]) == es
    ensures f !in MoveAllInto(es, [f])
  {
    MoveAllIntoStep(es, [], f);
    assert [] + [f] == [f];
    var k :| 0 <= k < |es| && es[k].name == f.name && !es[k].isFile;
  }

  // ---------------------------------------------------------------------------
  // The folder
  // ---------------------------------------------------------------------------

  class Folder {
    var present: bool
    var entries: seq<Entry>
    /** The listing of `_SUPERSEDED`; empty while that folder does not exist. */
    var superseded: seq<Entry>
    /** Paths a transition asked to make read-only, in order (a refusal is ignored). */
    var locked: seq<string>

    ghost predicate Valid()
      reads this
    {
      && DistinctNames(entries) && DistinctNames(superseded)
      && (!HasName(entries, SupersededFolder) ==> superseded == [])
    }

    constructor (present: bool, entries: seq<Entry>, superseded: seq<Entry>)
      requires DistinctNames(entries) && DistinctNames(superseded)
      requires !HasName(entries, SupersededFolder) ==> superseded == []
      ensures Valid()
      ensures this.present == present && this.entries == entries && this.superseded == superseded
      ensures locked == []
    {
      this.present := present;
      this.entries := entries;
      this.superseded := superseded;
      this.locked := [];
    }

    /**
     * `create_new_asset` on the folder that would hold the asset: an existing
     * folder is left as it is; otherwise the template is copied in and the
     * pipeline marker written. Either way the asset's folder name is returned.
     */
    method CreateNewAsset(subco: string, assetType: string, assetId: string, name: string,
                          location: string, pm: string, template: seq<Entry>,
                          templateArchive: seq<Entry>, clock: Clock, plan: Schedule)
      returns (r: Outcome<string>)
      requires Valid()
      requires DistinctNames(template) && DistinctNames(templateArchive)
      requires !HasName(template, SupersededFolder) ==> templateArchive == []
      modifies this
      ensures Valid() && locked == old(locked)
      ensures old(present) ==> r == Returned(AssetFolderName(subco, assetType, assetId, name, location))
                               && unchanged(this)
      ensures !old(present) ==> present && superseded == templateArchive
      ensures !old(present) && MarkerBlocked(template) ==> r == Raised && entries == template
      ensures !old(present) && !MarkerBlocked(template) ==>
                && r == Returned(AssetFolderName(subco, assetType, assetId, name, location))
                && entries == Put(template, Written(PipelineMarkerName, PipelineBody(pm, clock, plan), clock.mtime))
    {
      var folder := AssetFolderName(subco, assetType, assetId, name, location);
      if present {
        return Returned(folder);
      }
      present := true;
      entries := template;
      superseded := templateArchive;
      var marker := Written(PipelineMarkerName, PipelineBody(pm, clock, plan), clock.mtime);
      var written := WriteFile(marker);
      r := if written then Returned(folder) else Raised;
    }

    /**
     * The closing step of `transition_phase`: the first entry named
     * `_STATUS_<current>...` gets the closure lines appended; opening a
     * directory for append raises and nothing changes.
     */
    method CloseMarker(current: string, clock: Clock) returns (closed: bool)
      requires Valid()
      modifies this
      ensures Valid() && present == old(present) && superseded == old(superseded) && locked == old(locked)
      ensures closed <==> CloseCurrent(old(entries), current, clock).Returned?
      ensures entries == if closed then CloseCurrent(old(entries), current, clock).value else old(entries)
    {
      var found := FindPrefixed(entries, MarkerPrefix + current);
      if found.Some? {
        var e := entries[found.value];
        if !e.isFile {
          return false;
        }
        CloseKeepsShape(entries, current, clock);
        entries := entries[found.value := Written(e.name, e.content + ClosureLines(clock.today), clock.mtime)];
      }
      closed := true;
    }

    /**
     * `open(path, 'w')` and a write: the file replaces an entry of its name
     * or joins the listing; a directory of that name makes the open raise
     * and nothing changes.
     */
    method WriteFile(m: Entry) returns (written: bool)
      requires Valid()
      modifies this
      ensures Valid() && present == old(present) && superseded == old(superseded) && locked == old(locked)
      ensures written <==> !HasDirectory(old(entries), m.name)
      ensures entries == if written then Put(old(entries), m) else old(entries)
    {
      FindNameKind(entries, m.name);
      match FindName(entries, m.name) {
        case Some(k) =>
          if !entries[k].isFile {
            return false;
          }
        case None =>
      }
      PutKeepsArchive(entries, superseded, m);
      entries := Put(entries, m);
      written := true;
    }

    /**
     * `transition_phase`: a missing folder gives False; otherwise the current
     * marker is closed, the new one written and the table's folders
     * protected, each step as `Transitioned` states, and True is returned.
     * A step that raises leaves the earlier steps' effects in place.
     */
    method TransitionPhase(code: string, pm: string, clock: Clock) returns (r: Outcome<bool>)
      requires Valid()
      modifies this
      ensures Valid() && present == old(present) && superseded == old(superseded)
      ensures !old(present) ==> r == Returned(false) && unchanged(this)
      ensures old(present) ==>
                var t := Transitioned(old(entries), code, pm, clock);
                && entries == t.entries && locked == old(locked) + t.locks
                && r == (if t.raised then Raised else Returned(true))
    {
      if !present {
        return Returned(false);
      }
      ghost var es := entries;
      var current := CurrentPhase(entries);
      var closed := CloseMarker(current, clock);
      if !closed {
        TransitionRaisedClosing(es, code, pm, clock);
        return Raised;
      }
      TransitionAfterClosing(es, code, pm, clock, entries);
      var m := NewMarker(code, pm, clock);
      var written := WriteFile(m);
      if !written {
        return Raised;
      }
      Protect(LockedOnEntry(code));
      r := Returned(true);
    }

    /** The locking loop of `transition_phase`: every listed folder that exists is protected, in order. */
    method Protect(targets: seq<string>)
      modifies this
      ensures locked == old(locked) + Existing(entries, targets)
      ensures present == old(present) && entries == old(entries) && superseded == old(superseded)
    {
      var j := 0;
      while j < |targets|
        invariant 0 <= j <= |targets|
        invariant present == old(present) && entries == old(entries) && superseded == old(superseded)
        invariant locked == old(locked) + Existing(entries, targets[..j])
      {
        assert targets[..j + 1][..j] == targets[..j];
        if HasName(entries, targets[j]) {
          locked := locked + [targets[j]];
        }
        j := j + 1;
      }
      assert targets[..j] == targets;
    }

    /**
     * `manage_superseded_versions` on this folder: a missing folder gives 0
     * and changes nothing; otherwise the archive folder is ensured, the files
     * `ToMove` names leave the listing for `_SUPERSEDED` (an archived file of
     * the same name is replaced, an archived directory of the same name takes
     * the file inside it), and their number is returned. For
     * `keep >= 0` a second run right after moves nothing.
     */
    method ManageSupersededVersions(keep: int, now: int) returns (r: Outcome<nat>)
      requires Valid()
      modifies this
      ensures Valid() && present == old(present) && locked == old(locked)
      ensures !old(present) ==> r == Returned(0) && unchanged(this)
      ensures old(present) && ArchiveBlocked(old(entries)) ==> r == Raised && unchanged(this)
      ensures old(present) && !ArchiveBlocked(old(entries)) ==>
                var listing := Prepared(old(entries), now);
                var moved := ToMove(listing, keep);
                && r == Returned(|moved|)
                && entries == Without(listing, moved)
                && superseded == MoveAllInto(old(superseded), moved)
      ensures old(present) && r.Returned? && keep >= 0 ==> ToMove(entries, keep) == []
    {
      if !present {
        return Returned(0);
      }
      ghost var before := entries;
      if HasFile(entries, SupersededFolder) {
        return Raised;
      }
      if !HasName(entries, SupersededFolder) {
        entries := entries + [NewDirectory(SupersededFolder, now)];
      }
      var listing := entries;
      ArchiveRunSettled(before, now, keep);
      var groups, keys := GroupFiles(listing);
      r := MoveSuperseded(listing, groups, keys, keep);
    }

    /** The second loop of `manage_superseded_versions`: each group in key order, all but its newest `keep`. */
    method MoveSuperseded(listing: seq<Entry>, groups: map<string, seq<Entry>>, keys: seq<string>, keep: int)
      returns (r: Outcome<nat>)
      requires DistinctNames(superseded) && entries == listing
      requires forall k :: k in groups <==> k in keys
      requires forall k :: k in groups ==> groups[k] == Group(listing, k)
      modifies this
      ensures present == old(present) && locked == old(locked)
      ensures r == Returned(|MovesFor(listing, keys, keep)|)
      ensures entries == Without(listing, MovesFor(listing, keys, keep))
      ensures superseded == MoveAllInto(old(superseded), MovesFor(listing, keys, keep))
    {
      ghost var archived := superseded;
      ghost var moved: seq<Entry> := [];
      WithoutNothing(listing);
      assert keys[..0] == [];
      var count: nat := 0;
      var j := 0;
      while j < |keys|
        invariant 0 <= j <= |keys|
        invariant present == old(present) && locked == old(locked)
        invariant moved == MovesFor(listing, keys[..j], keep)
        invariant entries == Without(listing, moved)
        invariant superseded == MoveAllInto(archived, moved)
        invariant count == |moved|
      {
        MovesForStep(listing, keys, j, keep);
        assert keys[j] in groups;
        var files := groups[keys[j]];
        assert files == Group(listing, keys[j]);
        var n := MoveGroup(files, keep, listing, moved, archived);
        moved := moved + Superseded(files, keep);
        count := count + n;
        j := j + 1;
      }
      assert keys[..j] == keys;
      r := Returned(count);
    }

    /** One group: skipped when FINAL/APPROVED touches it, else ranked newest first and all but `keep` moved. */
    method MoveGroup(files: seq<Entry>, keep: int, ghost listing: seq<Entry>, ghost done: seq<Entry>,
                     ghost archived: seq<Entry>)
      returns (n: nat)
      requires DistinctNames(archived)
      requires entries == Without(listing, done) && superseded == MoveAllInto(archived, done)
      modifies this
      ensures n == |Superseded(files, keep)|
      ensures present == old(present) && locked == old(locked)
      ensures entries == Without(listing, done + Superseded(files, keep))
      ensures superseded == MoveAllInto(archived, done + Superseded(files, keep))
    {
      n := 0;
      if !Exempt(files) {
        var ranked := SortNewestFirst(files);
        if |ranked| > keep {
          n := MoveToArchive(DropPy(ranked, keep), listing, done, archived);
          return;
        }
      }
      assert done + [] == done;
    }

    /** `shutil.move` of each victim into `_SUPERSEDED`, counting the moves. */
    method MoveToArchive(victims: seq<Entry>, ghost listing: seq<Entry>, ghost done: seq<Entry>,
                         ghost archived: seq<Entry>)
      returns (n: nat)
      requires DistinctNames(archived)
      requires entries == Without(listing, done) && superseded == MoveAllInto(archived, done)
      modifies this
      ensures n == |victims|
      ensures present == old(present) && locked == old(locked)
      ensures entries == Without(listing, done + victims)
      ensures superseded == MoveAllInto(archived, done + victims)
    {
      n := 0;
      assert done + victims[..0] == done;
      while n < |victims|
        invariant 0 <= n <= |victims|
        invariant present == old(present) && locked == old(locked)
        invariant entries == Without(listing, done + victims[..n])
        invariant superseded == MoveAllInto(archived, done + victims[..n])
      {
        MoveStep(listing, archived, done, victims, n);
        entries := Without(entries, [victims[n]]);
        superseded := MoveInto(superseded, victims[n]);
        n := n + 1;
      }
      assert victims[..n] == victims;
    }
  }

  /** Writing a file into a folder keeps its names distinct and its archive folder, if it had one. */
  lemma PutKeepsArchive(es: seq<Entry>, archive: seq<Entry>, m: Entry)
    requires DistinctNames(es) && (!HasName(es, SupersededFolder) ==> archive == [])
    ensures DistinctNames(Put(es, m)) && (!HasName(Put(es, m), SupersededFolder) ==> archive == [])
  {
    if HasName(es, SupersededFolder) {
      PutKeepsName(es, m, SupersededFolder);
    }
  }

  /** Moving the next victim extends the moved prefix by one. */
  lemma MoveStep(listing: seq<Entry>, archived: seq<Entry>, done: seq<Entry>, victims: seq<Entry>, n: nat)
    requires DistinctNames(archived) && n < |victims|
    ensures Without(Without(listing, done + victims[..n]), [victims[n]]) == Without(listing, done + victims[..n + 1])
    ensures MoveInto(MoveAllInto(archived, done + victims[..n]), victims[n]) == MoveAllInto(archived, done + victims[..n + 1])
  {
    var prior := done + victims[..n];
    assert prior + [victims[n]] == done + victims[..n + 1];
    WithoutWithout(listing, prior, [victims[n]]);
    MoveAllIntoStep(archived, prior, victims[n]);
  }

  /**
   * The run of `manage_superseded_versions` on a folder where `makedirs`
   * succeeds: the prepared listing has distinct names, and after its moves
   * it keeps distinct names and the archive folder and (for `keep >= 0`)
   * offers nothing more to move.
   */
  lemma ArchiveRunSettled(es: seq<Entry>, now: int, keep: int)
    requires DistinctNames(es) && !ArchiveBlocked(es)
    ensures var listing := Prepared(es, now);
      var left := Without(listing, ToMove(listing, keep));
      && DistinctNames(listing)
      && DistinctNames(left) && HasName(left, SupersededFolder)
      && (keep >= 0 ==> ToMove(left, keep) == [])
  {
    var listing := Prepared(es, now);
    if HasName(es, SupersededFolder) {
      var k :| 0 <= k < |es| && es[k].name == SupersededFolder;
      assert !es[k].isFile;
    } else {
      assert listing[|listing| - 1].name == SupersededFolder;
    }
    assert HasDirectory(listing, SupersededFolder);
    ArchiveSettled(listing, keep);
  }

  /**
   * After the moves the listing keeps distinct names and its archive folder,
   * and (for `keep >= 0`) offers nothing more to move.
   */
  lemma ArchiveSettled(listing: seq<Entry>, keep: int)
    requires DistinctNames(listing) && HasDirectory(listing, SupersededFolder)
    ensures var left := Without(listing, ToMove(listing, keep));
      && DistinctNames(left) && HasName(left, SupersededFolder)
      && (keep >= 0 ==> ToMove(left, keep) == [])
  {
    var moved := ToMove(listing, keep);
    WithoutDistinct(listing, moved);
    OnlyGroupedFilesMove(listing, keep);
    WithoutMembers(listing, moved);
    var k :| 0 <= k < |listing| && listing[k].name == SupersededFolder && !listing[k].isFile;
    var d := listing[k];
    assert d in Without(listing, moved);
    var i :| 0 <= i < |Without(listing, moved)| && Without(listing, moved)[i] == d;
    if keep >= 0 {
      RerunMovesNothing(listing, keep);
    }
  }

  /** `file_groups` and its keys in insertion order stand for the grouping of `es`. */
  ghost predicate GroupsOf(es: seq<Entry>, groups: map<string, seq<Entry>>, keys: seq<string>) {
    && keys == GroupKeys(es)
    && (forall k :: k in groups <==> k in keys)
    && (forall k :: k in groups ==> groups[k] == Group(es, k))
  }

  /**
   * The grouping loop of `manage_superseded_versions`: `file_groups` with its
   * keys in insertion order.
   */
  method GroupFiles(listing: seq<Entry>) returns (groups: map<string, seq<Entry>>, keys: seq<string>)
    ensures keys == GroupKeys(listing)
    ensures forall k :: k in groups <==> k in keys
    ensures forall k :: k in groups ==> groups[k] == Group(listing, k)
  {
    groups := map[];
    keys := [];
    var i := 0;
    while i < |listing|
      invariant 0 <= i <= |listing|
      invariant GroupsOf(listing[..i], groups, keys)
    {
      var e := listing[i];
      var grouped := false;
      if e.isFile {
        var parts := Split(e.name, '_');
        if |parts| >= 5 {
          var base := Join(parts[..|parts| - 2], '_');
          assert base == BaseName(e.name);
          GroupAdd(listing, i, groups, keys);
          if base !in groups {
            groups := groups[base := []];
            keys := keys + [base];
          }
          groups := groups[base := groups[base] + [e]];
          grouped := true;
        }
      }
      if !grouped {
        GroupSkip(listing, i, groups, keys);
      }
      i := i + 1;
    }
    assert listing[..i] == listing;
  }

  /** A grouped file joins its group, which is created (and its key recorded) on first sight. */
  lemma GroupAdd(listing: seq<Entry>, i: nat, groups: map<string, seq<Entry>>, keys: seq<string>)
    requires i < |listing| && Groupable(listing[i])
    requires GroupsOf(listing[..i], groups, keys)
    ensures var e := listing[i];
      var base := BaseName(e.name);
      var g1 := if base !in groups then groups[base := []] else groups;
      var k1 := if base !in groups then keys + [base] else keys;
      GroupsOf(listing[..i + 1], g1[base := g1[base] + [e]], k1)
  {
    var base := BaseName(listing[i].name);
    if base !in groups {
      GroupNew(listing, i, groups, keys);
    } else {
      GroupKnown(listing, i, groups, keys);
    }
  }

  lemma GroupNew(listing: seq<Entry>, i: nat, groups: map<string, seq<Entry>>, keys: seq<string>)
    requires i < |listing| && Groupable(listing[i])
    requires GroupsOf(listing[..i], groups, keys) && BaseName(listing[i].name) !in groups
    ensures var e := listing[i];
      GroupsOf(listing[..i + 1], groups[BaseName(e.name) := [e]], keys + [BaseName(e.name)])
  {
    var e := listing[i];
    var base := BaseName(e.name);
    var g := groups[base := [e]];
    GroupKeysStep(listing, i);
    GroupOutsideKeys(listing[..i], base);
    forall k | k in g ensures g[k] == Group(listing[..i + 1], k) {
      GroupStepAt(listing, i, k);
      if k == base {
        assert [] + [e] == [e];
      }
    }
  }

  lemma GroupKnown(listing: seq<Entry>, i: nat, groups: map<string, seq<Entry>>, keys: seq<string>)
    requires i < |listing| && Groupable(listing[i])
    requires GroupsOf(listing[..i], groups, keys) && BaseName(listing[i].name) in groups
    ensures var e := listing[i];
      var base := BaseName(e.name);
      GroupsOf(listing[..i + 1], groups[base := groups[base] + [e]], keys)
  {
    var e := listing[i];
    var base := BaseName(e.name);
    var g := groups[base := groups[base] + [e]];
    GroupKeysStep(listing, i);
    forall k | k in g ensures g[k] == Group(listing[..i + 1], k) {
      GroupStepAt(listing, i, k);
    }
  }

  /** Anything else leaves the grouping as it was. */
  lemma GroupSkip(listing: seq<Entry>, i: nat, groups: map<string, seq<Entry>>, keys: seq<string>)
    requires i < |listing| && !Groupable(listing[i])
    requires GroupsOf(listing[..i], groups, keys)
    ensures GroupsOf(listing[..i + 1], groups, keys)
  {
    GroupKeysStep(listing, i);
    forall k | k in groups ensures groups[k] == Group(listing[..i + 1], k) {
      GroupStepAt(listing, i, k);
    }
  }

  /** The template cannot take the pipeline marker: a directory already has its name. */
  predicate MarkerBlocked(template: seq<Entry>) {
    HasDirectory(template, PipelineMarkerName)
  }

  // ---------------------------------------------------------------------------
  // What creation promises
  // ---------------------------------------------------------------------------

  lemma PipelineMarkerNameIsMarker()
    ensures PipelineMarkerName == MarkerFileName("01", MarkerLabel("01"))
    ensures StartsWith(PipelineMarkerName, MarkerPrefix)
    ensures MarkerCode(PipelineMarkerName) == Some("01")
  {
    MarkerCodeOfFileName("01", "PIPELINE");
  }

  /**
   * A new asset made from a template without status markers holds exactly
   * one marker, `_STATUS_01_PIPELINE.txt`, whose text has the open
   * `Phase Closed:` line, so its phase reads "01" in both variants.
   */
  lemma CreatedAssetIsPipeline(template: seq<Entry>, pm: string, clock: Clock, plan: Schedule, filesOnly: bool)
    requires DistinctNames(template)
    requires forall e :: e in template ==> !StartsWith(e.name, MarkerPrefix)
    ensures var m := Written(PipelineMarkerName, PipelineBody(pm, clock, plan), clock.mtime);
      var after := Put(template, m);
      && MarkerNames(after, filesOnly) == [PipelineMarkerName]
      && Contains(m.content, OpenLine)
      && PhaseFrom(MarkerCodes(after, filesOnly)) == "01"
  {
    var m := Written(PipelineMarkerName, PipelineBody(pm, clock, plan), clock.mtime);
    PipelineMarkerNameIsMarker();
    PipelineBodyIsOpen(pm, clock, plan);
    forall k | 0 <= k < |template| ensures template[k].name != PipelineMarkerName {
      assert template[k] in template;
    }
    assert Put(template, m) == template + [m];
    MarkerNamesConcat(template, [m], filesOnly);
    MarkerNamesNone(template, filesOnly);
    assert MarkerNames([m], filesOnly) == MarkerNames([], filesOnly) + [PipelineMarkerName];
    assert CodesOf([PipelineMarkerName]) == CodesOf([]) + ["01"];
    assert MaxOf(["01"]) == "01" by {
      LexLeReflexive("01");
    }
  }
}
