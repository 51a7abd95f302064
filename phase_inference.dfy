/**
 * Phase inference: an asset's current phase is never stored; it is the
 * greatest code among the status markers in its folder, or "00" when there
 * are none. This module holds the notebook's `get_current_phase` (which looks
 * at every name, files and directories alike) and the definitions it shares
 * with the checked variant in `tools/lifecycle_ops.py` (module LifecycleOps).
 */
module PhaseInference {
  import opened Text
  import opened Listing
  import opened Ordering
  import opened Naming

  const NoPhase: string := "00"

  /**
   * A status marker: an entry whose name starts with `_STATUS_`; with
   * `filesOnly` it must also be a regular file.
   */
  predicate IsMarker(e: Entry, filesOnly: bool) {
    StartsWith(e.name, MarkerPrefix) && (e.isFile || !filesOnly)
  }

  /** Names of the markers among `es`, in listing order. */
  function MarkerNames(es: seq<Entry>, filesOnly: bool): seq<string>
    decreases |es|
  {
    if es == [] then []
    else
      var last := es[|es| - 1];
      MarkerNames(es[..|es| - 1], filesOnly) + (if IsMarker(last, filesOnly) then [last.name] else [])
  }

  /** The codes extracted from marker names; a name without a third `_`-piece is skipped. */
  function CodesOf(names: seq<string>): seq<string>
    decreases |names|
  {
    if names == [] then []
    else
      var rest := CodesOf(names[..|names| - 1]);
      match MarkerCode(names[|names| - 1])
      case Some(code) => rest + [code]
      case None => rest
  }

  /** The marker codes visible in a listing. */
  function MarkerCodes(es: seq<Entry>, filesOnly: bool): seq<string> {
    CodesOf(MarkerNames(es, filesOnly))
  }

  /** `max(phases) if phases else '00'` */
  function PhaseFrom(codes: seq<string>): string {
    if codes == [] then NoPhase else MaxOf(codes)
  }

  // ---------------------------------------------------------------------------
  // Facts about the marker sets
  // ---------------------------------------------------------------------------

  lemma {:induction false} MarkerNamesConcat(a: seq<Entry>, b: seq<Entry>, filesOnly: bool)
    ensures MarkerNames(a + b, filesOnly) == MarkerNames(a, filesOnly) + MarkerNames(b, filesOnly)
    decreases |b|
  {
    if b == [] {
      assert a + b == a;
    } else {
      var b' := b[..|b| - 1];
      assert (a + b)[..|a + b| - 1] == a + b';
      MarkerNamesConcat(a, b', filesOnly);
    }
  }

  /** The names collected are exactly the markers of the listing. */
  lemma {:induction false} MarkerNamesMembers(es: seq<Entry>, filesOnly: bool)
    ensures forall n :: n in MarkerNames(es, filesOnly) <==>
                        exists e :: e in es && IsMarker(e, filesOnly) && e.name == n
    ensures forall n :: n in MarkerNames(es, filesOnly) ==> StartsWith(n, MarkerPrefix)
    decreases |es|
  {
    if es != [] {
      var init := es[..|es| - 1];
      MarkerNamesMembers(init, filesOnly);
      assert es == init + [es[|es| - 1]];
      assert forall e :: e in es <==> e in init || e == es[|es| - 1];
    }
  }

  lemma {:induction false} MarkerNamesNone(es: seq<Entry>, filesOnly: bool)
    requires forall k :: 0 <= k < |es| ==> !IsMarker(es[k], filesOnly)
    ensures MarkerNames(es, filesOnly) == []
    decreases |es|
  {
    if es != [] {
      MarkerNamesNone(es[..|es| - 1], filesOnly);
    }
  }

  /** Every marker name has a code, so no marker is skipped: one code per marker. */
  lemma {:induction false} CodesOfMarkerNames(names: seq<string>)
    requires forall n :: n in names ==> StartsWith(n, MarkerPrefix)
    ensures |CodesOf(names)| == |names|
    ensures forall k :: 0 <= k < |names| ==> MarkerCode(names[k]) == Some(CodesOf(names)[k])
    decreases |names|
  {
    if names != [] {
      var init := names[..|names| - 1];
      CodesOfMarkerNames(init);
      MarkerCodeOfPrefixed(names[|names| - 1]);
    }
  }

  /** A listing has marker codes exactly when some entry is a marker. */
  lemma NoCodesIffNoMarkers(es: seq<Entry>, filesOnly: bool)
    ensures MarkerCodes(es, filesOnly) == [] <==> forall e :: e in es ==> !IsMarker(e, filesOnly)
  {
    var names := MarkerNames(es, filesOnly);
    MarkerNamesMembers(es, filesOnly);
    CodesOfMarkerNames(names);
    if names != [] {
      assert names[0] in names;
    }
    forall e | e in es && IsMarker(e, filesOnly) ensures names != [] {
      assert exists e' :: e' in es && IsMarker(e', filesOnly) && e'.name == e.name;
      assert e.name in names;
    }
  }

  /** A code is visible exactly when some marker of the listing carries it. */
  lemma MarkerCodesMembers(es: seq<Entry>, filesOnly: bool)
    ensures forall c :: c in MarkerCodes(es, filesOnly) <==>
                        exists e :: e in es && IsMarker(e, filesOnly) && MarkerCode(e.name) == Some(c)
  {
    var names := MarkerNames(es, filesOnly);
    MarkerNamesMembers(es, filesOnly);
    CodesOfMarkerNames(names);
    forall c | c in MarkerCodes(es, filesOnly)
      ensures exists e :: e in es && IsMarker(e, filesOnly) && MarkerCode(e.name) == Some(c)
    {
      var k :| 0 <= k < |names| && CodesOf(names)[k] == c;
      assert names[k] in names;
    }
    forall e | e in es && IsMarker(e, filesOnly)
      ensures MarkerCode(e.name).Some? && MarkerCode(e.name).value in MarkerCodes(es, filesOnly)
    {
      assert exists e' :: e' in es && IsMarker(e', filesOnly) && e'.name == e.name;
      assert e.name in names;
      var k :| 0 <= k < |names| && names[k] == e.name;
      assert CodesOf(names)[k] in CodesOf(names);
    }
  }

  /** Adding one more marker code raises the phase to the larger of the two. */
  lemma PhaseFromAppend(codes: seq<string>, x: string)
    ensures PhaseFrom(codes + [x]) == if codes == [] then x else LexMax(PhaseFrom(codes), x)
  {
    if codes != [] {
      MaxOfAppend(codes, x);
    } else {
      assert codes + [x] == [x];
    }
  }

  // ---------------------------------------------------------------------------
  // Fixed-width codes: the string maximum is the numeric maximum
  // ---------------------------------------------------------------------------

  predicate TwoDigitCode(s: string) {
    |s| == 2 && IsDigit(s[0]) && IsDigit(s[1])
  }

  function CodeValue(s: string): nat
    requires TwoDigitCode(s)
  {
    (s[0] as int - '0' as int) * 10 + (s[1] as int - '0' as int)
  }

  lemma LexLeIsNumericLe(a: string, b: string)
    requires TwoDigitCode(a) && TwoDigitCode(b)
    ensures LexLe(a, b) <==> CodeValue(a) <= CodeValue(b)
  {
    assert a[1..][1..] == [] && b[1..][1..] == [];
    assert a[1..][0] == a[1] && b[1..][0] == b[1];
    assert LexLe(a[1..], b[1..]) == (a[1] < b[1] || a[1] == b[1]);
    assert LexLe(a, b) == (a[0] < b[0] || (a[0] == b[0] && LexLe(a[1..], b[1..])));
  }

  /** For two-digit codes the phase (string maximum) carries the largest numeric value. */
  lemma PhaseIsNumericMax(codes: seq<string>)
    requires |codes| > 0
    requires forall k :: 0 <= k < |codes| ==> TwoDigitCode(codes[k])
    ensures PhaseFrom(codes) in codes && TwoDigitCode(PhaseFrom(codes))
    ensures forall k :: 0 <= k < |codes| ==> CodeValue(codes[k]) <= CodeValue(PhaseFrom(codes))
  {
    var m := MaxOf(codes);
    forall k | 0 <= k < |codes| ensures CodeValue(codes[k]) <= CodeValue(m) {
      LexLeIsNumericLe(codes[k], m);
    }
  }

  // ---------------------------------------------------------------------------
  // get_current_phase (notebook)
  // ---------------------------------------------------------------------------

  /**
   * The notebook's `get_current_phase`: every listed name starting with
   * `_STATUS_`, regardless of kind, contributes its code; "00" when there is
   * no such name. No existence check: the folder is assumed to exist.
   */
  method CurrentPhase(entries: seq<Entry>) returns (phase: string)
    ensures phase == PhaseFrom(MarkerCodes(entries, false))
    ensures (forall e :: e in entries ==> !IsMarker(e, false)) ==> phase == NoPhase
    ensures (exists e :: e in entries && IsMarker(e, false)) ==>
              && phase in MarkerCodes(entries, false)
              && forall c :: c in MarkerCodes(entries, false) ==> LexLe(c, phase)
  {
    NoCodesIffNoMarkers(entries, false);
    var statusFiles: seq<string> := [];
    var i := 0;
    while i < |entries|
      invariant 0 <= i <= |entries|
      invariant statusFiles == MarkerNames(entries[..i], false)
    {
      assert entries[..i + 1][..i] == entries[..i];
      if StartsWith(entries[i].name, MarkerPrefix) {
        statusFiles := statusFiles + [entries[i].name];
      }
      i := i + 1;
    }
    assert entries[..i] == entries;
    if statusFiles == [] {
      return NoPhase;
    }
    var phases: seq<string> := [];
    var j := 0;
    while j < |statusFiles|
      invariant 0 <= j <= |statusFiles|
      invariant phases == CodesOf(statusFiles[..j])
    {
      assert statusFiles[..j + 1][..j] == statusFiles[..j];
      match MarkerCode(statusFiles[j]) {
        case Some(code) => phases := phases + [code];
        case None =>
      }
      j := j + 1;
    }
    assert statusFiles[..j] == statusFiles;
    phase := if phases != [] then MaxOf(phases) else NoPhase;
  }
}
