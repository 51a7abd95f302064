/**
 * The phase timeline of one asset (`get_asset_timeline`): one row per status
 * marker whose text has a `Phase Started:` line, giving the phase, its start
 * date, its close date and whether it is closed, ordered by phase number.
 *
 * `AssetTimeline` reads each close date as the notebook does, from the FIRST
 * `Phase Closed:` line, which in a marker closed by a transition is still the
 * open sentinel, so such a phase is reported `Active`. `AssetTimelineCorrected`
 * reads the LAST such line, the one the closure appended. The methods at the
 * end of the module set the two side by side on a closed marker.
 */
module Timeline {
  import opened Text
  import opened Listing
  import opened Ordering
  import opened Naming
  import opened PhaseInference
  import opened Lifecycle

  const StartedKey: string := "Phase Started:"
  const ClosedKey: string := "Phase Closed:"

  /** One timeline row; `endDate` is None where no close date was found. */
  datatype TimelineRow = TimelineRow(phase: string, phaseNumber: string, startDate: string,
                                     endDate: Option<string>, status: string)

  // ---------------------------------------------------------------------------
  // Reading a marker's text
  // ---------------------------------------------------------------------------

  /** `[l for l in lines if p in l][0]`, as an index. */
  function FirstLineWith(lines: seq<string>, p: string): (i: nat)
    requires exists k :: 0 <= k < |lines| && Contains(lines[k], p)
    ensures i < |lines| && Contains(lines[i], p)
    ensures forall k :: 0 <= k < i ==> !Contains(lines[k], p)
    decreases |lines|
  {
    if Contains(lines[0], p) then 0
    else
      assert exists k :: 0 <= k < |lines[1..]| && Contains(lines[1..][k], p) by {
        var k :| 0 <= k < |lines| && Contains(lines[k], p);
        assert lines[1..][k - 1] == lines[k];
      }
      var i := 1 + FirstLineWith(lines[1..], p);
      assert forall k :: 1 <= k < i ==> lines[k] == lines[1..][k - 1];
      i
  }

  /** `[l for l in lines if p in l][-1]`, as an index. */
  function LastLineWith(lines: seq<string>, p: string): (i: nat)
    requires exists k :: 0 <= k < |lines| && Contains(lines[k], p)
    ensures i < |lines| && Contains(lines[i], p)
    ensures forall k :: i < k < |lines| ==> !Contains(lines[k], p)
    decreases |lines|
  {
    var n := |lines| - 1;
    if Contains(lines[n], p) then n
    else
      assert exists k :: 0 <= k < |lines[..n]| && Contains(lines[..n][k], p) by {
        var k :| 0 <= k < |lines| && Contains(lines[k], p);
        assert lines[..n][k] == lines[k];
      }
      LastLineWith(lines[..n], p)
  }

  /** The stripped text after `key` on line `i`. */
  function FieldAt(lines: seq<string>, i: nat, key: string): string
    requires key != [] && i < |lines| && Contains(lines[i], key)
  {
    Strip(AfterFirst(lines[i], key))
  }

  /** The start date: the field of the first line carrying `Phase Started:`. */
  function StartDate(content: string): string
    requires Contains(content, StartedKey)
  {
    ContainsSomePart(content, '\n', StartedKey);
    var lines := Split(content, '\n');
    FieldAt(lines, FirstLineWith(lines, StartedKey), StartedKey)
  }

  /**
   * The close date as the notebook reads it: the field of the FIRST line
   * carrying `Phase Closed:`, unless that field is the open sentinel.
   */
  function ClosedDateAsWritten(content: string): Option<string> {
    if !Contains(content, ClosedKey) then None
    else
      ContainsSomePart(content, '\n', ClosedKey);
      var lines := Split(content, '\n');
      var field := FieldAt(lines, FirstLineWith(lines, ClosedKey), ClosedKey);
      if field != OpenSentinel then Some(field) else None
  }

  /**
   * The close date as a closed marker records it: the field of the LAST line
   * carrying `Phase Closed:` (the closure a transition appends), unless that
   * field is the open sentinel.
   */
  function ClosedDate(content: string): Option<string> {
    if !Contains(content, ClosedKey) then None
    else
      ContainsSomePart(content, '\n', ClosedKey);
      var lines := Split(content, '\n');
      var field := FieldAt(lines, LastLineWith(lines, ClosedKey), ClosedKey);
      if field != OpenSentinel then Some(field) else None
  }

  /**
   * The row for a marker with start and close dates read; `if closed_date`
   * treats an empty close date as not closed.
   */
  function MakeRow(name: string, start: string, end: Option<string>): (row: TimelineRow)
    requires StartsWith(name, MarkerPrefix)
    ensures MarkerCode(name) == Some(row.phaseNumber)
    ensures row.phase == PhaseName(row.phaseNumber) && row.startDate == start && row.endDate == end
    ensures row.status == "Closed" <==> end.Some? && end.value != ""
    ensures row.status == "Active" <==> !(end.Some? && end.value != "")
  {
    MarkerCodeOfPrefixed(name);
    var code := MarkerCode(name).value;
    TimelineRow(PhaseName(code), code, start, end,
                if end.Some? && end.value != "" then "Closed" else "Active")
  }

  /** A marker file that contributes a row. */
  predicate Dated(e: Entry) {
    IsMarker(e, true) && Contains(e.content, StartedKey)
  }

  /** Which `Phase Closed:` line gives the close date. */
  datatype Reading = FirstClosedLine | LastClosedLine

  /** The row the notebook builds: close date from the first `Phase Closed:` line. */
  function RowAsWritten(e: Entry): TimelineRow
    requires Dated(e)
  {
    MakeRow(e.name, StartDate(e.content), ClosedDateAsWritten(e.content))
  }

  /** The corrected row: close date from the last `Phase Closed:` line. */
  function RowOf(e: Entry): TimelineRow
    requires Dated(e)
  {
    MakeRow(e.name, StartDate(e.content), ClosedDate(e.content))
  }

  function ClosedDateBy(content: string, reading: Reading): Option<string> {
    match reading
    case FirstClosedLine => ClosedDateAsWritten(content)
    case LastClosedLine => ClosedDate(content)
  }

  function RowBy(e: Entry, reading: Reading): TimelineRow
    requires Dated(e)
  {
    match reading
    case FirstClosedLine => RowAsWritten(e)
    case LastClosedLine => RowOf(e)
  }

  /**
   * The rows of a listing in listing order, before sorting; opening a marker
   * that is a directory raises. `FirstClosedLine` is the notebook's reading.
   */
  function TimelineRows(es: seq<Entry>, reading: Reading): Outcome<seq<TimelineRow>>
    decreases |es|
  {
    if es == [] then Returned([])
    else
      var e := es[|es| - 1];
      match TimelineRows(es[..|es| - 1], reading)
      case Raised => Raised
      case Returned(rows) =>
        if !StartsWith(e.name, MarkerPrefix) then Returned(rows)
        else if !e.isFile then Raised
        else if Contains(e.content, StartedKey) then Returned(rows + [RowBy(e, reading)])
        else Returned(rows)
  }

  /** A `_STATUS_` entry that is a directory: opening it raises. */
  predicate MarkerDirectory(e: Entry) {
    StartsWith(e.name, MarkerPrefix) && !e.isFile
  }

  /** The walk raises exactly when some `_STATUS_` entry is a directory, whichever line is read. */
  lemma {:induction false} TimelineRowsRaised(es: seq<Entry>, reading: Reading)
    ensures TimelineRows(es, reading).Raised? <==> exists k :: 0 <= k < |es| && MarkerDirectory(es[k])
    decreases |es|
  {
    if es != [] {
      var init := es[..|es| - 1];
      var e := es[|es| - 1];
      TimelineRowsRaised(init, reading);
      if TimelineRows(init, reading).Raised? {
        var k :| 0 <= k < |init| && MarkerDirectory(init[k]);
        assert es[k] == init[k];
      } else {
        assert TimelineRows(es, reading).Raised? == MarkerDirectory(e);
        if !MarkerDirectory(e) {
          forall k | 0 <= k < |es| ensures !MarkerDirectory(es[k]) {
            if k < |init| {
              assert es[k] == init[k];
            }
          }
        }
      }
    }
  }

  /** Every row is the row, under the same reading, of a dated marker file of the listing. */
  lemma {:induction false} TimelineRowsSound(es: seq<Entry>, reading: Reading)
    requires TimelineRows(es, reading).Returned?
    ensures forall row :: row in TimelineRows(es, reading).value ==>
              exists k :: 0 <= k < |es| && Dated(es[k]) && row == RowBy(es[k], reading)
    ensures |TimelineRows(es, reading).value| <= |es|
    decreases |es|
  {
    if es != [] {
      var init := es[..|es| - 1];
      var e := es[|es| - 1];
      TimelineRowsSound(init, reading);
      var rows := TimelineRows(init, reading).value;
      var all := TimelineRows(es, reading).value;
      assert all == if Dated(e) then rows + [RowBy(e, reading)] else rows;
      forall row | row in all
        ensures exists k :: 0 <= k < |es| && Dated(es[k]) && row == RowBy(es[k], reading)
      {
        if row in rows {
          var k :| 0 <= k < |init| && Dated(init[k]) && row == RowBy(init[k], reading);
          assert init[k] == es[k];
        } else {
          assert Dated(es[|es| - 1]) && row == RowBy(es[|es| - 1], reading);
        }
      }
    }
  }

  /** The dated marker file at position `k` has its row. */
  lemma {:induction false} TimelineRowAt(es: seq<Entry>, reading: Reading, k: nat)
    requires TimelineRows(es, reading).Returned? && k < |es| && Dated(es[k])
    ensures RowBy(es[k], reading) in TimelineRows(es, reading).value
    decreases |es|
  {
    var init := es[..|es| - 1];
    var e := es[|es| - 1];
    var rows := TimelineRows(init, reading).value;
    if k < |init| {
      assert init[k] == es[k];
      TimelineRowAt(init, reading, k);
      assert TimelineRows(es, reading).value == rows || TimelineRows(es, reading).value == rows + [RowBy(e, reading)];
    } else {
      assert TimelineRows(es, reading).value == rows + [RowBy(e, reading)];
    }
  }

  /** Every dated marker file of the listing has its row, under the reading used. */
  lemma TimelineRowsComplete(es: seq<Entry>, reading: Reading)
    requires TimelineRows(es, reading).Returned?
    ensures forall k :: 0 <= k < |es| && Dated(es[k]) ==> RowBy(es[k], reading) in TimelineRows(es, reading).value
  {
    forall k | 0 <= k < |es| && Dated(es[k]) ensures RowBy(es[k], reading) in TimelineRows(es, reading).value {
      TimelineRowAt(es, reading, k);
    }
  }

  function PhaseNumberOf(row: TimelineRow): string {
    row.phaseNumber
  }

  // ---------------------------------------------------------------------------
  // get_asset_timeline
  // ---------------------------------------------------------------------------

  /**
   * The loop of `get_asset_timeline` with the close date taken by `reading`:
   * listing a missing folder raises, a `_STATUS_` directory raises when
   * opened, and an asset with no dated marker raises when the empty table is
   * sorted by a column it does not have. Otherwise the rows, ordered by
   * phase number.
   */
  method ReadTimeline(present: bool, entries: seq<Entry>, reading: Reading) returns (r: Outcome<seq<TimelineRow>>)
    ensures !present ==> r.Raised?
    ensures present && TimelineRows(entries, reading).Raised? ==> r.Raised?
    ensures present && TimelineRows(entries, reading) == Returned([]) ==> r.Raised?
    ensures present && TimelineRows(entries, reading).Returned? && TimelineRows(entries, reading).value != [] ==>
              && r.Returned?
              && SortedByKey(r.value, PhaseNumberOf)
              && multiset(r.value) == multiset(TimelineRows(entries, reading).value)
  {
    if !present {
      return Raised;
    }
    var timeline: seq<TimelineRow> := [];
    var i := 0;
    while i < |entries|
      invariant 0 <= i <= |entries|
      invariant TimelineRows(entries[..i], reading) == Returned(timeline)
    {
      var e := entries[i];
      assert entries[..i + 1][..i] == entries[..i];
      if StartsWith(e.name, MarkerPrefix) {
        if !e.isFile {
          TimelineRowsRaised(entries[..i + 1], reading);
          TimelineRowsRaised(entries, reading);
          assert entries[..i + 1][i] == entries[i] && MarkerDirectory(entries[i]);
          return Raised;
        }
        if Contains(e.content, StartedKey) {
          var start := StartDate(e.content);
          var closed := ClosedDateBy(e.content, reading);
          timeline := timeline + [MakeRow(e.name, start, closed)];
        }
      }
      i := i + 1;
    }
    assert entries[..i] == entries;
    if timeline == [] {
      return Raised;
    }
    r := Returned(SortByKey(timeline, PhaseNumberOf));
  }

  /** `get_asset_timeline` as written: each close date from the first `Phase Closed:` line. */
  method AssetTimeline(present: bool, entries: seq<Entry>) returns (r: Outcome<seq<TimelineRow>>)
    ensures !present ==> r.Raised?
    ensures present && TimelineRows(entries, FirstClosedLine).Raised? ==> r.Raised?
    ensures present && TimelineRows(entries, FirstClosedLine) == Returned([]) ==> r.Raised?
    ensures present && TimelineRows(entries, FirstClosedLine).Returned? && TimelineRows(entries, FirstClosedLine).value != [] ==>
              && r.Returned?
              && SortedByKey(r.value, PhaseNumberOf)
              && multiset(r.value) == multiset(TimelineRows(entries, FirstClosedLine).value)
  {
    r := ReadTimeline(present, entries, FirstClosedLine);
  }

  /** `get_asset_timeline` corrected: each close date from the last `Phase Closed:` line. */
  method AssetTimelineCorrected(present: bool, entries: seq<Entry>) returns (r: Outcome<seq<TimelineRow>>)
    ensures !present ==> r.Raised?
    ensures present && TimelineRows(entries, LastClosedLine).Raised? ==> r.Raised?
    ensures present && TimelineRows(entries, LastClosedLine) == Returned([]) ==> r.Raised?
    ensures present && TimelineRows(entries, LastClosedLine).Returned? && TimelineRows(entries, LastClosedLine).value != [] ==>
              && r.Returned?
              && SortedByKey(r.value, PhaseNumberOf)
              && multiset(r.value) == multiset(TimelineRows(entries, LastClosedLine).value)
  {
    r := ReadTimeline(present, entries, LastClosedLine);
  }

  // ---------------------------------------------------------------------------
  // Reading the markers the engine writes
  // ---------------------------------------------------------------------------

  /** A `%Y-%m-%d` date: digits and dashes. */
  predicate IsDate(s: string) {
    s != [] && forall k :: 0 <= k < |s| ==> IsDigit(s[k]) || s[k] == '-'
  }

  /** A `%Y-%m-%d %H:%M:%S` stamp: digits, dashes, blanks and colons. */
  predicate IsStamp(s: string) {
    forall k :: 0 <= k < |s| ==> IsDigit(s[k]) || s[k] == '-' || s[k] == ' ' || s[k] == ':'
  }

  /** Free text on a marker line (a label, a PM's name): no colon, no line break. */
  predicate Plain(s: string) {
    ':' !in s && '\n' !in s
  }

  /** What the engine puts into a transition marker is readable. */
  predicate Readable(tag: string, pm: string, clock: Clock) {
    Plain(tag) && Plain(pm) && IsDate(clock.today) && IsStamp(clock.stamp)
  }

  lemma DateFacts(d: string)
    requires IsDate(d)
    ensures Plain(d) && d != OpenSentinel
    ensures !IsSpace(d[0]) && !IsSpace(d[|d| - 1])
  {
    assert forall k :: 0 <= k < |d| ==> d[k] != ':' && d[k] != '\n';
    assert OpenSentinel[0] == '[';
  }

  /** The line `key + " " + v` carries `key`, and its field is `v`. */
  lemma KeyedLine(key: string, v: string)
    requires key != [] && key[|key| - 1] == ':' && ':' !in v
    requires v != [] && !IsSpace(v[0]) && !IsSpace(v[|v| - 1])
    ensures Contains(key + " " + v, key)
    ensures Strip(AfterFirst(key + " " + v, key)) == v
  {
    assert key + " " + v == key + (" " + v);
    assert ':' !in " " + v;
    AfterPrefix(key, " " + v);
    StripLeadingBlank(v);
  }

  /** A line made of a label and a value holds no break when neither does. */
  lemma LabelledUnbroken(head: string, v: string)
    requires '\n' !in head && '\n' !in v
    ensures '\n' !in head + v
  {
  }

  /** The labels of a transition marker's heading and closing lines hold no break. */
  lemma LabelsUnbroken()
    ensures '\n' !in "STATUS: " && '\n' !in "Phase Started: " && '\n' !in "Responsible PM: "
    ensures '\n' !in "Phase Closed: " && '\n' !in "Last Updated: " && '\n' !in "Updated By:"
    ensures '\n' !in OpenSentinel
  {
    var a, b, c := "STATUS: ", "Phase Started: ", "Responsible PM: ";
    var d, e, f := "Phase Closed: ", "Last Updated: ", "Updated By:";
    assert forall j | 0 <= j < |a| :: a[j] != '\n';
    assert forall j | 0 <= j < |b| :: b[j] != '\n';
    assert forall j | 0 <= j < |c| :: c[j] != '\n';
    assert forall j | 0 <= j < |d| :: d[j] != '\n';
    assert forall j | 0 <= j < |e| :: e[j] != '\n';
    assert forall j | 0 <= j < |f| :: f[j] != '\n';
    assert forall j | 0 <= j < |OpenSentinel| :: OpenSentinel[j] != '\n';
  }

  /** The heading and closing lines of a fresh transition marker hold no break. */
  lemma NewMarkerFrameUnbroken(tag: string, pm: string, clock: Clock)
    requires Readable(tag, pm, clock)
    ensures var ls := NewMarkerLines(tag, pm, clock);
      forall k :: 0 <= k < 3 || 11 <= k < 14 ==> '\n' !in ls[k]
  {
    var ls := NewMarkerLines(tag, pm, clock);
    LabelsUnbroken();
    DateFacts(clock.today);
    SignatureTailPlain();
    assert forall k :: 0 <= k < |clock.stamp| ==> clock.stamp[k] != '\n';
    LabelledUnbroken("STATUS: ", tag);
    LabelledUnbroken("Phase Started: ", clock.today);
    LabelledUnbroken("Responsible PM: ", pm);
    LabelledUnbroken("Phase Closed: ", OpenSentinel);
    LabelledUnbroken("Last Updated: ", clock.stamp);
    LabelledUnbroken("Updated By:", SignatureTail);
    assert ls[0] == "STATUS: " + tag && ls[1] == "Phase Started: " + clock.today && ls[2] == "Responsible PM: " + pm;
    assert ls[11] == OpenLine && ls[12] == "Last Updated: " + clock.stamp && ls[13] == UpdatedByLine;
  }

  /** The lines of a fresh transition marker, ending with the empty piece after the last break. */
  lemma NewMarkerSplit(tag: string, pm: string, clock: Clock)
    requires Readable(tag, pm, clock)
    ensures Split(NewMarkerBody(tag, pm, clock), '\n') == NewMarkerLines(tag, pm, clock) + [""]
  {
    var ls := NewMarkerLines(tag, pm, clock);
    NewMarkerFrameUnbroken(tag, pm, clock);
    AgendaUnbroken();
    assert forall k :: 3 <= k < 11 ==> ls[k] == NewMarkerAgenda[k - 3];
    LinesSplit(ls);
  }

  /**
   * The shape of `Phase Closed:` the arguments below rely on: its length, its
   * `h`, its `C` and its closing colon. Stated for any key so that the fixed
   * marker lines are compared against a key and not against a second literal.
   */
  predicate ClosedKeyLike(key: string) {
    |key| == 13 && key[1] == 'h' && key[6] == 'C' && key[12] == ':'
  }

  /** A line without the key's `h` does not carry the key. */
  lemma LacksH(line: string, key: string)
    requires ClosedKeyLike(key) && forall j | 0 <= j < |line| :: line[j] != 'h'
    ensures !Contains(line, key)
  {
    NotContainsMissing(line, key, 1);
  }

  /** No line of the fixed agenda carries the key. */
  lemma AgendaLacks(key: string)
    requires ClosedKeyLike(key)
    ensures forall k :: 0 <= k < |NewMarkerAgenda| ==> !Contains(NewMarkerAgenda[k], key)
  {
    forall k | 0 <= k < |NewMarkerAgenda| ensures !Contains(NewMarkerAgenda[k], key) {
      if k == 0 {
        LacksH(NewMarkerAgenda[0], key);
      } else if k == 2 {
        LacksH(NewMarkerAgenda[2], key);
      } else if k == 3 {
        LacksH(NewMarkerAgenda[3], key);
      } else if k == 5 {
        LacksH(NewMarkerAgenda[5], key);
      } else if k == 6 {
        LacksH(NewMarkerAgenda[6], key);
      } else {
        NotContainsShort(NewMarkerAgenda[k], key);
      }
    }
  }

  /** No line of the fixed agenda holds a line break. */
  lemma AgendaUnbroken()
    ensures forall k :: 0 <= k < |NewMarkerAgenda| ==> '\n' !in NewMarkerAgenda[k]
  {
    forall k | 0 <= k < |NewMarkerAgenda| ensures '\n' !in NewMarkerAgenda[k] {
      if k == 0 {
        assert '\n' !in "Target Completion: TBD";
      } else if k == 2 {
        assert '\n' !in "Key Activities in Progress:";
      } else if k == 3 {
        assert '\n' !in "1. [To be updated]";
      } else if k == 5 {
        assert '\n' !in "Next Milestones:";
      } else if k == 6 {
        assert '\n' !in "- [To be updated]";
      }
    }
  }

  /** A label without some character of the key, followed by a value without its colon, lacks the key. */
  lemma LabelledLacks(head: string, v: string, key: string, i: nat)
    requires i < |key| && key[i] !in head && key[|key| - 1] == ':' && ':' !in v
    ensures !Contains(head + v, key)
  {
    NotContainsMissing(head, key, i);
    NotContainsAppend(head, v, key);
  }

  /** The start line of a marker does not carry the close key. */
  lemma StartedLineLacks(d: string, key: string)
    requires ClosedKeyLike(key) && Plain(d)
    ensures !Contains("Phase Started: " + d, key)
  {
    var head := "Phase Started: ";
    assert forall j | 0 <= j < |head| :: head[j] != 'C';
    LabelledLacks(head, d, key, 6);
  }

  /** The PM line of a marker does not carry the close key. */
  lemma PmLineLacks(pm: string, key: string)
    requires ClosedKeyLike(key) && Plain(pm)
    ensures !Contains("Responsible PM: " + pm, key)
  {
    var head := "Responsible PM: ";
    assert forall j | 0 <= j < |head| :: head[j] != 'h';
    LabelledLacks(head, pm, key, 1);
  }

  /** No line of a fresh transition marker before the open line carries the key. */
  lemma NewMarkerEarlyLines(tag: string, pm: string, clock: Clock, key: string)
    requires Readable(tag, pm, clock) && ClosedKeyLike(key)
    ensures var ls := NewMarkerLines(tag, pm, clock);
      forall k :: 0 <= k < 11 ==> !Contains(ls[k], key)
  {
    DateFacts(clock.today);
    var ls := NewMarkerLines(tag, pm, clock);
    AgendaLacks(key);
    StatusLineLacks(tag, key);
    StartedLineLacks(clock.today, key);
    PmLineLacks(pm, key);
    assert ls[0] == "STATUS: " + tag && ls[1] == "Phase Started: " + clock.today && ls[2] == "Responsible PM: " + pm;
    assert forall k :: 3 <= k < 11 ==> ls[k] == NewMarkerAgenda[k - 3];
  }

  /** No line of a fresh transition marker after the open line carries the key. */
  lemma NewMarkerLateLines(tag: string, pm: string, clock: Clock, key: string)
    requires Readable(tag, pm, clock) && ClosedKeyLike(key)
    ensures var ls := NewMarkerLines(tag, pm, clock) + [""];
      forall k :: 11 < k < |ls| ==> !Contains(ls[k], key)
  {
    var ls := NewMarkerLines(tag, pm, clock) + [""];
    forall k | 11 < k < |ls| ensures !Contains(ls[k], key) {
      if k == 12 {
        assert forall j :: 0 <= j < |clock.stamp| ==> clock.stamp[j] != 'C';
        assert 'C' !in "Last Updated: ";
        NotContainsMissing("Last Updated: " + clock.stamp, key, 6);
      } else if k == 13 {
        SignatureTailPlain();
        ShortLabelLacks("Updated By:", SignatureTail, key);
      } else {
        NotContainsShort(ls[k], key);
      }
    }
  }

  lemma ClosedKeyShape()
    ensures ClosedKeyLike(ClosedKey)
  {
  }

  /** The open line is the close key followed by the sentinel. */
  lemma OpenLineKeyed()
    ensures OpenLine == ClosedKey + " " + OpenSentinel
  {
    assert "Phase Closed: " == ClosedKey + " ";
  }

  lemma SentinelFacts()
    ensures OpenSentinel != [] && !IsSpace(OpenSentinel[0]) && !IsSpace(OpenSentinel[|OpenSentinel| - 1])
    ensures ':' !in OpenSentinel
  {
    assert forall j | 0 <= j < |OpenSentinel| :: OpenSentinel[j] != ':';
  }

  /** The status line of a marker carries no key longer than its label. */
  lemma StatusLineLacks(tag: string, key: string)
    requires |key| > 8 && key[|key| - 1] == ':' && ':' !in tag
    ensures !Contains("STATUS: " + tag, key)
  {
    ShortLabelLacks("STATUS: ", tag, key);
  }

  /** The signature line of a closure does not carry the close key. */
  lemma ClosedByLacks(key: string)
    requires ClosedKeyLike(key)
    ensures !Contains(ClosedByLine, key)
  {
    SignatureTailPlain();
    ShortLabelLacks("Closed By:", SignatureTail, key);
  }

  /** The signature holds neither a colon nor a line break. */
  lemma SignatureTailPlain()
    ensures Plain(SignatureTail)
  {
    assert forall j | 0 <= j < |SignatureTail| :: SignatureTail[j] != ':' && SignatureTail[j] != '\n';
  }

  /** A label shorter than the key, followed by text without the key's colon, lacks the key. */
  lemma ShortLabelLacks(head: string, v: string, key: string)
    requires |head| < |key| && key[|key| - 1] == ':' && ':' !in v
    ensures !Contains(head + v, key)
  {
    NotContainsShort(head, key);
    NotContainsAppend(head, v, key);
  }

  lemma ClosedByLineUnbroken()
    ensures Split(ClosedByLine, '\n') == [ClosedByLine]
  {
    SplitNoSeparator(ClosedByLine, '\n');
  }

  /** Two more lines appended to a text that ends with a line break. */
  lemma AppendTwoLines(body: string, ls: seq<string>, x: string, y: string)
    requires Split(body, '\n') == ls + [""] && '\n' !in x && '\n' !in y
    ensures Split(body + ("\n" + x + "\n" + y), '\n') == ls + ["", x, y]
  {
    assert body + ("\n" + x + "\n" + y) == body + ['\n'] + (x + ['\n'] + y);
    SplitAround(body, '\n', x + ['\n'] + y);
    SplitAround(x, '\n', y);
    SplitNoSeparator(x, '\n');
    SplitNoSeparator(y, '\n');
  }

  /** The lines of a transition marker once the next transition has closed it. */
  lemma ClosedMarkerSplit(tag: string, pm: string, clock: Clock, d: string)
    requires Readable(tag, pm, clock) && IsDate(d)
    ensures Split(NewMarkerBody(tag, pm, clock) + ClosureLines(d), '\n') ==
              NewMarkerLines(tag, pm, clock) + ["", ClosedKey + " " + d, ClosedByLine]
  {
    DateFacts(d);
    NewMarkerSplit(tag, pm, clock);
    var closedLine := "Phase Closed: " + d;
    assert '\n' !in closedLine;
    assert forall j | 0 <= j < |ClosedByLine| :: ClosedByLine[j] != '\n';
    AppendTwoLines(NewMarkerBody(tag, pm, clock), NewMarkerLines(tag, pm, clock), closedLine, ClosedByLine);
    assert closedLine == ClosedKey + " " + d by {
      assert "Phase Closed: " == ClosedKey + " ";
    }
  }

  /** Line `i` reads `key v` and no line before it carries `key`: `v` is the first reading. */
  lemma ReadFirst(content: string, key: string, i: nat, v: string)
    requires key != [] && key[|key| - 1] == ':' && ':' !in v
    requires v != [] && !IsSpace(v[0]) && !IsSpace(v[|v| - 1])
    requires i < |Split(content, '\n')| && Split(content, '\n')[i] == key + " " + v
    requires forall k :: 0 <= k < i ==> !Contains(Split(content, '\n')[k], key)
    ensures Contains(content, key)
    ensures FirstLineWith(Split(content, '\n'), key) == i
    ensures FieldAt(Split(content, '\n'), i, key) == v
  {
    KeyedLine(key, v);
    PartContained(content, '\n', i, key);
  }

  /** Line `i` reads `key v` and no line after it carries `key`: `v` is the last reading. */
  lemma ReadLast(content: string, key: string, i: nat, v: string)
    requires key != [] && key[|key| - 1] == ':' && ':' !in v
    requires v != [] && !IsSpace(v[0]) && !IsSpace(v[|v| - 1])
    requires i < |Split(content, '\n')| && Split(content, '\n')[i] == key + " " + v
    requires forall k :: i < k < |Split(content, '\n')| ==> !Contains(Split(content, '\n')[k], key)
    ensures Contains(content, key)
    ensures LastLineWith(Split(content, '\n'), key) == i
    ensures FieldAt(Split(content, '\n'), i, key) == v
  {
    KeyedLine(key, v);
    PartContained(content, '\n', i, key);
  }

  /** A marker that opens with a status line and a start line starts on that day. */
  lemma MarkerHeadReads(tag: string, day: string, content: string)
    requires Plain(tag) && IsDate(day)
    requires |Split(content, '\n')| >= 2
    requires Split(content, '\n')[0] == "STATUS: " + tag
    requires Split(content, '\n')[1] == "Phase Started: " + day
    ensures Contains(content, StartedKey) && StartDate(content) == day
  {
    DateFacts(day);
    StatusLineLacks(tag, StartedKey);
    assert "Phase Started: " + day == StartedKey + " " + day by {
      assert "Phase Started: " == StartedKey + " ";
    }
    ReadFirst(content, StartedKey, 1, day);
  }

  /** A fresh transition marker reads as open, either way it is read. */
  lemma OpenMarkerReading(tag: string, pm: string, clock: Clock)
    requires Readable(tag, pm, clock)
    ensures var content := NewMarkerBody(tag, pm, clock);
      && Contains(content, StartedKey) && StartDate(content) == clock.today
      && ClosedDate(content) == None && ClosedDateAsWritten(content) == None
  {
    var content := NewMarkerBody(tag, pm, clock);
    NewMarkerSplit(tag, pm, clock);
    MarkerHeadReads(tag, clock.today, content);
    ClosedKeyShape();
    NewMarkerEarlyLines(tag, pm, clock, ClosedKey);
    NewMarkerLateLines(tag, pm, clock, ClosedKey);
    OpenLineKeyed();
    SentinelFacts();
    ReadFirst(content, ClosedKey, 11, OpenSentinel);
    ReadLast(content, ClosedKey, 11, OpenSentinel);
  }

  /**
   * As written, a transition marker that the next transition has closed
   * still reads as open: the first `Phase Closed:` line is the sentinel.
   */
  lemma ClosedMarkerReadsOpenAsWritten(tag: string, pm: string, clock: Clock, d: string)
    requires Readable(tag, pm, clock) && IsDate(d)
    ensures var content := NewMarkerBody(tag, pm, clock) + ClosureLines(d);
      && Contains(content, StartedKey) && StartDate(content) == clock.today
      && ClosedDateAsWritten(content) == None
  {
    var content := NewMarkerBody(tag, pm, clock) + ClosureLines(d);
    ClosedMarkerSplit(tag, pm, clock, d);
    MarkerHeadReads(tag, clock.today, content);
    ClosedKeyShape();
    NewMarkerEarlyLines(tag, pm, clock, ClosedKey);
    OpenLineKeyed();
    SentinelFacts();
    ReadFirst(content, ClosedKey, 11, OpenSentinel);
  }

  /** Lines ending in a closure: the last line carrying the key is the closure's date line. */
  lemma ClosureReadsLast(content: string, key: string, d: string, sig: string, ls: seq<string>)
    requires ClosedKeyLike(key) && IsDate(d) && !Contains(sig, key)
    requires Split(content, '\n') == ls + ["", key + " " + d, sig]
    ensures Contains(content, key)
    ensures Contains(Split(content, '\n')[|ls| + 1], key)
    ensures LastLineWith(Split(content, '\n'), key) == |ls| + 1
    ensures FieldAt(Split(content, '\n'), |ls| + 1, key) == d
  {
    DateFacts(d);
    KeyedLine(key, d);
    ReadLast(content, key, |ls| + 1, d);
  }

  /** The close date a closure appends is the last `Phase Closed:` reading of the text. */
  lemma ClosureDate(tag: string, pm: string, clock: Clock, d: string)
    requires Readable(tag, pm, clock) && IsDate(d)
    ensures ClosedDate(NewMarkerBody(tag, pm, clock) + ClosureLines(d)) == Some(d)
  {
    var content := NewMarkerBody(tag, pm, clock) + ClosureLines(d);
    ClosedMarkerSplit(tag, pm, clock, d);
    ClosedKeyShape();
    ClosedByLacks(ClosedKey);
    DateFacts(d);
    ClosureReadsLast(content, ClosedKey, d, ClosedByLine, NewMarkerLines(tag, pm, clock));
  }

  /** Read from its last `Phase Closed:` line, the closed marker carries its close date. */
  lemma ClosedMarkerReadsClosed(tag: string, pm: string, clock: Clock, d: string)
    requires Readable(tag, pm, clock) && IsDate(d)
    ensures var content := NewMarkerBody(tag, pm, clock) + ClosureLines(d);
      && Contains(content, StartedKey) && StartDate(content) == clock.today
      && ClosedDate(content) == Some(d)
  {
    var content := NewMarkerBody(tag, pm, clock) + ClosureLines(d);
    ClosedMarkerSplit(tag, pm, clock, d);
    MarkerHeadReads(tag, clock.today, content);
    ClosureDate(tag, pm, clock, d);
  }

  /** The rows for a closed transition marker, as written and as its text records it. */
  lemma ClosedMarkerRows(name: string, tag: string, pm: string, clock: Clock, d: string, mtime: int)
    requires StartsWith(name, MarkerPrefix)
    requires Readable(tag, pm, clock) && IsDate(d)
    ensures var e := Written(name, NewMarkerBody(tag, pm, clock) + ClosureLines(d), mtime);
      && Dated(e)
      && RowAsWritten(e).status == "Active" && RowAsWritten(e).endDate == None
      && RowOf(e).status == "Closed" && RowOf(e).endDate == Some(d)
      && RowOf(e).startDate == clock.today
  {
    ClosedMarkerReadsClosed(tag, pm, clock, d);
    ClosedMarkerReadsOpenAsWritten(tag, pm, clock, d);
  }

  /** A permutation of a one-row table is that table. */
  lemma SingletonPermutation<T>(out: seq<T>, x: T)
    requires multiset(out) == multiset{x}
    ensures out == [x]
  {
    assert |out| == |multiset(out)| == 1;
    assert out[0] in multiset(out);
  }

  /** A listing of one dated marker file has that marker's row. */
  lemma TimelineRowsOne(e: Entry, reading: Reading)
    requires Dated(e)
    ensures TimelineRows([e], reading) == Returned([RowBy(e, reading)])
  {
    var es := [e];
    assert es[..|es| - 1] == [] && es[|es| - 1] == e;
    assert TimelineRows([], reading) == Returned([]);
    assert StartsWith(e.name, MarkerPrefix) && e.isFile && Contains(e.content, StartedKey);
    var none: seq<TimelineRow> := [];
    assert none + [RowBy(e, reading)] == [RowBy(e, reading)];
    assert TimelineRows(es, reading) == Returned(none + [RowBy(e, reading)]);
  }

  /** `get_asset_timeline` as written, on an asset whose one marker a transition closed: one `Active` row. */
  method TimelineOfClosedMarker(name: string, tag: string, pm: string, clock: Clock, d: string, mtime: int)
    returns (r: Outcome<seq<TimelineRow>>)
    requires StartsWith(name, MarkerPrefix)
    requires Readable(tag, pm, clock) && IsDate(d)
    ensures r.Returned? && |r.value| == 1
    ensures r.value[0].status == "Active" && r.value[0].endDate == None
  {
    var e := Written(name, NewMarkerBody(tag, pm, clock) + ClosureLines(d), mtime);
    ClosedMarkerRows(name, tag, pm, clock, d, mtime);
    TimelineRowsOne(e, FirstClosedLine);
    r := AssetTimeline(true, [e]);
    SingletonPermutation(r.value, RowAsWritten(e));
  }

  /** `get_asset_timeline` corrected, on the same asset: one `Closed` row ending on the closure's date. */
  method CorrectedTimelineOfClosedMarker(name: string, tag: string, pm: string, clock: Clock, d: string, mtime: int)
    returns (r: Outcome<seq<TimelineRow>>)
    requires StartsWith(name, MarkerPrefix)
    requires Readable(tag, pm, clock) && IsDate(d)
    ensures r.Returned? && |r.value| == 1
    ensures r.value[0].status == "Closed" && r.value[0].endDate == Some(d)
  {
    var e := Written(name, NewMarkerBody(tag, pm, clock) + ClosureLines(d), mtime);
    ClosedMarkerRows(name, tag, pm, clock, d, mtime);
    TimelineRowsOne(e, LastClosedLine);
    r := AssetTimelineCorrected(true, [e]);
    SingletonPermutation(r.value, RowOf(e));
  }
}
