/**
 * The document register of one asset (`scan_asset_documents`): every file of
 * the asset's tree, except those under a `_SUPERSEDED` folder, status markers
 * and hidden files, with its place in the tree, its extension and, for names
 * of at least four `_`-pieces, the phase code, document type, version and
 * review status read from the name.
 *
 * The walk is the flat sequence of items `os.walk` reports, in walk order;
 * paths are joined with the separator `sep` of the platform's `os.path`.
 */
module Register {
  import opened Text
  import opened Listing

  const ArchiveFolder: string := "_SUPERSEDED"
  const StatusStem: string := "_STATUS"

  /** The review states searched for in a name, in the order they are tried. */
  const StatusKeywords: seq<string> := ["DRAFT", "REVIEW", "REVISED", "FINAL", "APPROVED", "SIGNED"]

  /** The fields read from a name that follows the naming convention. */
  datatype DocCode = DocCode(phaseCode: string, docType: string, version: Option<string>, status: Option<string>)

  /**
   * One register row: `Filename`, `Folder`, `Full_Path`, the file's size in
   * bytes and modification time (the notebook shows them in MB and as a
   * date), `Extension`, and the convention fields where the name has them.
   */
  datatype Document = Document(filename: string, folder: string, fullPath: string, size: nat,
                               mtime: int, extension: string, code: Option<DocCode>)

  // ---------------------------------------------------------------------------
  // Paths
  // ---------------------------------------------------------------------------

  /** `os.path.join(a, b)` for a `b` that is not absolute. */
  function PathJoin(a: string, sep: char, b: string): string {
    if a == [] || a[|a| - 1] == sep then a + b else a + [sep] + b
  }

  /** A joined path starts with its first part and ends with its second, with one separator between them. */
  lemma PathJoinParts(a: string, sep: char, b: string)
    ensures var r := PathJoin(a, sep, b);
      && StartsWith(r, a) && |b| <= |r| && r[|r| - |b|..] == b
      && (a != [] ==> r[|r| - |b| - 1] == sep)
      && |r| <= |a| + 1 + |b|
  {
  }

  /**
   * Where a walk runs: the asset's path, the separator `os.path.join` puts
   * between names, and the name of the archive folder whose contents the
   * register leaves out (`_SUPERSEDED` for the scan itself).
   */
  datatype Walk = Walk(assetPath: string, sep: char, archive: string)

  /** The `root` the walk reports for a folder given relative to the asset. */
  function RootOf(w: Walk, folder: string): string {
    if folder == "" then w.assetPath else PathJoin(w.assetPath, w.sep, folder)
  }

  /** `os.path.relpath(root, asset_path)`: "." for the asset folder itself. */
  function RelPath(folder: string): (r: string)
    ensures r != ""
    ensures folder != "" ==> r == folder
  {
    if folder == "" then "." else folder
  }

  // ---------------------------------------------------------------------------
  // os.path.splitext
  // ---------------------------------------------------------------------------

  /** Position of the last `c` in `s`. */
  function LastIndexOf(s: string, c: char): (r: Option<nat>)
    ensures r.None? <==> c !in s
    ensures r.Some? ==> r.value < |s| && s[r.value] == c
    ensures r.Some? ==> forall j :: r.value < j < |s| ==> s[j] != c
    decreases |s|
  {
    if s == [] then None
    else if s[|s| - 1] == c then Some(|s| - 1)
    else
      var r := LastIndexOf(s[..|s| - 1], c);
      assert forall j :: 0 <= j < |s| - 1 ==> s[..|s| - 1][j] == s[j];
      r
  }

  predicate AllDots(s: string) {
    forall j :: 0 <= j < |s| ==> s[j] == '.'
  }

  /**
   * `os.path.splitext(name)[1]`: from the last dot on, provided something
   * other than a dot comes before it; otherwise empty (".bashrc", "..").
   */
  function Extension(name: string): (ext: string)
    ensures ext == "" <==> forall i, j :: 0 <= i < j < |name| && name[j] == '.' ==> name[i] == '.'
    ensures ext != "" ==> exists i :: 0 < i < |name| && ext == name[i..] && !AllDots(name[..i])
    ensures ext != "" ==> ext[0] == '.' && '.' !in ext[1..]
  {
    match LastIndexOf(name, '.')
    case None => ""
    case Some(i) =>
      if AllDots(name[..i]) then
        assert forall j :: 0 <= j < i ==> name[..i][j] == name[j];
        ""
      else
        var k :| 0 <= k < i && name[..i][k] != '.';
        assert name[k] != '.' && name[i] == '.';
        assert name[i..][1..] == name[i + 1..];
        name[i..]
  }

  /** Round trip: a dotted name whose stem is not all dots has the part after the dot as extension. */
  lemma ExtensionOfDotted(stem: string, e: string)
    requires !AllDots(stem) && '.' !in e
    ensures Extension(stem + "." + e) == "." + e
  {
    var name := stem + "." + e;
    assert name[|stem|] == '.';
    assert forall j :: |stem| < j < |name| ==> name[j] == e[j - |stem| - 1];
    var ext := Extension(name);
    var k :| 0 <= k < |stem| && stem[k] != '.';
    assert name[k] != '.';
    var i :| 0 < i < |name| && ext == name[i..] && !AllDots(name[..i]);
    assert name[i] == '.';
    assert i == |stem|;
    assert name[|stem|..] == "." + e;
  }

  // ---------------------------------------------------------------------------
  // Fields read from a name
  // ---------------------------------------------------------------------------

  /** `part.startswith('v') and part[1:3].isdigit()` */
  predicate IsVersionPart(p: string) {
    |p| >= 2 && p[0] == 'v' && AllDigits(p[1..if |p| < 3 then |p| else 3])
  }

  /** The first piece that looks like a version, as the `for ... break` finds it. */
  function FirstVersion(parts: seq<string>): (r: Option<string>)
    ensures r.None? <==> forall k :: 0 <= k < |parts| ==> !IsVersionPart(parts[k])
    ensures r.Some? ==> exists i :: 0 <= i < |parts| && parts[i] == r.value && IsVersionPart(r.value) &&
                          forall k :: 0 <= k < i ==> !IsVersionPart(parts[k])
    decreases |parts|
  {
    if parts == [] then None
    else if IsVersionPart(parts[0]) then Some(parts[0])
    else
      var r := FirstVersion(parts[1..]);
      assert forall k :: 1 <= k < |parts| ==> parts[k] == parts[1..][k - 1];
      if r.Some? then
        var i :| 0 <= i < |parts[1..]| && parts[1..][i] == r.value && IsVersionPart(r.value) &&
                 forall k :: 0 <= k < i ==> !IsVersionPart(parts[1..][k]);
        assert parts[i + 1] == r.value;
        r
      else r
  }

  /** The first of `keywords` that occurs in `s`, in the order of `keywords`. */
  function FirstIn(s: string, keywords: seq<string>): (r: Option<string>)
    ensures r.None? <==> forall k :: 0 <= k < |keywords| ==> !Contains(s, keywords[k])
    ensures r.Some? ==> exists i :: 0 <= i < |keywords| && keywords[i] == r.value && Contains(s, r.value) &&
                          forall k :: 0 <= k < i ==> !Contains(s, keywords[k])
    decreases |keywords|
  {
    if keywords == [] then None
    else if Contains(s, keywords[0]) then Some(keywords[0])
    else
      var r := FirstIn(s, keywords[1..]);
      assert forall k :: 1 <= k < |keywords| ==> keywords[k] == keywords[1..][k - 1];
      if r.Some? then
        var i :| 0 <= i < |keywords[1..]| && keywords[1..][i] == r.value && Contains(s, r.value) &&
                 forall k :: 0 <= k < i ==> !Contains(s, keywords[1..][k]);
        assert keywords[i + 1] == r.value;
        r
      else r
  }

  /** The review status of a name: the first keyword found in its upper-cased form. */
  function StatusOf(name: string): Option<string> {
    FirstIn(Upper(name), StatusKeywords)
  }

  /** The convention fields: present only for names of at least four `_`-pieces. */
  function CodeOf(name: string): Option<DocCode> {
    var parts := Split(name, '_');
    if |parts| >= 4 then Some(DocCode(parts[2], parts[3], FirstVersion(parts), StatusOf(name)))
    else None
  }

  /** Round trip: a name joined from separator-free pieces yields its third and fourth piece. */
  lemma CodeOfJoined(pieces: seq<string>)
    requires |pieces| >= 4 && forall k :: 0 <= k < |pieces| ==> '_' !in pieces[k]
    ensures var c := CodeOf(Join(pieces, '_'));
      && c.Some? && c.value.phaseCode == pieces[2] && c.value.docType == pieces[3]
      && c.value.version == FirstVersion(pieces)
  {
    SplitJoin(pieces, '_');
  }

  /** A name of fewer than four pieces carries no convention fields. */
  lemma CodeOfShort(name: string)
    requires |Split(name, '_')| < 4
    ensures CodeOf(name).None?
  {
  }

  /** "DRAFT" is tried first: a name mentioning it is a draft, whatever else it says. */
  lemma DraftWins(name: string)
    requires Contains(Upper(name), "DRAFT")
    ensures StatusOf(name) == Some("DRAFT")
  {
    assert StatusKeywords[0] == "DRAFT";
  }

  /** "REVIEW" comes before "FINAL": a reviewed final version that is not a draft reads as under review. */
  lemma ReviewBeforeFinal(name: string)
    requires !Contains(Upper(name), "DRAFT") && Contains(Upper(name), "REVIEW")
    ensures StatusOf(name) == Some("REVIEW")
  {
    assert StatusKeywords[0] == "DRAFT" && StatusKeywords[1] == "REVIEW";
    assert StatusKeywords[1..][0] == "REVIEW";
  }

  /**
   * The loop over the pieces that looks for a version, leaving at the first
   * match.
   */
  method FindVersion(parts: seq<string>) returns (version: Option<string>)
    ensures version == FirstVersion(parts)
  {
    version := None;
    var i := 0;
    while i < |parts|
      invariant 0 <= i <= |parts|
      invariant FirstVersion(parts) == FirstVersion(parts[i..])
    {
      assert parts[i..][1..] == parts[i + 1..];
      if IsVersionPart(parts[i]) {
        version := Some(parts[i]);
        return;
      }
      i := i + 1;
    }
  }

  /** The loop over the status keywords, leaving at the first found in the upper-cased name. */
  method FindStatus(name: string) returns (status: Option<string>)
    ensures status == StatusOf(name)
  {
    status := None;
    var upper := Upper(name);
    var i := 0;
    while i < |StatusKeywords|
      invariant 0 <= i <= |StatusKeywords|
      invariant StatusOf(name) == FirstIn(upper, StatusKeywords[i..])
    {
      assert StatusKeywords[i..][1..] == StatusKeywords[i + 1..];
      if Contains(upper, StatusKeywords[i]) {
        status := Some(StatusKeywords[i]);
        return;
      }
      i := i + 1;
    }
  }

  // ---------------------------------------------------------------------------
  // The scan
  // ---------------------------------------------------------------------------

  /** An item the register lists: a file outside `_SUPERSEDED`, neither a marker nor hidden. */
  predicate Listed(w: Walk, it: Item) {
    && !Contains(RootOf(w, it.folder), w.archive)
    && it.entry.isFile
    && !StartsWith(it.entry.name, StatusStem)
    && !StartsWith(it.entry.name, ".")
  }

  /** The size a stat of the entry gives; read only where the stat succeeds. */
  function SizeOf(e: Entry): nat {
    match e.size
    case Some(n) => n
    case None => 0
  }

  /** The register row of a listed file. */
  function DocumentOf(w: Walk, it: Item): Document {
    var name := it.entry.name;
    Document(name, RelPath(it.folder), PathJoin(RootOf(w, it.folder), w.sep, name),
             SizeOf(it.entry), it.entry.mtime, Extension(name), CodeOf(name))
  }

  /** The rows of a walk, in walk order; a listed file whose size cannot be read raises. */
  function Documents(w: Walk, tree: seq<Item>): Outcome<seq<Document>>
    decreases |tree|
  {
    if tree == [] then Returned([])
    else
      var it := tree[|tree| - 1];
      match Documents(w, tree[..|tree| - 1])
      case Raised => Raised
      case Returned(docs) =>
        if !Listed(w, it) then Returned(docs)
        else if it.entry.size.None? then Raised
        else Returned(docs + [DocumentOf(w, it)])
  }

  /** A listed file whose size cannot be read. */
  predicate Unreadable(w: Walk, it: Item) {
    Listed(w, it) && it.entry.size.None?
  }

  /** The scan raises exactly when some listed file has no readable size. */
  lemma {:induction false} DocumentsRaised(w: Walk, tree: seq<Item>)
    ensures Documents(w, tree).Raised? <==> exists k :: 0 <= k < |tree| && Unreadable(w, tree[k])
    decreases |tree|
  {
    if tree != [] {
      var init := tree[..|tree| - 1];
      var it := tree[|tree| - 1];
      DocumentsRaised(w, init);
      if Documents(w, init).Raised? {
        var k :| 0 <= k < |init| && Unreadable(w, init[k]);
        assert tree[k] == init[k];
      } else {
        assert Documents(w, tree).Raised? == Unreadable(w, it);
        if !Unreadable(w, it) {
          forall k | 0 <= k < |tree| ensures !Unreadable(w, tree[k]) {
            if k < |init| {
              assert tree[k] == init[k];
            }
          }
        }
      }
    }
  }

  /** Every row of the register comes from a listed file of the walk. */
  lemma {:induction false} DocumentsSound(w: Walk, tree: seq<Item>)
    requires Documents(w, tree).Returned?
    ensures forall d :: d in Documents(w, tree).value ==>
              exists k :: 0 <= k < |tree| && Listed(w, tree[k]) && d == DocumentOf(w, tree[k])
    ensures |Documents(w, tree).value| <= |tree|
    decreases |tree|
  {
    if tree != [] {
      var init := tree[..|tree| - 1];
      var it := tree[|tree| - 1];
      DocumentsSound(w, init);
      var docs := Documents(w, init).value;
      var all := Documents(w, tree).value;
      assert all == if Listed(w, it) then docs + [DocumentOf(w, it)] else docs;
      forall d | d in all
        ensures exists k :: 0 <= k < |tree| && Listed(w, tree[k]) && d == DocumentOf(w, tree[k])
      {
        if d in docs {
          var k :| 0 <= k < |init| && Listed(w, init[k]) && d == DocumentOf(w, init[k]);
          assert init[k] == tree[k];
        } else {
          assert Listed(w, tree[|tree| - 1]);
        }
      }
    }
  }

  /** Every listed file of the walk has its row in the register. */
  lemma {:induction false} DocumentsComplete(w: Walk, tree: seq<Item>)
    requires Documents(w, tree).Returned?
    ensures forall k :: 0 <= k < |tree| && Listed(w, tree[k]) ==> DocumentOf(w, tree[k]) in Documents(w, tree).value
    decreases |tree|
  {
    if tree != [] {
      var init := tree[..|tree| - 1];
      var it := tree[|tree| - 1];
      DocumentsComplete(w, init);
      var docs := Documents(w, init).value;
      var all := Documents(w, tree).value;
      assert all == if Listed(w, it) then docs + [DocumentOf(w, it)] else docs;
      forall k | 0 <= k < |tree| && Listed(w, tree[k]) ensures DocumentOf(w, tree[k]) in all {
        if k < |init| {
          assert init[k] == tree[k];
        }
      }
    }
  }

  /** The register of two walks run one after the other is the two registers in sequence. */
  lemma {:induction false} DocumentsConcat(w: Walk, a: seq<Item>, b: seq<Item>)
    requires Documents(w, a).Returned? && Documents(w, b).Returned?
    ensures Documents(w, a + b) ==
              Returned(Documents(w, a).value + Documents(w, b).value)
    decreases |b|
  {
    if b == [] {
      assert a + b == a;
      assert Documents(w, a).value + [] == Documents(w, a).value;
    } else {
      var b' := b[..|b| - 1];
      var it := b[|b| - 1];
      assert (a + b)[..|a + b| - 1] == a + b';
      assert (a + b)[|a + b| - 1] == it;
      assert Documents(w, b').Returned?;
      DocumentsConcat(w, a, b');
      var da := Documents(w, a).value;
      var db' := Documents(w, b').value;
      if Listed(w, it) {
        assert Documents(w, b).value == db' + [DocumentOf(w, it)];
        assert da + (db' + [DocumentOf(w, it)]) == (da + db') + [DocumentOf(w, it)];
      }
    }
  }

  /** Nothing under an archive folder appears, whatever the file. */
  lemma ArchivedSkipped(w: Walk, tree: seq<Item>, it: Item)
    requires Contains(RootOf(w, it.folder), w.archive)
    ensures Documents(w, tree + [it]) == Documents(w, tree)
  {
    assert (tree + [it])[..|tree|] == tree;
  }

  /**
   * `scan_asset_documents`: a missing asset gives an empty register;
   * otherwise every item of the walk is looked at once, in walk order.
   */
  method ScanAssetDocuments(present: bool, assetPath: string, sep: char, tree: seq<Item>)
    returns (r: Outcome<seq<Document>>)
    ensures !present ==> r == Returned([])
    ensures present ==> r == Documents(Walk(assetPath, sep, ArchiveFolder), tree)
  {
    var w := Walk(assetPath, sep, ArchiveFolder);
    if !present {
      return Returned([]);
    }
    var documents: seq<Document> := [];
    var i := 0;
    while i < |tree|
      invariant 0 <= i <= |tree|
      invariant Documents(w, tree[..i]) == Returned(documents)
    {
      var it := tree[i];
      assert tree[..i + 1][..i] == tree[..i];
      var root := RootOf(w, it.folder);
      var file := it.entry.name;
      if !Contains(root, ArchiveFolder) && it.entry.isFile
         && !StartsWith(file, StatusStem) && !StartsWith(file, ".")
      {
        if it.entry.size.None? {
          DocumentsRaised(w, tree[..i + 1]);
          DocumentsRaised(w, tree);
          assert tree[..i + 1][i] == it;
          return Raised;
        }
        var parts := Split(file, '_');
        var code: Option<DocCode> := None;
        if |parts| >= 4 {
          var version := FindVersion(parts);
          var status := FindStatus(file);
          code := Some(DocCode(parts[2], parts[3], version, status));
        }
        assert code == CodeOf(file);
        documents := documents + [Document(file, RelPath(it.folder), PathJoin(root, sep, file),
                                           it.entry.size.value, it.entry.mtime, Extension(file), code)];
      }
      i := i + 1;
    }
    assert tree[..i] == tree;
    r := Returned(documents);
  }
}
