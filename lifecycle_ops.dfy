/**
 * The command-line tools' view of the asset library (`tools/lifecycle_ops.py`):
 * the current phase of an asset, counted from marker FILES only, the file
 * count and byte total of a folder tree, and the table of all assets in name
 * order.
 */
module LifecycleOps {
  import opened Text
  import opened Listing
  import opened Ordering
  import opened Naming
  import opened PhaseInference

  // ---------------------------------------------------------------------------
  // get_current_phase
  // ---------------------------------------------------------------------------

  /**
   * `get_current_phase` of the tools: "00" for a missing folder; otherwise the
   * greatest code among the regular files whose name starts with `_STATUS_`.
   */
  method CurrentPhase(present: bool, entries: seq<Entry>) returns (phase: string)
    ensures !present ==> phase == NoPhase
    ensures present ==> phase == PhaseFrom(MarkerCodes(entries, true))
  {
    if !present {
      return NoPhase;
    }
    var phases: seq<string> := [];
    var i := 0;
    while i < |entries|
      invariant 0 <= i <= |entries|
      invariant phases == MarkerCodes(entries[..i], true)
    {
      var p := entries[i];
      assert entries[..i + 1][..i] == entries[..i];
      assert entries[..i + 1][i] == p;
      if p.isFile && StartsWith(p.name, MarkerPrefix) {
        MarkerCodeOfPrefixed(p.name);
        assert MarkerNames(entries[..i + 1], true) == MarkerNames(entries[..i], true) + [p.name];
        CodesOfAppend(MarkerNames(entries[..i], true), p.name);
        phases := phases + [MarkerCode(p.name).value];
      } else {
        assert MarkerNames(entries[..i + 1], true) == MarkerNames(entries[..i], true);
      }
      i := i + 1;
    }
    assert entries[..i] == entries;
    phase := if phases != [] then MaxOf(phases) else NoPhase;
  }

  /** One more marker name adds its code at the end. */
  lemma CodesOfAppend(names: seq<string>, n: string)
    requires MarkerCode(n).Some?
    ensures CodesOf(names + [n]) == CodesOf(names) + [MarkerCode(n).value]
  {
    assert (names + [n])[..|names|] == names;
  }

  /**
   * An entry that is not a marker file (any directory, a `_STATUS_` one
   * included, or a file with another name) does not move the tools' phase.
   */
  lemma NonMarkerIgnored(entries: seq<Entry>, d: Entry)
    requires !IsMarker(d, true)
    ensures MarkerCodes(entries + [d], true) == MarkerCodes(entries, true)
  {
    assert (entries + [d])[..|entries|] == entries;
    assert MarkerNames(entries + [d], true) == MarkerNames(entries, true);
  }

  /**
   * Where every `_STATUS_` entry is a regular file, the tools and the
   * notebook see the same markers and so infer the same phase.
   */
  lemma {:induction false} AgreesWithNotebook(entries: seq<Entry>)
    requires forall k :: 0 <= k < |entries| && StartsWith(entries[k].name, MarkerPrefix) ==> entries[k].isFile
    ensures MarkerNames(entries, true) == MarkerNames(entries, false)
    ensures PhaseFrom(MarkerCodes(entries, true)) == PhaseFrom(MarkerCodes(entries, false))
    decreases |entries|
  {
    if entries != [] {
      var init := entries[..|entries| - 1];
      assert forall k :: 0 <= k < |init| ==> init[k] == entries[k];
      AgreesWithNotebook(init);
    }
  }

  // ---------------------------------------------------------------------------
  // get_folder_stats
  // ---------------------------------------------------------------------------

  /** The size a stat of a file gives; a failed stat adds nothing. */
  function StatSize(e: Entry): nat {
    match e.size
    case Some(n) => n
    case None => 0
  }

  /** Number of regular files in a walk. */
  function FileCount(tree: seq<Item>): (n: nat)
    ensures n <= |tree|
    decreases |tree|
  {
    if tree == [] then 0
    else FileCount(tree[..|tree| - 1]) + (if tree[|tree| - 1].entry.isFile then 1 else 0)
  }

  /** Sum of the sizes of the regular files in a walk. */
  function TotalBytes(tree: seq<Item>): nat
    decreases |tree|
  {
    if tree == [] then 0
    else
      var last := tree[|tree| - 1].entry;
      TotalBytes(tree[..|tree| - 1]) + (if last.isFile then StatSize(last) else 0)
  }

  /** `get_folder_stats`: every regular file of the tree is counted and its size added. */
  method FolderStats(tree: seq<Item>) returns (fileCount: nat, totalSize: nat)
    ensures fileCount == FileCount(tree) && totalSize == TotalBytes(tree)
  {
    fileCount, totalSize := 0, 0;
    var i := 0;
    while i < |tree|
      invariant 0 <= i <= |tree|
      invariant fileCount == FileCount(tree[..i]) && totalSize == TotalBytes(tree[..i])
    {
      var p := tree[i].entry;
      assert tree[..i + 1][..i] == tree[..i];
      if p.isFile {
        fileCount := fileCount + 1;
        match p.size {
          case Some(n) => totalSize := totalSize + n;
          case None =>
        }
      }
      i := i + 1;
    }
    assert tree[..i] == tree;
  }

  /** The stats of two parts of a tree add up. */
  lemma {:induction false} StatsConcat(a: seq<Item>, b: seq<Item>)
    ensures FileCount(a + b) == FileCount(a) + FileCount(b)
    ensures TotalBytes(a + b) == TotalBytes(a) + TotalBytes(b)
    decreases |b|
  {
    if b == [] {
      assert a + b == a;
    } else {
      var b' := b[..|b| - 1];
      assert (a + b)[..|a + b| - 1] == a + b';
      assert (a + b)[|a + b| - 1] == b[|b| - 1];
      StatsConcat(a, b');
    }
  }

  /** A tree of directories only has no files and no bytes. */
  lemma {:induction false} StatsNoFiles(tree: seq<Item>)
    requires forall k :: 0 <= k < |tree| ==> !tree[k].entry.isFile
    ensures FileCount(tree) == 0 && TotalBytes(tree) == 0
    decreases |tree|
  {
    if tree != [] {
      StatsNoFiles(tree[..|tree| - 1]);
    }
  }

  /** A file whose stat fails is still counted, but adds no bytes. */
  lemma StatFailureCounted(tree: seq<Item>, it: Item)
    requires it.entry.isFile && it.entry.size.None?
    ensures FileCount(tree + [it]) == FileCount(tree) + 1
    ensures TotalBytes(tree + [it]) == TotalBytes(tree)
  {
    assert (tree + [it])[..|tree|] == tree;
  }

  // ---------------------------------------------------------------------------
  // list_assets
  // ---------------------------------------------------------------------------

  /**
   * A child of the assets folder: its entry, its own listing (what
   * `iterdir` gives) and its recursive walk (what `rglob("*")` gives).
   */
  datatype Child = Child(entry: Entry, listing: seq<Entry>, tree: seq<Item>)

  /** One row of the asset table; the total is in bytes (the tools show it in MB). */
  datatype AssetRow = AssetRow(asset: string, phase: string, fileCount: nat, totalBytes: nat)

  function ChildName(c: Child): string {
    c.entry.name
  }

  /** The asset folders among the children, in listing order. */
  function AssetDirs(children: seq<Child>): (r: seq<Child>)
    ensures forall c :: c in r <==> c in children && !c.entry.isFile
    ensures |r| <= |children|
    decreases |children|
  {
    if children == [] then []
    else
      var last := children[|children| - 1];
      var init := children[..|children| - 1];
      assert children == init + [last];
      AssetDirs(init) + (if !last.entry.isFile then [last] else [])
  }

  /** The row `list_assets` builds for one asset folder. */
  function RowFor(c: Child): AssetRow {
    AssetRow(c.entry.name, PhaseFrom(MarkerCodes(c.listing, true)), FileCount(c.tree), TotalBytes(c.tree))
  }

  function RowsFor(cs: seq<Child>): (rows: seq<AssetRow>)
    ensures |rows| == |cs|
    ensures forall k :: 0 <= k < |cs| ==> rows[k] == RowFor(cs[k])
    decreases |cs|
  {
    if cs == [] then [] else RowsFor(cs[..|cs| - 1]) + [RowFor(cs[|cs| - 1])]
  }

  /** The asset folders in the order `sorted` gives them: by name. */
  function SortedAssets(children: seq<Child>): seq<Child> {
    SortByKey(AssetDirs(children), ChildName)
  }

  /**
   * `list_assets`: an empty table when the assets folder is missing;
   * otherwise one row per asset folder, in name order, each carrying the
   * folder's phase and stats.
   */
  method ListAssets(present: bool, children: seq<Child>) returns (rows: seq<AssetRow>)
    ensures !present ==> rows == []
    ensures present ==> rows == RowsFor(SortedAssets(children))
  {
    if !present {
      return [];
    }
    var dirs := SortedAssets(children);
    rows := [];
    var i := 0;
    while i < |dirs|
      invariant 0 <= i <= |dirs|
      invariant rows == RowsFor(dirs[..i])
    {
      var d := dirs[i];
      assert dirs[..i + 1][..i] == dirs[..i];
      var phase := CurrentPhase(true, d.listing);
      var fileCount, totalSize := FolderStats(d.tree);
      assert RowsFor(dirs[..i + 1]) == RowsFor(dirs[..i]) + [RowFor(d)];
      rows := rows + [AssetRow(d.entry.name, phase, fileCount, totalSize)];
      i := i + 1;
    }
    assert dirs[..i] == dirs;
  }

  /** The table has one row per asset folder, in ascending order of name. */
  lemma AssetTableOrder(children: seq<Child>)
    ensures var rows := RowsFor(SortedAssets(children));
      && |rows| == |AssetDirs(children)|
      && forall i, j :: 0 <= i < j < |rows| ==> LexLe(rows[i].asset, rows[j].asset)
  {
    var sorted := SortedAssets(children);
    var rows := RowsFor(sorted);
    forall i, j | 0 <= i < j < |rows| ensures LexLe(rows[i].asset, rows[j].asset) {
      assert rows[i].asset == ChildName(sorted[i]) && rows[j].asset == ChildName(sorted[j]);
    }
  }

  /** The table lists every asset folder, and nothing but asset folders. */
  lemma AssetTableMembers(children: seq<Child>)
    ensures forall r :: r in RowsFor(SortedAssets(children)) <==>
              exists c :: c in children && !c.entry.isFile && r == RowFor(c)
  {
    var dirs := AssetDirs(children);
    var sorted := SortedAssets(children);
    var rows := RowsFor(sorted);
    forall r | r in rows ensures exists c :: c in children && !c.entry.isFile && r == RowFor(c) {
      var k :| 0 <= k < |rows| && rows[k] == r;
      assert sorted[k] in multiset(sorted);
      assert sorted[k] in dirs;
    }
    forall c | c in children && !c.entry.isFile ensures RowFor(c) in rows {
      assert c in dirs;
      assert c in multiset(sorted);
      var k :| 0 <= k < |sorted| && sorted[k] == c;
      assert rows[k] == RowFor(c);
    }
  }
}
