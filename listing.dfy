/**
 * The filesystem as the engine sees it. A folder is the sequence of entries
 * its listing returns, in listing order; a recursive walk is a flat sequence
 * of items, each naming the folder (relative to the walk's root) it was found
 * in. Content and modification time are plain values handed in by the caller.
 */
module Listing {

  datatype Option<+T> = None | Some(value: T)

  /** What an operation hands back: a value, or an exception that escaped it. */
  datatype Outcome<T> = Returned(value: T) | Raised

  /**
   * One entry of a folder listing. `isFile` separates regular files from
   * directories; `size` is None when a stat of the file fails; `content` is
   * the text a read of the file returns (empty for a directory).
   */
  datatype Entry = Entry(name: string, isFile: bool, mtime: int, size: Option<nat>, content: string)

  /** An entry found by a recursive walk; `folder` is "" for the walk's own root. */
  datatype Item = Item(folder: string, entry: Entry)

  /** A file the engine writes: its size is its length in characters. */
  function Written(name: string, content: string, mtime: int): (e: Entry)
    ensures e.isFile && e.name == name && e.content == content
  {
    Entry(name, true, mtime, Some(|content|), content)
  }

  function NewDirectory(name: string, mtime: int): (e: Entry)
    ensures !e.isFile && e.name == name
  {
    Entry(name, false, mtime, Some(0), "")
  }

  /** No two entries of one folder share a name. */
  predicate DistinctNames(es: seq<Entry>) {
    forall i, j :: 0 <= i < j < |es| ==> es[i].name != es[j].name
  }

  /** `os.path.exists(join(folder, n))` */
  predicate HasName(es: seq<Entry>, n: string) {
    exists k :: 0 <= k < |es| && es[k].name == n
  }

  /** Position of the entry called `n`, if there is one. */
  function FindName(es: seq<Entry>, n: string): (r: Option<nat>)
    ensures r.Some? <==> HasName(es, n)
    ensures r.Some? ==> r.value < |es| && es[r.value].name == n
    ensures r.Some? ==> forall k :: 0 <= k < r.value ==> es[k].name != n
    decreases |es|
  {
    if es == [] then None
    else if es[0].name == n then Some(0)
    else
      match FindName(es[1..], n)
      case None =>
        assert forall k :: 1 <= k < |es| ==> es[k] == es[1..][k - 1];
        None
      case Some(i) =>
        assert forall k :: 1 <= k < i + 1 ==> es[k] == es[1..][k - 1];
        Some(i + 1)
  }

  /** A directory called `n` is listed. */
  predicate HasDirectory(es: seq<Entry>, n: string) {
    exists k :: 0 <= k < |es| && es[k].name == n && !es[k].isFile
  }

  /** A regular file called `n` is listed. */
  predicate HasFile(es: seq<Entry>, n: string) {
    exists k :: 0 <= k < |es| && es[k].name == n && es[k].isFile
  }

  /** In a folder, the entry a name lookup finds tells the kind of everything with that name. */
  lemma FindNameKind(es: seq<Entry>, n: string)
    requires DistinctNames(es)
    ensures HasDirectory(es, n) <==> FindName(es, n).Some? && !es[FindName(es, n).value].isFile
    ensures HasFile(es, n) <==> FindName(es, n).Some? && es[FindName(es, n).value].isFile
  {
    match FindName(es, n) {
      case None =>
      case Some(i) =>
        assert forall k :: 0 <= k < |es| && es[k].name == n ==> k == i;
    }
  }

  /**
   * Writing a file in mode 'w': an entry of that name is replaced where it
   * stands, otherwise the new file joins the end of the listing.
   */
  function Put(es: seq<Entry>, e: Entry): (r: seq<Entry>)
    requires DistinctNames(es)
    ensures DistinctNames(r) && HasName(r, e.name) && e in r
    ensures forall x :: x in es && x.name != e.name ==> x in r
    ensures forall x :: x in r ==> x == e || (x in es && x.name != e.name)
    ensures HasName(es, e.name) ==> |r| == |es|
    ensures !HasName(es, e.name) ==> r == es + [e]
  {
    match FindName(es, e.name)
    case Some(k) =>
      var r := es[k := e];
      assert r[k] == e;
      assert forall x :: x in es && x.name != e.name ==> x in r by {
        forall x | x in es && x.name != e.name ensures x in r {
          var i :| 0 <= i < |es| && es[i] == x;
          assert r[i] == x;
        }
      }
      r
    case None =>
      var r := es + [e];
      assert r[|es|] == e;
      r
  }

  /** Writing a file keeps every name that was there. */
  lemma PutKeepsName(es: seq<Entry>, e: Entry, n: string)
    requires DistinctNames(es) && HasName(es, n)
    ensures HasName(Put(es, e), n)
  {
    var r := Put(es, e);
    var k :| 0 <= k < |es| && es[k].name == n;
    if n != e.name {
      assert es[k] in r;
      var j :| 0 <= j < |r| && r[j] == es[k];
    }
  }

  /** Entries of a walk that sit directly in its root, in walk order. */
  function TopLevel(tree: seq<Item>): (r: seq<Entry>)
    ensures |r| <= |tree|
    ensures forall x :: x in r <==> Item("", x) in tree
    decreases |tree|
  {
    if tree == [] then []
    else
      var last := tree[|tree| - 1];
      var rest := TopLevel(tree[..|tree| - 1]);
      assert forall it :: it in tree <==> it in tree[..|tree| - 1] || it == last;
      if last.folder == "" then rest + [last.entry] else rest
  }
}
