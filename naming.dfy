/**
 * The naming grammar: asset folders are named
 * `<SUBCO>_<TYPE><ID>_<NAME>_<LOCATION...>` and status markers
 * `_STATUS_<code>_<LABEL>.txt`. Also the two fixed tables keyed by phase code.
 */
module Naming {
  import opened Text
  import opened Listing

  /** Identity fields of an asset, read from its folder name. */
  datatype AssetName = AssetName(subcompany: string, assetType: string, assetId: string,
                                 name: string, location: string)

  /**
   * The folder-name parse of `discover_all_assets`: split on `_` at most three
   * times; the letters of the second part are the type, its digits the ID;
   * the fourth part (underscores kept) is the location, "Unknown" when absent.
   * None when there are fewer than three parts (the folder is skipped).
   */
  function ParseAssetFolder(folder: string): Option<AssetName> {
    var parts := SplitN(folder, '_', 3);
    if |parts| >= 3 then
      Some(AssetName(parts[0], Letters(parts[1]), Digits(parts[1]), parts[2],
                     if |parts| > 3 then parts[3] else "Unknown"))
    else None
  }

  /** The folder name `create_new_asset` builds. */
  function AssetFolderName(subco: string, assetType: string, assetId: string,
                           name: string, location: string): string
  {
    subco + "_" + assetType + assetId + "_" + name + "_" + location
  }

  /** A split limited to `n` is the full split with everything after the `n`-th piece joined back. */
  lemma {:induction false} SplitNIsSplitRejoined(s: string, c: char, n: nat)
    ensures var full := Split(s, c);
      SplitN(s, c, n) == if |full| <= n + 1 then full else full[..n] + [Join(full[n..], c)]
    decreases |s|
  {
    if s == [] {
    } else if n == 0 {
      SplitNUnlimited(s, c);
    } else if s[0] == c {
      SplitNIsSplitRejoined(s[1..], c, n - 1);
      SplitNAfterSeparator(s, c, n);
    } else {
      SplitNIsSplitRejoined(s[1..], c, n);
      SplitNAfterChar(s, c, n);
    }
  }

  /** A split limited to no occurrence keeps the whole text, which the full split joins back to. */
  lemma SplitNUnlimited(s: string, c: char)
    requires s != []
    ensures var full := Split(s, c);
      SplitN(s, c, 0) == if |full| <= 1 then full else full[..0] + [Join(full[0..], c)]
  {
    var full := Split(s, c);
    JoinSplit(s, c);
    if |full| == 1 {
      assert Join(full, c) == full[0];
      assert full == [s];
    } else {
      assert full[0..] == full;
    }
  }

  lemma SplitNAfterSeparator(s: string, c: char, n: nat)
    requires s != [] && n >= 1 && s[0] == c
    requires var rest := Split(s[1..], c);
      SplitN(s[1..], c, n - 1) == if |rest| <= n then rest else rest[..n - 1] + [Join(rest[n - 1..], c)]
    ensures var full := Split(s, c);
      SplitN(s, c, n) == if |full| <= n + 1 then full else full[..n] + [Join(full[n..], c)]
  {
    assert Split(s, c) == [""] + Split(s[1..], c);
    assert SplitN(s, c, n) == [""] + SplitN(s[1..], c, n - 1);
    RejoinAfterEmpty(Split(s[1..], c), SplitN(s[1..], c, n - 1), c, n);
  }

  lemma SplitNAfterChar(s: string, c: char, n: nat)
    requires s != [] && n >= 1 && s[0] != c
    requires var rest := Split(s[1..], c);
      SplitN(s[1..], c, n) == if |rest| <= n + 1 then rest else rest[..n] + [Join(rest[n..], c)]
    ensures var full := Split(s, c);
      SplitN(s, c, n) == if |full| <= n + 1 then full else full[..n] + [Join(full[n..], c)]
  {
    var rest := Split(s[1..], c);
    var lim := SplitN(s[1..], c, n);
    assert Split(s, c) == [[s[0]] + rest[0]] + rest[1..];
    assert SplitN(s, c, n) == [[s[0]] + lim[0]] + lim[1..];
    RejoinAfterChar(s[0], rest, lim, c, n);
  }

  /** The rejoining step when the text starts with the separator. */
  lemma RejoinAfterEmpty(rest: seq<string>, lim: seq<string>, c: char, n: nat)
    requires n >= 1
    requires lim == if |rest| <= n then rest else rest[..n - 1] + [Join(rest[n - 1..], c)]
    ensures var full := [""] + rest;
      [""] + lim == if |full| <= n + 1 then full else full[..n] + [Join(full[n..], c)]
  {
    var full := [""] + rest;
    if |rest| > n {
      assert full[..n] == [""] + rest[..n - 1];
      assert full[n..] == rest[n - 1..];
    }
  }

  /** The rejoining step when the text starts with another character. */
  lemma RejoinAfterChar(x: char, rest: seq<string>, lim: seq<string>, c: char, n: nat)
    requires n >= 1 && |rest| >= 1
    requires lim == if |rest| <= n + 1 then rest else rest[..n] + [Join(rest[n..], c)]
    ensures var full := [[x] + rest[0]] + rest[1..];
      [[x] + lim[0]] + lim[1..] == if |full| <= n + 1 then full else full[..n] + [Join(full[n..], c)]
  {
    var full := [[x] + rest[0]] + rest[1..];
    if |rest| > n + 1 {
      assert lim[0] == rest[0];
      assert lim[1..] == rest[1..n] + [Join(rest[n..], c)];
      assert full[..n] == [[x] + rest[0]] + rest[1..n];
      assert full[n..] == rest[n..];
    }
  }

  /**
   * In terms of the plain split: a folder name parses exactly when it has at
   * least three `_`-pieces, and then the fields are pieces 0, 1 (by character
   * class) and 2, and the location is the rest joined back or "Unknown".
   */
  lemma ParseAssetFolderFields(folder: string)
    ensures var parts := Split(folder, '_');
      && (ParseAssetFolder(folder).Some? <==> |parts| >= 3)
      && (|parts| >= 3 ==>
            ParseAssetFolder(folder).value ==
              AssetName(parts[0], Letters(parts[1]), Digits(parts[1]), parts[2],
                        if |parts| == 3 then "Unknown" else Join(parts[3..], '_')))
  {
    SplitNIsSplitRejoined(folder, '_', 3);
  }

  /**
   * Round trip with `create_new_asset`: a name built from separator-free
   * subcompany, letters-only type, digits-only ID and separator-free name
   * parses back to exactly those fields, with the location kept whole.
   */
  lemma {:induction false} ParseBuiltFolderName(subco: string, assetType: string, assetId: string,
                                                name: string, location: string)
    requires '_' !in subco && '_' !in name
    requires forall k :: 0 <= k < |assetType| ==> IsAlpha(assetType[k])
    requires forall k :: 0 <= k < |assetId| ==> IsDigit(assetId[k])
    ensures ParseAssetFolder(AssetFolderName(subco, assetType, assetId, name, location))
            == Some(AssetName(subco, assetType, assetId, name, location))
  {
    var code := assetType + assetId;
    assert '_' !in code by {
      forall k | 0 <= k < |code| ensures code[k] != '_' {
        if k < |assetType| {
          assert IsAlpha(assetType[k]);
        } else {
          assert IsDigit(assetId[k - |assetType|]);
        }
      }
    }
    assert AssetFolderName(subco, assetType, assetId, name, location)
        == subco + ['_'] + (code + ['_'] + (name + ['_'] + location));
    BuiltSplit(subco, code, name, location);
    LettersOfCode(assetType, assetId);
  }

  /** The limited split of a built folder name gives back its four parts. */
  lemma BuiltSplit(subco: string, code: string, name: string, location: string)
    requires '_' !in subco && '_' !in code && '_' !in name
    ensures SplitN(subco + ['_'] + (code + ['_'] + (name + ['_'] + location)), '_', 3)
            == [subco, code, name, location]
  {
    SplitNFirst(subco, '_', code + ['_'] + (name + ['_'] + location), 2);
    SplitNFirst(code, '_', name + ['_'] + location, 1);
    SplitNFirst(name, '_', location, 0);
    SplitNZero(location, '_');
  }

  // ---------------------------------------------------------------------------
  // Status markers
  // ---------------------------------------------------------------------------

  const MarkerPrefix: string := "_STATUS_"

  /** The open sentinel written into every new marker's `Phase Closed:` line. */
  const OpenSentinel: string := "[Will be filled when moving to next phase]"

  /** `name.split('_')[2][:2]`; None where the split has no third piece. */
  function MarkerCode(name: string): Option<string> {
    var parts := Split(name, '_');
    if |parts| >= 3 then Some(Take(parts[2], 2)) else None
  }

  /** `_STATUS_<code>_<tag>.txt` */
  function MarkerFileName(code: string, tag: string): string {
    MarkerPrefix + code + "_" + tag + ".txt"
  }

  /**
   * Every name starting with `_STATUS_` has a third piece, so the
   * `try`/`except` around the code extraction never fires; the code is the
   * first two characters of what follows the prefix, up to the next `_`.
   */
  lemma MarkerCodeOfPrefixed(name: string)
    requires StartsWith(name, MarkerPrefix)
    ensures MarkerCode(name) == Some(Take(Split(name[8..], '_')[0], 2))
  {
    var rest := name[8..];
    assert name == [] + ['_'] + ("STATUS" + ['_'] + rest);
    SplitAround([], '_', "STATUS" + ['_'] + rest);
    SplitAround("STATUS", '_', rest);
    SplitNoSeparator("STATUS", '_');
  }

  /** Round trip: the marker file named for a separator-free code yields that code cut to two characters. */
  lemma MarkerCodeOfFileName(code: string, tag: string)
    requires '_' !in code
    ensures StartsWith(MarkerFileName(code, tag), MarkerPrefix)
    ensures MarkerCode(MarkerFileName(code, tag)) == Some(Take(code, 2))
  {
    var name := MarkerFileName(code, tag);
    assert name[..8] == MarkerPrefix;
    MarkerCodeOfPrefixed(name);
    assert name[8..] == code + ['_'] + (tag + ".txt");
    SplitAround(code, '_', tag + ".txt");
    SplitNoSeparator(code, '_');
  }

  // ---------------------------------------------------------------------------
  // Fixed tables keyed by phase code
  // ---------------------------------------------------------------------------

  /** `PHASE_CODES.get(code, 'Unknown')`: display names of the phases. */
  function PhaseName(code: string): string {
    if code == "01" then "Pipeline"
    else if code == "02" then "Under Development"
    else if code == "03" then "Under Construction"
    else if code == "04" then "Operational"
    else "Unknown"
  }

  /** `phase_names.get(code, 'UNKNOWN')`: marker labels written by a transition. */
  function MarkerLabel(code: string): string {
    if code == "01" then "PIPELINE"
    else if code == "02" then "UNDER DEVELOPMENT"
    else if code == "03" then "UNDER CONSTRUCTION"
    else if code == "04" then "OPERATIONAL"
    else "UNKNOWN"
  }

  /** `phase_mapping.get(code, [])`: subfolders locked on entering a phase. */
  function LockedOnEntry(code: string): seq<string> {
    if code == "02" then ["01_PREFEASIBILITY"]
    else if code == "03" then ["01_PREFEASIBILITY", "02_FEASIBILITY", "03_LAND_ACQUISITION",
                               "04_PERMITTING", "05_DESIGN_ENGINEERING", "06_FINANCING"]
    else if code == "04" then ["07_PROCUREMENT", "08_CONSTRUCTION", "09_COMMISSIONING_COD"]
    else []
  }
}
