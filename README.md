# Asset lifecycle engine: a Dafny model

The repository manages a library of real-estate and energy assets kept as
folders on a file server. There is one folder per asset, named
`<SUBCO>_<TYPE><ID>_<NAME>_<LOCATION>`. An asset's lifecycle phase is not
stored anywhere. It is read off the status markers `_STATUS_<code>_<LABEL>.txt`
in the asset's folder: the phase is the greatest marker code, or "00" when
there is none. The engine lives in a notebook of automation functions and in
a small command-line tools module. It can:

- create an asset from a template with its first marker;
- move an asset to a new phase: close the current marker, write the next one
  and protect finished phase folders;
- archive superseded document versions into `_SUPERSEDED`;
- read a document register and a phase timeline back from names and marker
  texts.

The model takes the filesystem as its only state. A folder is the sequence of
entries its listing returns, in listing order. Each entry has a name, a
file-or-directory flag, a modification time, a size (absent when a stat
fails) and its text. A recursive walk is a flat sequence of items, each naming
the sub-folder it was found in.

The modules follow the code:

- `Text` holds the Python string operations the engine relies on: `split`,
  `split` with a limit, `join`, `in`, `startswith`, `upper`, `strip`, slicing
  and string order.
- `Listing` holds entries, walks, and writing a file in mode 'w'.
- `Ordering` holds `max` and `sorted`.
- `Naming` holds the folder-name and marker-name grammar and the fixed
  tables keyed by phase code.
- `PhaseInference` holds the notebook's `get_current_phase`.
- `Versioning` is the archival policy as functions of a listing.
- `Lifecycle` holds the class `Folder`. Its methods change one asset folder
  the way `create_new_asset`, `transition_phase` and
  `manage_superseded_versions` do.
- `Register` is `scan_asset_documents`.
- `Timeline` is `get_asset_timeline`.
- `LifecycleOps` is `tools/lifecycle_ops.py`.

I/O and the clock become parameters:

- Dates, time stamps and file times come in as a `Clock` value.
- The three planned dates of a new asset come in as a `Schedule` value.
- Whether a folder exists is a boolean.
- What a listing or walk returns is a sequence handed in by the caller.
- An exception that escapes an operation is the `Raised` outcome.

Points where the code does something a reader might not expect, and the
model does what the code does:

- **Marker labels.** The label table of `transition_phase` (notebook
  lines 356-361) has `UNDER CONSTRUCTION` with a blank, and the marker name at
  line 380 keeps it, so a transition to phase 03 writes
  `_STATUS_03_UNDER CONSTRUCTION.txt`.
- **Which entries count as markers.** `tools/lifecycle_ops.py` (line 51)
  counts marker files only. The notebook's `get_current_phase` (line 106)
  counts every name starting with `_STATUS_`, directories included. The two
  variants are modelled separately, and `LifecycleOps.AgreesWithNotebook` says
  when they coincide.
- **Failed moves.** A failing `shutil.move` (line 457) is not caught, so it
  ends the archival run (see "Left out").
- **Timeline close dates.** `Timeline.AssetTimeline` reads each close date
  from the first `Phase Closed:` line, as the code does, so a phase closed by
  a later transition is reported `Active`. `Timeline.AssetTimelineCorrected`
  reads the last such line instead (see "Findings").

## Model

| member | source | states |
|---|---|---|
| Naming.ParseAssetFolderFields | references/source_inputs/04_python_automation_notebook.py:63-70 | A folder name parses exactly when its plain `_` split has at least three pieces. Then the subcompany is piece 0, the type and the ID are the letters and the digits of piece 1, and the name is piece 2. The location is the remaining pieces joined back with `_`, or "Unknown" when there are only three. |
| Naming.ParseBuiltFolderName | references/source_inputs/04_python_automation_notebook.py:290 | Round trip with the parse. Build a name from a `_`-free subcompany and name, an all-letter type and an all-digit ID. It parses back to exactly those five fields, with the location kept whole even when it contains `_`. |
| Naming.SplitNIsSplitRejoined | references/source_inputs/04_python_automation_notebook.py:63 | `split('_', 3)` is the full split with every piece after the third joined back into one piece. |
| Naming.MarkerCodeOfPrefixed | references/source_inputs/04_python_automation_notebook.py:113-118 | Every name starting with `_STATUS_` has a third `_` piece, so the `except` branch never runs. The code is the first two characters of what follows the prefix, up to the next `_`. |
| Naming.MarkerCodeOfFileName | references/source_inputs/04_python_automation_notebook.py:380 | The marker name a transition writes starts with `_STATUS_`. For a `_`-free code it yields that code cut to two characters. |
| PhaseInference.CurrentPhase | references/source_inputs/04_python_automation_notebook.py:104-120 | With no listed name (file or directory) starting with `_STATUS_`, the phase is "00". Otherwise it is a code carried by one of those names, and no collected code is greater in string order. |
| PhaseInference.MarkerNamesMembers | references/source_inputs/04_python_automation_notebook.py:106 | The names collected are exactly the names of the listing that start with `_STATUS_`. |
| PhaseInference.MarkerCodesMembers | references/source_inputs/04_python_automation_notebook.py:106-116 | A code is collected exactly when some marker of the listing carries it. |
| PhaseInference.NoCodesIffNoMarkers | references/source_inputs/04_python_automation_notebook.py:108-109 | No code is collected exactly when the listing has no marker, so "00" means "no marker". |
| PhaseInference.CodesOfMarkerNames | references/source_inputs/04_python_automation_notebook.py:112-118 | Every marker name yields a code: one code per marker, in order. |
| PhaseInference.PhaseFromAppend | references/source_inputs/04_python_automation_notebook.py:120 | One more code makes the phase the larger of the old phase and that code. With no code before, the phase is that code. |
| PhaseInference.LexLeIsNumericLe | references/source_inputs/04_python_automation_notebook.py:120 | On two-digit codes, string order is numeric order. |
| PhaseInference.PhaseIsNumericMax | references/source_inputs/04_python_automation_notebook.py:120 | For two-digit codes the phase is one of them and carries the largest numeric value. |
| Ordering.MaxOf | references/source_inputs/04_python_automation_notebook.py:120 | `max` of a non-empty list is a member that no member exceeds in string order. |
| Ordering.MaxOfUnique | tools/lifecycle_ops.py:58 | `max` depends only on which strings occur: a member that bounds every member is the maximum. |
| Ordering.SortByKey | tools/lifecycle_ops.py:80 | `sorted` with a key: the result is ascending by key and a permutation of the input. |
| Ordering.InsertByKeySorted | tools/lifecycle_ops.py:80 | One insertion step of the sort keeps the sequence ascending and adds exactly the inserted element. |
| Versioning.GroupMembers | references/source_inputs/04_python_automation_notebook.py:424-439 | A file is in the group of `key` exactly when it is a listed regular file with at least five `_` pieces whose pieces but the last two, joined, are `key`. |
| Versioning.GroupKeysMembers | references/source_inputs/04_python_automation_notebook.py:429-432 | The group keys are exactly the base names of the groupable files of the listing. |
| Versioning.OnlyGroupedFilesMove | references/source_inputs/04_python_automation_notebook.py:425-428 | Only listed regular files with at least five `_` pieces ever move. Directories never move, the `_SUPERSEDED` folder among them, and neither do shorter names. |
| Versioning.ExemptGroupsUntouched | references/source_inputs/04_python_automation_notebook.py:446-447 | No member of a group with a case-sensitive FINAL or APPROVED in some name ever moves. |
| Versioning.GroupMoves | references/source_inputs/04_python_automation_notebook.py:449-457 | Take a group of n files without FINAL or APPROVED, and `keep >= 0`. A file of the group moves exactly when it comes after the first `keep` in the newest-first ranking. There are max(0, n - keep) such files. Every kept file is at least as new as every moved one. |
| Versioning.KeptAndMovedPartition | references/source_inputs/04_python_automation_notebook.py:453-454 | The kept files and the moved files together are exactly the group, as a multiset. |
| Versioning.MovesCharacterised | references/source_inputs/04_python_automation_notebook.py:444-457 | A file moves exactly when it is a groupable file of the listing and among the superseded files of its own group. |
| Versioning.RerunMovesNothing | references/source_inputs/04_python_automation_notebook.py:405-461 | Idempotence, for `keep >= 0`: once the moved files have left the listing, the policy moves nothing more. |
| Versioning.SortNewestFirst | references/source_inputs/04_python_automation_notebook.py:450 | `sort(key=mtime, reverse=True)`: the result is newest first and a permutation of the group. |
| Versioning.InsertNewestSorted | references/source_inputs/04_python_automation_notebook.py:450 | One insertion step of that sort keeps the order newest first and adds exactly the inserted file. |
| Versioning.SortNewestFirstStable | references/source_inputs/04_python_automation_notebook.py:450 | The sort is stable: for every modification time, the files carrying it keep their listing order. |
| Versioning.DropPy | references/source_inputs/04_python_automation_notebook.py:454 | `files[keep:]`, negative `keep` counting from the end as Python does, keeps only files of the ranking. |
| Lifecycle.GroupFiles | references/source_inputs/04_python_automation_notebook.py:422-439 | The loop that builds `file_groups` gives exactly the group keys, in first-seen order. Each key maps to its group in listing order, and nothing else is a key. |
| Lifecycle.PreparedMovesSame | references/source_inputs/04_python_automation_notebook.py:418-419 | Creating the `_SUPERSEDED` folder does not change which files move. |
| Lifecycle.Folder.ManageSupersededVersions | references/source_inputs/04_python_automation_notebook.py:405-461 | A missing folder gives 0 and changes nothing. A file already named `_SUPERSEDED` makes `makedirs` raise, and nothing changes. Otherwise the archive folder exists afterwards. The files the policy names leave the listing for `_SUPERSEDED`. There a same-named file is replaced, and a same-named directory takes the file inside it, so the archive's own listing keeps that directory. Their number is returned. For `keep >= 0` the folder is left with nothing more to move. |
| Lifecycle.Folder.MoveSuperseded | references/source_inputs/04_python_automation_notebook.py:441-461 | The loop over the groups in key order moves, and counts, exactly the superseded files of each group, in that order. |
| Lifecycle.Folder.MoveGroup | references/source_inputs/04_python_automation_notebook.py:444-458 | One group: nothing when the group is exempt. Otherwise every file after the newest `keep` is moved, and their number is returned. |
| Lifecycle.Folder.MoveToArchive | references/source_inputs/04_python_automation_notebook.py:454-457 | Each file leaves the folder and is moved into `_SUPERSEDED` as `shutil.move` does, and one is counted per move. |
| Lifecycle.MoveInto | references/source_inputs/04_python_automation_notebook.py:456-457 | `shutil.move` to `_SUPERSEDED/<name>`: when a directory of that name is archived, the archive's listing is unchanged, because the file goes inside it. Otherwise the file is there afterwards. No other directory or differently named entry is lost, and nothing else appears. |
| Lifecycle.MoveAllInto | references/source_inputs/04_python_automation_notebook.py:454-457 | After the moves every moved name is in the archive, no archived directory has been replaced, and the archive holds only its old entries and the moved files. |
| Lifecycle.MoveOntoDirectory | references/source_inputs/04_python_automation_notebook.py:456-457 | Moving a file whose name is an archived directory leaves the archive's listing exactly as it was, without the file among its entries. |
| Lifecycle.ArchiveRunSettled | references/source_inputs/04_python_automation_notebook.py:418-461 | When `makedirs` succeeds, the prepared listing has distinct names. After the moves it keeps them and the archive folder, and for `keep >= 0` nothing more is to move. |
| Lifecycle.ArchiveSettled | references/source_inputs/04_python_automation_notebook.py:418-461 | After the moves the folder still has distinct names and its archive folder. For `keep >= 0` it offers nothing more to move. |
| Lifecycle.Folder.CreateNewAsset | references/source_inputs/04_python_automation_notebook.py:286-327 | An existing asset folder is left as it is and its name returned. Otherwise the template is copied in and `_STATUS_01_PIPELINE.txt` is written with the pipeline text, unless a directory of that name makes the write raise. The returned name is the folder name built from the five fields. It stands for the path `os.path.join(ASSETS_PATH, asset_folder)` that the code returns. |
| Lifecycle.CreatedAssetIsPipeline | references/source_inputs/04_python_automation_notebook.py:304-323 | A template without markers yields an asset with exactly one marker, `_STATUS_01_PIPELINE.txt`. Its text has the open `Phase Closed:` line, and its phase reads "01" in both phase-inference variants. |
| Lifecycle.PipelineBodyIsOpen | references/source_inputs/04_python_automation_notebook.py:318 | The pipeline marker's text contains the open sentinel line. |
| Lifecycle.NewMarkerBodyIsOpen | references/source_inputs/04_python_automation_notebook.py:375 | A transition marker's text contains the open sentinel line. |
| Lifecycle.Folder.TransitionPhase | references/source_inputs/04_python_automation_notebook.py:329-403 | A missing folder gives `False` and changes nothing. Otherwise three steps run: close the current marker, write the new one, then protect the table's existing folders. A step that raises stops the run and keeps the earlier steps' effects. A completed run returns `True`. |
| Lifecycle.FirstWithPrefix | references/source_inputs/04_python_automation_notebook.py:346-349 | The position found has the prefix, and no earlier entry has it. None means no entry has the prefix. |
| Lifecycle.FindPrefixed | references/source_inputs/04_python_automation_notebook.py:346-349 | The scan with `break` finds the first entry whose name has the prefix. |
| Lifecycle.Folder.CloseMarker | references/source_inputs/04_python_automation_notebook.py:351-354 | The closing step: the first entry named `_STATUS_<current>...` gets the closure lines appended. Opening a directory for append raises and changes nothing. With no such entry nothing changes. |
| Lifecycle.CloseCurrentTexts | references/source_inputs/04_python_automation_notebook.py:351-354 | Closing keeps every name and only extends texts. The closed marker gets exactly the closure lines appended, and every other entry is unchanged. |
| Lifecycle.Folder.WriteFile | references/source_inputs/04_python_automation_notebook.py:380-382 | `open(path, 'w')` and a write: the file replaces the entry of its name or joins the listing. It raises, changing nothing, exactly when a directory has that name. |
| Lifecycle.NewMarker | references/source_inputs/04_python_automation_notebook.py:364-380 | The marker a transition writes is a regular file named with the `_STATUS_` prefix. |
| Lifecycle.TransitionWritesOpenMarker | references/source_inputs/04_python_automation_notebook.py:364-382 | A completed transition leaves `_STATUS_<code>_<label>.txt` in the folder, with the label for the code or `UNKNOWN`. Its text has the open `Phase Closed:` line. |
| Lifecycle.TransitionRaisesPhase | references/source_inputs/04_python_automation_notebook.py:339-382 | After a completed transition to a `_`-free code, the inferred phase is the larger of the old phase and the code's first two characters. It is just that code when there were no markers. This holds in both variants. |
| Lifecycle.TransitionOnlyAppends | references/source_inputs/04_python_automation_notebook.py:351-382 | Apart from the new marker, every entry after a transition has the name of an entry before it, and its text extends that entry's text. |
| Lifecycle.TransitionWithoutCurrent | references/source_inputs/04_python_automation_notebook.py:345-351 | With no marker of the current phase, nothing is closed. Every entry other than the one the new marker overwrites stays as it was. |
| Lifecycle.Existing | references/source_inputs/04_python_automation_notebook.py:393-395 | The folders a transition protects are exactly the table's names that exist in the folder. |
| Lifecycle.Folder.Protect | references/source_inputs/04_python_automation_notebook.py:392-400 | The locking loop records a protection for every listed folder that exists, in table order, and changes nothing else. |
| Lifecycle.TransitionLocks | references/source_inputs/04_python_automation_notebook.py:385-400 | A protection is recorded exactly for the names of the new phase's table that exist after a completed transition. Phase "01" and unknown codes protect nothing. |
| Register.PathJoinParts | references/source_inputs/04_python_automation_notebook.py:488 | `os.path.join(root, file)` starts with the root and ends with the file name, with one separator between them. |
| Register.RelPath | references/source_inputs/04_python_automation_notebook.py:489 | `relpath` gives "." for the asset folder itself and the sub-folder's path otherwise. |
| Register.Extension | references/source_inputs/04_python_automation_notebook.py:500 | `splitext(name)[1]` is empty exactly when no dot follows a character other than a dot. Otherwise it runs from the last dot to the end, and the part before it is not all dots. |
| Register.ExtensionOfDotted | references/source_inputs/04_python_automation_notebook.py:500 | Round trip: `stem.ext` with a stem that is not all dots and a dot-free `ext` has the extension `.ext`. |
| Register.CodeOfJoined | references/source_inputs/04_python_automation_notebook.py:492-511 | A name joined from at least four `_`-free pieces gets the third piece as phase code and the fourth as document type. Its version is the first piece that looks like a version. |
| Register.CodeOfShort | references/source_inputs/04_python_automation_notebook.py:504 | A name with fewer than four pieces gets no convention fields. |
| Register.FirstVersion | references/source_inputs/04_python_automation_notebook.py:509-512 | The version is the first piece that starts with `v` followed by one or two digits, which is what `part[1:3]` holds. There is none exactly when no piece looks like that. |
| Register.FindVersion | references/source_inputs/04_python_automation_notebook.py:509-512 | The loop with `break` finds that first version piece. |
| Register.FirstIn | references/source_inputs/04_python_automation_notebook.py:515-519 | The status is the first keyword, in list order, that occurs in the text. There is none exactly when no keyword occurs. |
| Register.FindStatus | references/source_inputs/04_python_automation_notebook.py:515-519 | The loop with `break` finds the first keyword occurring in the upper-cased name. |
| Register.DraftWins | references/source_inputs/04_python_automation_notebook.py:515-519 | A name mentioning DRAFT in any case is a draft, whatever else it says. |
| Register.ReviewBeforeFinal | references/source_inputs/04_python_automation_notebook.py:515-519 | A name mentioning REVIEW but not DRAFT reads as REVIEW, even when it also says FINAL. |
| Register.DocumentsRaised | references/source_inputs/04_python_automation_notebook.py:498 | The scan raises exactly when some file that would be listed has no readable size. |
| Register.DocumentsSound | references/source_inputs/04_python_automation_notebook.py:479-521 | Every register row comes from a file of the walk outside `_SUPERSEDED` that is neither `_STATUS*` nor hidden. |
| Register.DocumentsComplete | references/source_inputs/04_python_automation_notebook.py:479-521 | Every such file has its row in the register. |
| Register.DocumentsConcat | references/source_inputs/04_python_automation_notebook.py:479-521 | The register of a walk is the registers of its two halves in sequence. |
| Register.ArchivedSkipped | references/source_inputs/04_python_automation_notebook.py:481-482 | Nothing found under a folder whose path contains `_SUPERSEDED` appears in the register. |
| Register.ScanAssetDocuments | references/source_inputs/04_python_automation_notebook.py:467-527 | A missing asset gives an empty register. Otherwise every item of the walk is looked at once, in walk order, and the register is the rows of the listed files. |
| Timeline.FirstLineWith | references/source_inputs/04_python_automation_notebook.py:678 | `[l for l in lines if p in l][0]` is a line containing `p`, and no earlier line contains it. |
| Timeline.LastLineWith | references/source_inputs/04_python_automation_notebook.py:684 | For the corrected timeline: a line containing `p`, and no later line contains it. |
| Timeline.MakeRow | references/source_inputs/04_python_automation_notebook.py:689-698 | The phase number is the marker's code and the phase is its display name or "Unknown". The status is `Closed` exactly when a non-empty close date was read, and `Active` otherwise. |
| Timeline.TimelineRowsRaised | references/source_inputs/04_python_automation_notebook.py:670-674 | Reading the markers raises exactly when some `_STATUS_` entry is a directory, whichever `Phase Closed:` line is read. |
| Timeline.TimelineRowsSound | references/source_inputs/04_python_automation_notebook.py:670-698 | Every row is the row of a marker file whose text has a `Phase Started:` line. With the first-line reading that row is the code's: start date from the first `Phase Started:` line and close date from the first `Phase Closed:` line. There are no more rows than entries. |
| Timeline.TimelineRowsComplete | references/source_inputs/04_python_automation_notebook.py:670-698 | Every marker file with a `Phase Started:` line has its row, under the reading used. With the first-line reading this is the code's row. |
| Timeline.ReadTimeline | references/source_inputs/04_python_automation_notebook.py:664-701 | The loop of the operation under either reading. It raises when the folder is missing, when a marker is a directory, or when there is no dated marker, since sorting the empty table by `Phase_Number` fails. Otherwise it returns the rows sorted by phase number, a permutation of the rows of the listing's dated markers under that reading. |
| Timeline.AssetTimeline | references/source_inputs/04_python_automation_notebook.py:664-701 | As written: the outcomes of `ReadTimeline`, with every row's close date read from its marker's first `Phase Closed:` line. |
| Timeline.AssetTimelineCorrected | references/source_inputs/04_python_automation_notebook.py:664-701 | Corrected: the outcomes of `ReadTimeline`, with every row's close date read from its marker's last `Phase Closed:` line. |
| Timeline.OpenMarkerReading | references/source_inputs/04_python_automation_notebook.py:676-687 | A fresh transition marker reads with today's start date and no close date, either way it is read. |
| Timeline.ClosedMarkerReadsOpenAsWritten | references/source_inputs/04_python_automation_notebook.py:683-687 | As written: take a transition marker that the next transition has closed. It still has no close date, because its first `Phase Closed:` line is the sentinel. |
| Timeline.ClosedMarkerReadsClosed | references/source_inputs/04_python_automation_notebook.py:352-354 | Corrected: read from its last `Phase Closed:` line, the closed marker carries the date the closure appended. |
| Timeline.TimelineRowsOne | references/source_inputs/04_python_automation_notebook.py:670-698 | A listing of one dated marker file gives exactly that marker's row. |
| Timeline.ClosedMarkerRows | references/source_inputs/04_python_automation_notebook.py:692-698 | For a closed transition marker, the row as written says `Active` with no end date. The corrected row says `Closed` with the closure date, and keeps the start date. |
| Timeline.TimelineOfClosedMarker | references/source_inputs/04_python_automation_notebook.py:664-701 | As written, for the whole operation: an asset whose one marker a later transition closed gets a one-row timeline. That row reports the phase `Active` with no end date. |
| Timeline.CorrectedTimelineOfClosedMarker | references/source_inputs/04_python_automation_notebook.py:352-354 | Corrected, for the whole operation: the same asset gets a one-row timeline. That row reports the phase `Closed`, ending on the date the closure appended. |
| LifecycleOps.CurrentPhase | tools/lifecycle_ops.py:42-58 | A missing folder gives "00". Otherwise the phase is "00" without marker files, or else the greatest code among regular files starting with `_STATUS_`. The method changes nothing, so equal inputs give equal results. |
| LifecycleOps.NonMarkerIgnored | tools/lifecycle_ops.py:50-51 | An entry that is not a marker file leaves the collected codes, and so the phase, unchanged. This covers any directory, `_STATUS_` ones included. |
| LifecycleOps.AgreesWithNotebook | tools/lifecycle_ops.py:50-58 | When every `_STATUS_` entry is a regular file, the tools and the notebook see the same markers and infer the same phase. |
| LifecycleOps.FileCount | tools/lifecycle_ops.py:64-66 | There are never more files than items in the walk. |
| LifecycleOps.FolderStats | tools/lifecycle_ops.py:61-71 | The count is the number of regular files in the walk. The total is the sum of the sizes of those whose stat succeeds. |
| LifecycleOps.StatsConcat | tools/lifecycle_ops.py:64-71 | The count and the total of a walk are the sums over its two halves. |
| LifecycleOps.StatsNoFiles | tools/lifecycle_ops.py:65 | A walk of directories only has no files and no bytes. |
| LifecycleOps.StatFailureCounted | tools/lifecycle_ops.py:67-70 | A file whose stat fails is still counted but adds no bytes. |
| LifecycleOps.AssetDirs | tools/lifecycle_ops.py:80 | The asset folders are exactly the children that are directories. |
| LifecycleOps.RowsFor | tools/lifecycle_ops.py:83-90 | One row per folder, in order, each carrying the folder's name, phase and stats. |
| LifecycleOps.ListAssets | tools/lifecycle_ops.py:74-91 | A missing assets folder gives no rows. Otherwise there is one row per asset folder, in name order, each with that folder's phase and stats. |
| LifecycleOps.AssetTableOrder | tools/lifecycle_ops.py:80 | The table has one row per sub-directory, in ascending name order. |
| LifecycleOps.AssetTableMembers | tools/lifecycle_ops.py:80-90 | The table holds a row for every sub-directory and nothing else. |

## Left out

- Printing, pandas DataFrames, the dashboards, plots and the Excel, CSV and JSON exports: presentation and I/O. A register or timeline is a sequence of rows.
- The MB figures (`round(bytes / (1024 * 1024), n)`) in the register, `get_folder_stats` and `list_assets`: floating point. The model keeps the byte counts.
- `datetime.now()` and `strftime`, the 14, 60 and 90 days added for a new asset's milestones, and `getmtime` dates: clock values come in as plain strings and integers in `Clock` and `Schedule`.
- `shutil.copytree` of the template: modelled as the asset folder taking the template's listing. The template's own sub-folders other than `_SUPERSEDED` are not modelled.
- `os.chmod` to read-only: modelled as recording the protected path, since the code swallows every failure. The effect on later writes is not modelled.
- `shutil.move` failing: the code does not catch it, so a failed move ends the run as an exception. The model's moves always succeed.
- `Lifecycle.MoveInto`: a file moved onto an archived directory of its name goes to `_SUPERSEDED/<name>/<name>`. The model keeps the archive's top-level listing only, so where the file went inside that directory is not recorded. Neither is the `shutil.Error` raised when that inner name already exists.
- Path building from `ASSETS_PATH`, the `subfolder` argument of `manage_superseded_versions`, and `Settings`: each operation gets the listing of the folder it works in. The separator of `os.path` is a parameter of the register.
- `Register.ScanAssetDocuments`: `os.walk` order and its recursion are flattened into the walk sequence handed in.
- `LifecycleOps.FolderStats` and `LifecycleOps.ListAssets`: `rglob` and `iterdir` are flattened the same way. POSIX and Windows differences in path ordering are not modelled. `sorted` on paths is modelled as ascending order of the folder names.
- `Timeline.AssetTimeline`, `Timeline.AssetTimelineCorrected`: pandas' `sort_values` is not stable, so for the timeline only "sorted by phase number and a permutation" is stated. Python's `list.sort` in the archival policy is stable, and `Versioning.SortNewestFirstStable` proves it.
- `str.isalpha`, `str.isdigit` and `str.upper` are modelled on ASCII letters and digits only. `str.strip` uses the white-space characters Python lists. Unicode case mapping is not modelled.
- An exception in the middle of an operation leaves the effects of the steps before it. `TransitionPhase` states this. Other failures inside `copytree`, `open` or `makedirs`, beyond the name clashes the model names, are not modelled.
- Concurrent runs on one asset: the code has no locking either.
- Listing order after a write: `os.listdir` fixes no order. The model puts a new file at the end (`Listing.Put`), and later scans take the listing in that order, for instance the transition's search for the current marker.
- `tools/__init__.py` only re-exports names, so it has nothing to model.

## Findings

| source | as written | input that shows it | evidently intended | confidence | as-written member | corrected member |
|---|---|---|---|---|---|---|
| references/source_inputs/04_python_automation_notebook.py:684 | The close date is read from the first line containing `Phase Closed:`. | Take the marker `transition_phase` wrote, with the open sentinel line, after the next transition appended `Phase Closed: <date>` to it. Its first `Phase Closed:` line is still the sentinel, so the timeline reports it `Active` with no end date. | The appended closure is the marker's close date, read from its last `Phase Closed:` line, so the phase reads `Closed` on that date. | not executed | Timeline.TimelineOfClosedMarker | Timeline.CorrectedTimelineOfClosedMarker |
