# HPL3 export: incremental map and ledger synchronisation

This project models the bookkeeping that the Blender add-on `io_export_hpl3.py` does each time it
exports objects into an HPL3 (SOMA) map. It is written in Dafny and every property below is proved.

The bookkeeping covers two XML documents and the files on disk:

- **The map section.** The map file holds a `Blender@HPL3EXPORT` section. It has two parts:
  - a file index of `File{Id, Path}` rows with a `NumOfFiles` counter;
  - an `Objects` list of `StaticObject` or `Entity` rows, each naming its file through `FileIndex`.
- **The asset ledger.** It is a separate XML file with one `Asset{DAEpath, Uses, DDSpath}` row per
  exported mesh.
- **The files on disk.** The exporter deletes a file when it no longer needs it.

The model covers each of the exporter's operations:

- `add_object` looks a mesh's path up in the file index, appending a row when it is missing. It then
  updates or appends the object's row.
- `get_asset_xml_entry` finds or creates the mesh's ledger row.
- `delete_by_shortname` and `delete_assets` remove files. They tolerate missing ones and report the
  ones they could not remove.
- `delete_unused_textures` diffs each mesh's previous texture list against the textures just exported.
- `sync_blender_deletions` removes the map rows of objects that are no longer in the Blender scene.
  It compacts the file index and releases their assets.

Two helpers come with them:

- the name sanitiser `re.sub('[^0-9a-zA-Z]+', '_', …)`;
- the short-path canonicalisation, which turns backslashes into `/` and strips everything through
  the last `/SOMA/`.

Texture-resolution snapping to powers of two is modelled as well.

## How the model is organised

The project has three layers:

- **Definitions on values** (modules `Names`, `Paths`, `Lists`, `Resolution`, `Documents`, `Disk`,
  `MapIndex`, `Ledger`, `Registry`, `Textures` and `Reconcile`). Each operation is written as a
  function over plain records: sequences of `FileEntry`, `MapObject` and `Asset`, plus a `Disk`
  value. The disk is the set of existing paths and the set of paths whose removal fails.
- **Lemmas about those definitions**, stating what the exporter promises.
- **The class `Export.Exporter`.** It holds the section, the ledger, the current asset and the disk
  as fields. Its methods walk and update them with the same loops the exporter runs. Each method's
  postcondition says its new state is exactly what the value-level definition gives for the old
  state, so every lemma about a definition carries over to the method.

Where the code behaves in a way that looks accidental, the model follows the code:

- **New ids.** A new File `Id` is the last row's `Id` plus one, not the maximum. A new object `ID`
  is likewise the last row's `ID` plus one, or a legacy constant when there are no rows.
- **What `Uses` counts.** `Uses` counts file-index rows, not objects. `add_object` adds a use only
  when it appends a new File row in MULTI mode. `sync_blender_deletions` releases a use only when no
  other remaining row shares the orphan's file.
- **The file list in `sync_blender_deletions`.** `files_to_delete` is a local of the whole function.
  When an asset at its last use has no `DDSpath`, the list left over from the previous release in
  the same call is reused, with the new `.dae` and `.msh` appended. If there was no previous
  release, the function raises `UnboundLocalError` (`Reconcile.Crash.UnboundFileList`).
- **The early return.** `sync_blender_deletions` returns 1 at once when a release leaves undeletable
  files. By then the file index is already compacted, but no orphan row has been removed.
  `Reconcile.EarlyReturnLeavesDanglingRow` shows the orphan's row still there, pointing at a File
  row that is no longer its file.
- **Case-insensitive texture diff.** The diff compares paths case-insensitively and matches the
  LAST ledger row with the mesh's path. Textures whose deletion failed are appended to the kept list.
- **`CulledByFog`.** The attribute is written as `"False"` (capitalised) when it is off.

## Model

| member | source | states |
|---|---|---|
| Names.Sanitize | io_export_hpl3.py:256-258 | the result is no longer than the input, is empty iff the input is, and starts with `_` iff the input starts with a separator |
| Names.SanitizeIsClean | io_export_hpl3.py:256-258 | the result holds only `[0-9a-zA-Z_]` and never two `_` in a row |
| Names.SanitizeRun | io_export_hpl3.py:2041 | a non-empty run of separators alone becomes exactly one `_` |
| Names.SanitizeSplitsAtAlnum | io_export_hpl3.py:1453 | an alphanumeric character is kept and splits the substitution into independent left and right parts |
| Names.SanitizeKeepsClean | io_export_hpl3.py:1702 | a name the substitution could have produced is left unchanged |
| Names.SanitizeIdempotent | io_export_hpl3.py:256-258 | sanitising twice equals sanitising once |
| Paths.Slashes | io_export_hpl3.py:379 | the result has the input's length, no backslash, and every other character in place |
| Paths.SomaCutMeaning | io_export_hpl3.py:380 | the greedy `.*\/SOMA\/` cut is 0 iff there is no `/SOMA/`, and otherwise ends right after the LAST occurrence |
| Paths.StripSomaMeaning | io_export_hpl3.py:551 | the stripped path is a tail of the input, holds no `/SOMA/`, is the whole input when it has none, and starts right after the last marker |
| Paths.ShortPathMeaning | io_export_hpl3.py:379-380 | a short path has no backslash and no `/SOMA/`, and a path without the marker is only re-slashed |
| Paths.Find | io_export_hpl3.py:1964 | the first occurrence of a pattern, or none when the pattern does not occur |
| Paths.SomaRoot | io_export_hpl3.py:1964-1970 | without `\SOMA\` the root is empty; otherwise it is the export path up to and including its FIRST `\SOMA\` |
| Paths.EntToDae | io_export_hpl3.py:2080 | a path ending in `ent` gets `dae` in its place and keeps the rest; any other path is unchanged |
| Paths.EntityIndexPathMeetsLedgerKey | io_export_hpl3.py:375-380 | the short `.ent` path of a mesh, turned to `.dae`, is exactly the mesh's `.dae` short path |
| Paths.MshPath | io_export_hpl3.py:2091 | the corrected rewrite: a trailing `.dae` becomes `.msh` with the rest kept, and any other path is unchanged |
| Paths.MshPathAsWrittenRewrites | io_export_hpl3.py:2091 | the rewrite as written replaces the first `<any char>dae`, wherever it occurs, by `.msh` and continues after it |
| Paths.MshPathAsWrittenDiffers | io_export_hpl3.py:2091 | when `dae` occurs before the last four characters of the path, after any character (`.` included), the as-written rewrite puts `.msh` at the first such match and so disagrees with the corrected one |
| Paths.MshPathAsWrittenAgreesExactly | io_export_hpl3.py:2091 | for a path ending in `.dae`, the as-written and corrected rewrites agree if and only if `dae` occurs nowhere before the trailing `.dae` |
| Paths.MshPathAsWrittenDotDirectory | io_export_hpl3.py:2091 | for `x.dae/x.dae` (a directory named like a `.dae` file) the two rewrites disagree |
| Paths.MshPathAgrees | io_export_hpl3.py:2091 | when `dae` occurs only in the trailing `.dae`, the as-written and corrected rewrites give the same path |
| Paths.MshPathAsWrittenMangles | io_export_hpl3.py:2091 | for `Cicadae/Cicadae.dae` the as-written rewrite produces `Cic.msh…` while the corrected one keeps the name |
| Lists.Split | io_export_hpl3.py:2009 | `split(";")` gives at least one piece and no piece holds `;` |
| Lists.JoinSplit | io_export_hpl3.py:2009 | joining the pieces of a split gives back the DDSpath text |
| Lists.SplitJoin | io_export_hpl3.py:2018 | splitting a `;`-join gives back the list when no item holds `;` |
| Resolution.RoundLog2 | io_export_hpl3.py:113 | `round(log2 x)` characterised in integers: `2^(2k) <= 2x² < 2^(2k+2)` |
| Resolution.RoundLog2Unique | io_export_hpl3.py:113 | that characterisation determines the exponent uniquely |
| Resolution.SnapMeaning | io_export_hpl3.py:112-118 | the two cases of `Snap` (rounded exponent within 14, or above it and clamped to 14), and in either case a power of two between 1 and `2^14` |
| Resolution.SnapPow2 | io_export_hpl3.py:112-118 | a power of two up to `2^14` is left unchanged |
| Resolution.SnapIdempotent | io_export_hpl3.py:112-118 | snapping twice equals snapping once |
| Resolution.UpdateResolution | io_export_hpl3.py:112-126 | unfolds the callback: the edited side is snapped and, with a square image, copied to the other side, which is otherwise kept |
| Resolution.UpdateResolutionSettles | io_export_hpl3.py:112-126 | the callback is idempotent: running it again on the values it set changes nothing |
| Resolution.LargestSide | io_export_hpl3.py:902-907 | the largest width (or height) of the images that exist: an upper bound attained by some image, or 0 |
| Resolution.OptimalImageSize | io_export_hpl3.py:888-923 | an unlinked socket gives (4, 4, false); otherwise each side is the snapped largest side limited by the map resolution, or the map resolution when no image was found |
| Disk.RemoveFile | io_export_hpl3.py:1972-1979 | `os.remove` removes an existing unlocked path, reports a missing one, and leaves a locked one |
| Disk.DeleteByShortname | io_export_hpl3.py:1963-1981 | returns 1 iff the name is non-empty and its file exists and is locked; otherwise 0, and an existing unlocked file is gone |
| Disk.DeleteAssetsMeaning | io_export_hpl3.py:1954-1961 | the leftovers are exactly the listed names whose file exists and is locked, in order; afterwards a path exists iff it existed and was locked or not targeted |
| MapIndex.FindPath | io_export_hpl3.py:384-390 | the first File row with the path, or none when no row has it |
| MapIndex.ResolveFile | io_export_hpl3.py:382-408 | an indexed path returns its row's Id and changes nothing; a new path appends a row with the last Id + 1 (0 when empty), and NumOfFiles goes up by 1 |
| MapIndex.ResolveFileKeepsIndex | io_export_hpl3.py:382-408 | on a dense, duplicate-free, correctly counted index the lookup keeps it so, and the returned Id is the position of the row holding the path |
| MapIndex.ShiftIds | io_export_hpl3.py:2069-2070 | every row keeps its path and only Ids above the removed one go down |
| MapIndex.LastWithId | io_export_hpl3.py:2063-2067 | the LAST row with the Id, since the loop does not stop at the first |
| MapIndex.CompactIndex | io_export_hpl3.py:2061-2071 | with no row of that Id there is nothing to remove (`remove(None)` raises); otherwise NumOfFiles goes down by 1, the Ids are shifted, and the last row with the Id is removed |
| MapIndex.CompactKeepsIndex | io_export_hpl3.py:2061-2071 | on a valid index, removing the row at position r keeps the index valid and moves every later row one place up with its path |
| MapIndex.Renumber | io_export_hpl3.py:2073-2075 | every object's FileIndex above the removed one goes down by 1, and nothing else changes |
| MapIndex.RenumberKeepsTargets | io_export_hpl3.py:2061-2075 | after compaction and renumbering, a row that referred to another file still refers to the same path |
| Ledger.FindAsset | io_export_hpl3.py:2081-2084 | the first Asset row with the DAEpath, or none |
| Ledger.GetAssetEntry | io_export_hpl3.py:547-563 | the current asset is a row with the mesh's key; an existing row is reused, and a missing one is appended with Uses 0 and no DDSpath |
| Ledger.GetAssetEntryKeepsUnique | io_export_hpl3.py:547-563 | at most one row per DAEpath: uniqueness is kept, earlier rows are unchanged, and only the current row has the key |
| Ledger.AddUse | io_export_hpl3.py:410-412 | the current asset's Uses goes up by one and no other row changes |
| Ledger.ReleaseAsset | io_export_hpl3.py:2085-2101 | Uses other than 0 or 1 is decremented with nothing deleted; at 0 or 1 the result is unbound iff there is neither a DDSpath nor an earlier list; otherwise the row is removed and the files (DDSpath pieces or the earlier list, then `.dae` and the corrected `.msh`) are deleted: every existing file they name that is not locked is gone, nothing else on disk changes, and the leftovers are exactly the named files that exist and are locked, in order |
| Ledger.DecrementKeepsKeys | io_export_hpl3.py:2101 | decrementing one row's Uses leaves the row found under every other DAEpath as it was |
| Ledger.RemoveKeepsKeys | io_export_hpl3.py:2097 | removing one row leaves the row found under every other DAEpath as it was |
| Ledger.ReleaseKeepsOtherKeys | io_export_hpl3.py:2085-2101 | a release, whether it decrements Uses or removes the row, leaves the row found under every other DAEpath as it was |
| Registry.FindObject | io_export_hpl3.py:465-473 | the first row of the object's kind with the Name, or none |
| Registry.Upsert | io_export_hpl3.py:416-541 | an existing row stays in place with its ID and CreStamp, gets the new ModStamp, placement, FileIndex and flags, and its previous ModStamp (0 if unparsable) is returned; otherwise one row with the next ID and CreStamp = ModStamp = now is appended and 0 is returned |
| Registry.UpsertKeepsRegistry | io_export_hpl3.py:416-541 | names stay unique, exactly one row carries the name with the given FileIndex, existing IDs and CreStamps are kept, every other row keeps its FileIndex, and ascending IDs stay ascending |
| Registry.AddObject | io_export_hpl3.py:348-541 | the ledger changes only in MULTI mode and only at the current asset, whose Uses goes up by one exactly when the mesh's path was not yet indexed |
| Registry.AddObjectKeepsWellFormed | io_export_hpl3.py:348-541 | a well-formed section (or a new one) stays well-formed, and the object's row refers to the File row of its own mesh's path |
| Textures.AddTextureMeaning | io_export_hpl3.py:1996-1999 | adding one exported texture keeps one group per mesh without duplicates and adds exactly that texture to its mesh's group |
| Textures.CollectMeaning | io_export_hpl3.py:1984-1999 | the dictionary has one duplicate-free group per exported mesh, and a group holds exactly the textures exported for its mesh |
| Textures.PruneKeeps | io_export_hpl3.py:2009-2017 | the kept list only grows at its end and stays duplicate-free; files are only removed, an existing locked file stays, and the locked set is unchanged |
| Textures.PruneCovers | io_export_hpl3.py:2009-2017 | afterwards every previous texture is still listed (up to case), or is empty, or its file is gone |
| Textures.PruneOnlyStale | io_export_hpl3.py:2009-2017 | a file is removed only for a previous texture that is not on the exported list (up to case) |
| Textures.LastFoldedMatch | io_export_hpl3.py:2002-2006 | the LAST Asset row whose DAEpath equals the mesh path up to case, or none |
| Textures.DiffGroup | io_export_hpl3.py:2001-2018 | the ledger keeps its rows, keys and use counts |
| Textures.DiffGroupMeaning | io_export_hpl3.py:2001-2018 | without a matching asset nothing changes; otherwise only the LAST asset matching the mesh up to case changes, and only its DDSpath, which becomes the join of a duplicate-free list made of the exported textures followed only by previous textures whose deletion failed, with every failed deletion listed (up to case) and every previous texture listed (up to case), empty or gone; files are only removed, an existing locked file stays, and only those of that asset's previous textures that are no longer exported |
| Textures.PruneAppendsOnlyFailed | io_export_hpl3.py:2009-2016 | every name appended to the kept list is a named previous texture, not on the list it was checked against (up to case), whose file exists and could not be removed |
| Textures.FailedEarlier | io_export_hpl3.py:2009-2016 | a failed deletion seen against a longer list and a later disk is one against the earlier list and disk |
| Textures.DiffFromMeaning | io_export_hpl3.py:2001-2018 | the diff over the groups keeps rows, keys and use counts, and removes files but an existing locked file stays |
| Textures.DeleteUnusedTexturesKeepsLedger | io_export_hpl3.py:1983-2018 | the whole of `delete_unused_textures` keeps rows, keys and use counts, and removes files but an existing locked file stays |
| Reconcile.DropFile | io_export_hpl3.py:2054-2101 | with no File row for the FileIndex the pass crashes; otherwise the index is the compaction, the rows are renumbered, and the status is unchanged, an early return at this row, or an unbound-list crash |
| Reconcile.Visit | io_export_hpl3.py:2037-2101 | one iteration keeps the number of rows |
| Reconcile.VisitLedger | io_export_hpl3.py:2037-2054 | the case split of one iteration: a row still in the scene, and an orphan whose file another unmarked row still uses, leave the ledger, the disk, the bound file list and the status unchanged (Uses is only touched on the not-in-use path); any other orphan is marked and drops its file, whose effect `Reconcile.DropFileReleases` states |
| Reconcile.DropFileReleases | io_export_hpl3.py:2076-2101 | without a ledger row under the key of the removed path nothing changes; with more than one use only that row's Uses goes down by one; at the last use the pass crashes iff there is no DDSpath and no earlier list, and otherwise the row is removed, the list becomes the bound list, every unlocked file it names is deleted and nothing else, and the pass returns early iff a named file exists but is locked |
| Reconcile.VisitKeepsLocked | io_export_hpl3.py:2037-2101 | one iteration removes no locked file, creates no file and keeps the locked set |
| Reconcile.SweepKeepsLocked | io_export_hpl3.py:2036-2101 | the whole loop, however it ends, removes no locked file and creates no file |
| Reconcile.DroppedPathIsNotLive | io_export_hpl3.py:2046-2054 | the file the pass drops for an orphan is never the file of a row still in the scene |
| Reconcile.VisitKeepsLiveAsset | io_export_hpl3.py:2037-2101 | one iteration leaves unchanged the ledger row of the file of a row still in the scene, when no other index path has the same ledger key |
| Reconcile.SweepKeepsLiveAsset | io_export_hpl3.py:2036-2101 | the whole loop, however it ends, leaves that ledger row unchanged |
| Reconcile.PassKeepsLiveAsset | io_export_hpl3.py:2036-2101 | from the start of the pass, the ledger row of the file of one row still in the scene is unchanged at the end of the loop |
| Reconcile.SyncDeletionsKeepsLocked | io_export_hpl3.py:2022-2105 | completed, returned early or crashed, the pass removes no locked file and creates none |
| Reconcile.SyncDeletionsKeepsLiveAssets | io_export_hpl3.py:2022-2105 | completed or returned early, no ledger row of a file still used by a row in the scene is released or decremented (when no other index path shares its ledger key, as always for static objects) |
| Reconcile.NotInUseMeansAlone | io_export_hpl3.py:2048-2053 | when the orphan's file is not in use, no other unmarked row has its FileIndex |
| Reconcile.IndexPathMeetsLedgerKey | io_export_hpl3.py:2079-2084 | the ledger key computed from an indexed path (`.ent` turned into `.dae` for entities) is the key `get_asset_xml_entry` used for the same mesh |
| Reconcile.DropFileKeepsTargets | io_export_hpl3.py:2054-2075 | dropping a file nobody else uses never meets a missing File row, keeps the index valid, and keeps every other unmarked row on its own path |
| Reconcile.DropFileDangles | io_export_hpl3.py:2096-2099 | an early return while dropping the orphan's file leaves that orphan's FileIndex pointing past the end or at another path |
| Reconcile.VisitKeeps | io_export_hpl3.py:2037-2101 | one iteration keeps the loop invariant (rows in place, valid index, unmarked rows on their paths, exactly the orphans so far marked) and never meets a missing File row |
| Reconcile.SweepKeeps | io_export_hpl3.py:2036-2101 | the whole loop never meets a missing File row, ends with the invariant when it completes, and an early return leaves the orphan's row dangling |
| Reconcile.SurvivorsMeaning | io_export_hpl3.py:2102-2103 | the rows kept at the end are exactly the unmarked rows, and unique names stay unique |
| Reconcile.SurvivorsKeepSection | io_export_hpl3.py:2102-2103 | removing the marked rows leaves a well-formed section with exactly the live rows, each on its own path |
| Reconcile.SyncDeletionsCorrect | io_export_hpl3.py:2022-2105 | on a well-formed section the pass never raises at `files.remove(None)`; when it completes, the section is well-formed, every surviving row is a live row unchanged but for FileIndex and on its own path, and every live row survives |
| Reconcile.EarlyReturnLeavesDanglingRow | io_export_hpl3.py:2096-2105 | when the function returns 1, the map still holds the orphan's row, for an object not in the scene, and its FileIndex no longer names its file |
| Export.SceneHas | io_export_hpl3.py:2038-2043 | the loop finds a scene object iff some object's sanitised name equals the row's Name |
| Export.ListedFolded | io_export_hpl3.py:2010-2013 | the loop answers exactly whether the texture is on the list up to case |
| Export.CollectGroups | io_export_hpl3.py:1984-1999 | the dictionary built by the loop is the collected groups |
| Export.Exporter.FindAssetRow | io_export_hpl3.py:2081-2084 | the loop finds the first Asset row with the key |
| Export.Exporter.GetAssetXmlEntry | io_export_hpl3.py:547-563 | the new ledger and current asset are those of `get_asset_xml_entry` |
| Export.Exporter.FindFileRow | io_export_hpl3.py:383-390 | the loop finds the first File row with the path and, when there is none, leaves the last row visited |
| Export.Exporter.FindObjectRow | io_export_hpl3.py:465-473 | the loop finds the first row of the kind with the Name |
| Export.Exporter.IndexFile | io_export_hpl3.py:382-412 | the index, NumOfFiles, Id and ledger afterwards are those of the lookup, with a use added for a new row in MULTI mode |
| Export.Exporter.UpsertRow | io_export_hpl3.py:416-541 | the Objects list and returned ModStamp are those of the upsert |
| Export.Exporter.AddObject | io_export_hpl3.py:348-541 | the section, ledger and returned ModStamp are those of `add_object` |
| Export.Exporter.DeleteByShortname | io_export_hpl3.py:1963-1981 | the return value and the disk are those of `delete_by_shortname` |
| Export.Exporter.DeleteAssets | io_export_hpl3.py:1954-1961 | the leftovers and the disk are those of `delete_assets` |
| Export.Exporter.LastMatchingAsset | io_export_hpl3.py:2002-2006 | the loop without a break ends at the last matching row |
| Export.Exporter.Prune | io_export_hpl3.py:2009-2017 | the kept list and disk are those of the pruning loop |
| Export.Exporter.DiffGroup | io_export_hpl3.py:2001-2018 | the ledger and disk after one mesh are those of the group's diff |
| Export.Exporter.DeleteUnusedTextures | io_export_hpl3.py:1983-2018 | the ledger and disk are those of `delete_unused_textures` |
| Export.Exporter.FileInUse | io_export_hpl3.py:2048-2053 | the loop answers exactly whether another unmarked row with a different Name shares the FileIndex |
| Export.Exporter.RemoveFileRow | io_export_hpl3.py:2061-2071 | NumOfFiles goes down by one, and the File rows and removed path are those of the compaction, with no path when no row has the Id |
| Export.Exporter.RenumberRows | io_export_hpl3.py:2073-2075 | the Objects list is renumbered |
| Export.Exporter.ReleaseAssetRow | io_export_hpl3.py:2085-2101 | the ledger, disk, deleted list and leftovers are those of the release, and an unbound list changes nothing |
| Export.Exporter.DropFile | io_export_hpl3.py:2054-2101 | the new state, bound file list and status are those of dropping the orphan's file |
| Export.Exporter.VisitRow | io_export_hpl3.py:2037-2101 | the new state, marks, file list and status are those of one iteration |
| Export.Exporter.RemoveMarked | io_export_hpl3.py:2102-2103 | the Objects list becomes the unmarked rows in order |
| Export.Exporter.SyncBlenderDeletions | io_export_hpl3.py:2022-2105 | the return value, raised error, section, ledger and disk are those of `sync_blender_deletions`; after a raised error the disk keeps the deletions already made |

## Left out

- Blender scene access is replaced by parameters:
  - the names of the scene's objects are a list of strings;
  - the exported `(mesh path, texture path)` pairs are given in export order, instead of being found
    by walking map groups, meshes and images;
  - `get_optimal_image_size` receives the image sizes of the texture nodes, instead of traversing the
    node tree.
- The file system is reduced to two sets: the paths that exist and the paths whose removal fails.
  Parsing and writing the XML files, the `print` calls and the UI are not modelled.
- `os.path.normpath` is not modelled; a short path only re-slashes and strips the data root.
- The regular expressions are modelled for paths and names without newlines:
  - `.` and `$` in the patterns are treated as if no newline could occur;
  - `lower()` folds ASCII letters only.
- Attributes the code compares as strings (`Id`, `FileIndex`, `Uses`) are modelled as integers.
  This assumes they hold canonical decimal text, as the exporter writes them.
- Errors the code does not raise on the exporter's own documents are not modelled: a missing
  `ModStamp`, or a non-numeric `ID`, `Id` or `FileIndex`.
- The section layout is not modelled: multiple `Blender@HPL3EXPORT` sections, and `add_object`
  reading the first child of the section while `sync_blender_deletions` looks the index up by tag.
- The two `time.time()` reads in `add_object` are one `now` parameter.
- Object transforms (matrices, Euler angles, `{:.5f}` formatting) are an opaque `Placement` value.
- An entity's `UserVariables` are a map in which the `CastShadows` Var is set. The search loop over
  the `Var` elements is not modelled.
- `entries_to_remove` and the final `objects.remove` work on element identity. The model marks rows
  by position and filters by position, which is the same for a list of distinct elements.
- The floating-point `round(math.log(x, 2))` is replaced by the exact integer characterisation of
  rounding `log2 x`. An integer side never lies exactly halfway between two powers, so only
  floating-point error very close to such a point could make the two differ.
- Registry.AddObject: its contract states the ledger update only. What it does to the section is
  proved in Registry.AddObjectKeepsWellFormed, and `Export.Exporter.AddObject` ties the whole
  state to it.
- Textures.DiffGroup: its contract states only what the diff keeps. What it writes and deletes is
  proved in Textures.DiffGroupMeaning.
- Reconcile.Visit: its contract states only that the number of rows is kept. What it does to the
  section is proved in Reconcile.VisitKeeps, and what it does to the ledger and the disk in
  Reconcile.VisitLedger, Reconcile.DropFileReleases and Reconcile.VisitKeepsLocked.
- Reconcile.DropFile: its contract states the section half. The ledger and disk half is proved in
  Reconcile.DropFileReleases.
- Ledger.ReleaseAsset: the `.msh` file it deletes is the corrected `Paths.MshPath` of the DAEpath,
  not the path the code computes at line 2091. For a DAEpath (which ends in `.dae`) the two differ
  exactly when `dae` also occurs somewhere before the trailing `.dae`, after any character, `.`
  included: `Cicadae/Cicadae.dae` and `x.dae/x.dae` both differ
  (`Paths.MshPathAsWrittenAgreesExactly`). There the code deletes a file other than the mesh's
  `.msh` (usually one that does not exist) and leaves the real `.msh` on disk, while the model
  deletes the real one; if that file is locked, the model reports it as a leftover and returns
  early where the code goes on. On every other DAEpath the two agree.
- Export.Exporter.ReleaseAssetRow: deletes the corrected `.msh` path, as Ledger.ReleaseAsset does.
- Reconcile.DropFile, Export.Exporter.DropFile, Export.Exporter.VisitRow and
  Export.Exporter.SyncBlenderDeletions: inherit the corrected `.msh` path from Ledger.ReleaseAsset.
- Reconcile.SyncDeletions: when the pass raises, the result keeps only the reason and the disk. The
  exception leaves `execute` (which catches only `ExportError`), so neither XML file is written and
  the in-memory section and ledger are lost; the deletions already made are all that remains.

## Findings

| source | as written | input that shows it | evidently intended | confidence | as-written member | corrected member |
|---|---|---|---|---|---|---|
| io_export_hpl3.py:2091 | `re.sub(r'.dae', '.msh', path)`: the unescaped `.` matches any character and every match anywhere in the path is replaced | the ledger path `Cicadae/Cicadae.dae` becomes `Cic.msh/Cic.msh.msh`, so the mesh's real `.msh` file is never deleted | replace only the trailing `.dae` extension: `Cicadae/Cicadae.msh` | not executed | Paths.MshPathAsWrittenMangles | Paths.MshPath |

The releases in `Ledger.ReleaseAsset` and `Export.Exporter.ReleaseAssetRow` use the corrected
`Paths.MshPath`. On a DAEpath the two rewrites agree exactly when `dae` occurs nowhere before
the trailing `.dae` (`Paths.MshPathAsWrittenAgreesExactly`).
