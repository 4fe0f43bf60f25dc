/**
  File deletion as the exporter performs it: a short path is put behind the
  data root of the export directory and removed; a missing file is tolerated,
  any other failure leaves the file in place and is reported.

  The file system is a value: the set of paths that exist and the set of paths
  whose removal fails (permission denied, file in use, a directory).
*/
module Disk {

  import opened Paths

  datatype Disk = Disk(present: set<string>, locked: set<string>)

  /** What os.remove does with one path. */
  datatype Removal = Removed | NotFound | Denied

  function RemoveFile(d: Disk, path: string): (r: (Removal, Disk))
    ensures r.1.locked == d.locked
    ensures r.0 == Removed <==> path in d.present && path !in d.locked
    ensures r.0 == NotFound <==> path !in d.present
    ensures r.0 == Removed ==> r.1.present == d.present - {path}
    ensures r.0 != Removed ==> r.1 == d
  {
    if path !in d.present then (NotFound, d)
    else if path in d.locked then (Denied, d)
    else (Removed, d.(present := d.present - {path}))
  }

  /** The full path delete_by_shortname removes for a short path. */
  function FullPath(exportPath: string, shortName: string): string {
    SomaRoot(exportPath) + shortName
  }

  /**
    delete_by_shortname: 1 exactly when a non-empty name's file exists and
    cannot be removed; 0 for an empty name, a removed file and a missing file.
  */
  function DeleteByShortname(exportPath: string, d: Disk, shortName: string): (r: (int, Disk))
    ensures r.0 == 0 || r.0 == 1
    ensures r.1.locked == d.locked
    ensures r.0 == 1 <==> shortName != "" && FullPath(exportPath, shortName) in d.present
                          && FullPath(exportPath, shortName) in d.locked
    ensures r.1.present == if shortName != "" && FullPath(exportPath, shortName) !in d.locked
                           then d.present - {FullPath(exportPath, shortName)} else d.present
  {
    if shortName == "" then (0, d)
    else
      var (outcome, d') := RemoveFile(d, FullPath(exportPath, shortName));
      (if outcome == Denied then 1 else 0, d')
  }

  /** The names of a list whose file cannot be removed, in list order. */
  function Undeletable(exportPath: string, d: Disk, names: seq<string>): seq<string> {
    if names == [] then []
    else
      var rest := Undeletable(exportPath, d, names[1..]);
      var p := FullPath(exportPath, names[0]);
      if names[0] != "" && p in d.present && p in d.locked then [names[0]] + rest else rest
  }

  /**
    What every deletion pass here does to the disk: files are only removed,
    an existing locked file stays, and which files are locked does not change.
  */
  predicate DiskKept(d: Disk, d': Disk) {
    && d'.locked == d.locked
    && d'.present <= d.present
    && (forall f :: f in d.present && f in d.locked ==> f in d'.present)
  }

  /** Two such passes in a row are one. */
  lemma DiskKeptTrans(d: Disk, d1: Disk, d2: Disk)
    requires DiskKept(d, d1) && DiskKept(d1, d2)
    ensures DiskKept(d, d2)
  {
  }

  /** A path some non-empty name of the list points at. */
  predicate Targeted(exportPath: string, names: seq<string>, path: string) {
    exists k :: 0 <= k < |names| && names[k] != "" && FullPath(exportPath, names[k]) == path
  }

  /**
    delete_assets: each name is deleted in turn and the names whose deletion
    returned 1 are collected, in input order.
  */
  function DeleteAssets(exportPath: string, d: Disk, names: seq<string>): (r: (seq<string>, Disk))
    decreases |names|
  {
    if names == [] then ([], d)
    else
      var (err, d1) := DeleteByShortname(exportPath, d, names[0]);
      var (rest, d2) := DeleteAssets(exportPath, d1, names[1..]);
      (if err == 1 then [names[0]] + rest else rest, d2)
  }

  /**
    The leftovers are exactly the names whose file exists and is locked, in
    order; nothing locked disappears, everything else the list points at is
    gone afterwards, and nothing else changes.
  */
  lemma {:induction false} DeleteAssetsMeaning(exportPath: string, d: Disk, names: seq<string>)
    ensures DeleteAssets(exportPath, d, names).0 == Undeletable(exportPath, d, names)
    ensures DeleteAssets(exportPath, d, names).1.locked == d.locked
    ensures forall p :: p in DeleteAssets(exportPath, d, names).1.present <==>
      p in d.present && (p in d.locked || !Targeted(exportPath, names, p))
    decreases |names|
  {
    if names != [] {
      var (err, d1) := DeleteByShortname(exportPath, d, names[0]);
      DeleteAssetsMeaning(exportPath, d1, names[1..]);
      UndeletableSameLocked(exportPath, d, d1, names[1..]);
      forall p ensures Targeted(exportPath, names, p) <==>
        (names[0] != "" && FullPath(exportPath, names[0]) == p) || Targeted(exportPath, names[1..], p)
      {
        if Targeted(exportPath, names, p) {
          var k :| 0 <= k < |names| && names[k] != "" && FullPath(exportPath, names[k]) == p;
          if k > 0 { assert names[1..][k - 1] == names[k]; }
        }
        if Targeted(exportPath, names[1..], p) {
          var k :| 0 <= k < |names[1..]| && names[1..][k] != "" && FullPath(exportPath, names[1..][k]) == p;
          assert names[k + 1] == names[1..][k];
        }
      }
    }
  }

  /**
    Removing unlocked files does not change which names are undeletable: a
    locked file is never removed.
  */
  lemma {:induction false} UndeletableSameLocked(exportPath: string, d: Disk, d1: Disk, names: seq<string>)
    requires d1.locked == d.locked
    requires forall p :: p in d.locked ==> (p in d1.present <==> p in d.present)
    ensures Undeletable(exportPath, d1, names) == Undeletable(exportPath, d, names)
    decreases |names|
  {
    if names != [] {
      UndeletableSameLocked(exportPath, d, d1, names[1..]);
    }
  }

}
