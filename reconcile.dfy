/**
  sync_blender_deletions: rows of the map whose object no longer exists in
  the Blender scene are removed; when no other remaining row uses the same
  file, the file's index row is removed (closing the gap in the ids), and the
  mesh's asset either loses a use or, at its last use, has its files deleted
  and its ledger row removed.
*/
module Reconcile {

  import opened Options
  import opened Names
  import opened Paths
  import opened Documents
  import opened MapIndex
  import opened Ledger
  import opened Disk
  import opened Registry

  /** The exceptions the pass can raise. */
  datatype Crash =
    | MissingFileEntry   // no File row has the orphan's FileIndex: files.remove(None)
    | UnboundFileList    // no DDSpath and no earlier release: files_to_delete is unbound

  datatype Status = Running | EarlyReturn(at: nat) | Crashed(reason: Crash)

  /**
    The state of the pass over the Objects list: the section's index and rows,
    the ledger, the disk, the rows marked for removal (by position), the file
    list the last release bound, and whether the pass goes on.
  */
  datatype Pass = Pass(
    files: seq<FileEntry>,
    numOfFiles: int,
    objects: seq<MapObject>,
    assets: seq<Asset>,
    disk: Disk,
    marked: set<nat>,
    pending: Option<seq<string>>,
    status: Status)

  /** Some object of the scene has a name that sanitises to this row's Name. */
  predicate IsLive(live: seq<string>, name: string) {
    exists k :: 0 <= k < |live| && Sanitize(live[k]) == name
  }

  /** Another unmarked row with a different Name uses the same FileIndex. */
  predicate InUse(objects: seq<MapObject>, marked: set<nat>, i: nat)
    requires i < |objects|
  {
    exists k :: 0 <= k < |objects| && objects[k].fileIndex == objects[i].fileIndex
                && objects[k].name != objects[i].name && k !in marked
  }

  /** The ledger key of an index path: an entity's .ent path becomes its .dae path. */
  function LedgerKey(kind: Kind, indexPath: string): string {
    if kind == Entity then EntToDae(indexPath) else indexPath
  }

  /**
    The asset a dropped file releases is the one get_asset_xml_entry keyed
    for the same mesh: the ledger key of the path add_object indexed is the
    mesh's ledger key, for entities (.ent turned into .dae) and static
    objects alike.
  */
  lemma IndexPathMeetsLedgerKey(env: Env, meshName: string)
    ensures LedgerKey(env.kind, IndexPath(env, meshName)) == MeshKey(env.exportPath, meshName)
  {
    if env.kind == Entity {
      EntityIndexPathMeetsLedgerKey(env.exportPath, Sanitize(meshName));
    }
  }

  /**
    Removing the file of the orphan at position i, whose FileIndex is r: the
    index is compacted, the rows are renumbered, and the mesh's asset (if the
    ledger lists it) is released.
  */
  function DropFile(p: Pass, i: nat, r: int, env: Env): (q: Pass)
    ensures |q.objects| == |p.objects| && q.marked == p.marked
    ensures CompactIndex(p.files, p.numOfFiles, r).None? ==> q.status == Crashed(MissingFileEntry)
    ensures CompactIndex(p.files, p.numOfFiles, r).Some? ==>
      var c := CompactIndex(p.files, p.numOfFiles, r).value;
      && q.files == c.files && q.numOfFiles == c.numOfFiles && q.objects == Renumber(p.objects, r)
      && (q.status == p.status || q.status == EarlyReturn(i) || q.status == Crashed(UnboundFileList))
  {
    match CompactIndex(p.files, p.numOfFiles, r)
    case None => p.(files := ShiftIds(p.files, r), numOfFiles := p.numOfFiles - 1, status := Crashed(MissingFileEntry))
    case Some(c) =>
      var p1 := p.(files := c.files, numOfFiles := c.numOfFiles, objects := Renumber(p.objects, r));
      match FindAsset(p.assets, LedgerKey(env.kind, c.removedPath))
      case None => p1
      case Some(k) =>
        match ReleaseAsset(p.assets, k, env.exportPath, p.disk, p.pending)
        case Unbound => p1.(status := Crashed(UnboundFileList))
        case Released(assets, disk, deleted, leftovers) =>
          var lastUse := p.assets[k].uses == 0 || p.assets[k].uses == 1;
          p1.(assets := assets, disk := disk,
              pending := if lastUse then Some(deleted) else p.pending,
              status := if leftovers != [] then EarlyReturn(i) else p.status)
  }

  /** One iteration of the loop over the Objects list, at position i. */
  function Visit(p: Pass, i: nat, live: seq<string>, env: Env): (q: Pass)
    requires i < |p.objects|
    ensures |q.objects| == |p.objects|
  {
    var e := p.objects[i];
    if IsLive(live, e.name) then p
    else
      var p1 := p.(marked := p.marked + {i});
      if InUse(p1.objects, p1.marked, i) then p1 else DropFile(p1, i, e.fileIndex, env)
  }

  /** The loop from position i on; it stops at an early return or an exception. */
  function Sweep(p: Pass, i: nat, live: seq<string>, env: Env): Pass
    decreases |p.objects| - i
  {
    if i >= |p.objects| || !p.status.Running? then p
    else Sweep(Visit(p, i, live, env), i + 1, live, env)
  }

  /** The rows not marked for removal, from position k on, in order. */
  function Survivors(objects: seq<MapObject>, marked: set<nat>, k: nat): seq<MapObject>
    decreases |objects| - k
  {
    if k >= |objects| then []
    else (if k in marked then [] else [objects[k]]) + Survivors(objects, marked, k + 1)
  }

  datatype SyncResult =
    | NoSection
    | Synced(section: Section, assets: seq<Asset>, disk: Disk)
    | Stopped(section: Section, assets: seq<Asset>, disk: Disk, at: nat)
    | Failed(reason: Crash, disk: Disk)   // the exception: only the deletions already made remain

  /**
    sync_blender_deletions for the names of the scene's objects: without a
    section nothing happens (return 0); otherwise the loop runs and the marked
    rows are removed (return 0), unless a release left files behind, which
    returns 1 at once with the index already compacted and no row removed.
  */
  function SyncDeletions(section: Option<Section>, assets: seq<Asset>, d: Disk, live: seq<string>, env: Env): SyncResult {
    match section
    case None => NoSection
    case Some(s) =>
      var p := Sweep(Pass(s.files, s.numOfFiles, s.objects, assets, d, {}, None, Running), 0, live, env);
      match p.status
      case Running => Synced(Section(p.files, p.numOfFiles, Survivors(p.objects, p.marked, 0)), p.assets, p.disk)
      case EarlyReturn(at) => Stopped(Section(p.files, p.numOfFiles, p.objects), p.assets, p.disk, at)
      case Crashed(c) => Failed(c, p.disk)
  }

  /** The value sync_blender_deletions returns (an exception returns nothing). */
  function ReturnCode(r: SyncResult): int {
    if r.Stopped? then 1 else 0
  }

  // ------------------------------------------------------------------------
  //  What the pass keeps true, relative to the section it started from
  // ------------------------------------------------------------------------

  /** Rows keep their place and everything but their FileIndex. */
  predicate SameRows(orig: Section, p: Pass) {
    && |p.objects| == |orig.objects|
    && forall j :: 0 <= j < |p.objects| ==> p.objects[j] == orig.objects[j].(fileIndex := p.objects[j].fileIndex)
  }

  /** Every unmarked row refers to an index row with the path it referred to at the start. */
  predicate TargetsKept(orig: Section, p: Pass)
    requires ReferencesValid(orig.files, orig.objects)
    requires |p.objects| == |orig.objects|
  {
    forall j :: 0 <= j < |p.objects| && j !in p.marked ==>
      0 <= p.objects[j].fileIndex < |p.files|
      && p.files[p.objects[j].fileIndex].path == orig.files[orig.objects[j].fileIndex].path
  }

  /** Exactly the orphans before position i are marked. */
  ghost predicate MarkedOrphans(orig: Section, p: Pass, live: seq<string>, i: nat) {
    forall j: nat :: j in p.marked <==> (j < i && j < |orig.objects| && !IsLive(live, orig.objects[j].name))
  }

  ghost predicate Inv(orig: Section, p: Pass, live: seq<string>, i: nat) {
    && ReferencesValid(orig.files, orig.objects)
    && SameRows(orig, p)
    && IndexValid(p.files, p.numOfFiles)
    && TargetsKept(orig, p)
    && MarkedOrphans(orig, p, live, i)
  }

  /** The orphan row at position at refers to a File row that is not its file any more. */
  predicate Dangling(orig: Section, p: Pass, at: nat)
    requires ReferencesValid(orig.files, orig.objects)
  {
    && at < |p.objects| && at < |orig.objects|
    && var fi := p.objects[at].fileIndex;
       !(0 <= fi < |p.files|) || p.files[fi].path != orig.files[orig.objects[at].fileIndex].path
  }

  /** An unmarked row other than the orphan never shares the FileIndex that is removed. */
  lemma NotInUseMeansAlone(orig: Section, p: Pass, i: nat, j: nat)
    requires UniqueNames(orig.objects) && SameRows(orig, p)
    requires i < |p.objects| && j < |p.objects| && j != i && j !in p.marked
    requires i in p.marked && !InUse(p.objects, p.marked, i)
    ensures p.objects[j].fileIndex != p.objects[i].fileIndex
  {
    assert p.objects[j].name == orig.objects[j].name && p.objects[i].name == orig.objects[i].name;
    assert orig.objects[j].name != orig.objects[i].name;
  }

  /**
    Dropping the file of an orphan that no unmarked row shares never meets a
    missing File row and keeps every other unmarked row on its own path.
  */
  lemma DropFileKeepsTargets(orig: Section, p: Pass, i: nat, env: Env)
    requires UniqueNames(orig.objects)
    requires i < |orig.objects|
    requires ReferencesValid(orig.files, orig.objects) && SameRows(orig, p)
    requires IndexValid(p.files, p.numOfFiles) && TargetsKept(orig, p.(marked := p.marked - {i}))
    requires i in p.marked && !InUse(p.objects, p.marked, i) && p.status.Running?
    ensures var q := DropFile(p, i, p.objects[i].fileIndex, env);
      && q.status != Crashed(MissingFileEntry)
      && SameRows(orig, q) && IndexValid(q.files, q.numOfFiles) && TargetsKept(orig, q)
  {
    var r := p.objects[i].fileIndex;
    assert 0 <= r < |p.files|;
    CompactKeepsIndex(p.files, p.numOfFiles, r);
    var q := DropFile(p, i, r, env);
    var c := CompactIndex(p.files, p.numOfFiles, r).value;
    assert q.files == c.files && q.objects == Renumber(p.objects, r) && q.marked == p.marked;
    forall j | 0 <= j < |q.objects| && j !in q.marked
      ensures 0 <= q.objects[j].fileIndex < |q.files|
      ensures q.files[q.objects[j].fileIndex].path == orig.files[orig.objects[j].fileIndex].path
    {
      RenumberedRowKeepsTarget(orig, p, i, j);
    }
  }

  /** One unmarked row other than the orphan, after the orphan's file was dropped. */
  lemma RenumberedRowKeepsTarget(orig: Section, p: Pass, i: nat, j: nat)
    requires UniqueNames(orig.objects)
    requires i < |orig.objects| && j < |orig.objects| && j != i && j !in p.marked
    requires ReferencesValid(orig.files, orig.objects) && SameRows(orig, p)
    requires IndexValid(p.files, p.numOfFiles) && TargetsKept(orig, p.(marked := p.marked - {i}))
    requires i in p.marked && !InUse(p.objects, p.marked, i)
    ensures var r := p.objects[i].fileIndex;
      var c := CompactIndex(p.files, p.numOfFiles, r);
      var o := Renumber(p.objects, r)[j];
      && c.Some? && 0 <= o.fileIndex < |c.value.files|
      && c.value.files[o.fileIndex].path == orig.files[orig.objects[j].fileIndex].path
  {
    var r := p.objects[i].fileIndex;
    assert j !in p.marked - {i};
    NotInUseMeansAlone(orig, p, i, j);
    RenumberKeepsTargets(p.files, p.numOfFiles, r, p.objects[j]);
  }

  /** An early return while dropping the orphan's file leaves that orphan's row dangling. */
  lemma DropFileDangles(orig: Section, p: Pass, i: nat, env: Env)
    requires i < |orig.objects|
    requires ReferencesValid(orig.files, orig.objects) && SameRows(orig, p)
    requires IndexValid(p.files, p.numOfFiles) && UniquePaths(p.files)
    requires 0 <= p.objects[i].fileIndex < |p.files|
    requires p.files[p.objects[i].fileIndex].path == orig.files[orig.objects[i].fileIndex].path
    requires p.status.Running?
    ensures var q := DropFile(p, i, p.objects[i].fileIndex, env);
      q.status.EarlyReturn? ==> q.status.at == i && Dangling(orig, q, i)
  {
    var r := p.objects[i].fileIndex;
    CompactKeepsIndex(p.files, p.numOfFiles, r);
    var q := DropFile(p, i, r, env);
    if q.status.EarlyReturn? {
      assert q.objects[i].fileIndex == r;
      if r < |q.files| {
        assert q.files[r].path == p.files[r + 1].path;
      }
    }
  }

  /** One iteration keeps the invariant, and the pass never meets a missing File row. */
  lemma VisitKeeps(orig: Section, p: Pass, live: seq<string>, i: nat, env: Env)
    requires UniqueNames(orig.objects)
    requires i < |orig.objects|
    requires Inv(orig, p, live, i)
    ensures var q := Visit(p, i, live, env);
      p.status.Running? ==>
        && q.status != Crashed(MissingFileEntry)
        && (q.status.Crashed? || Inv(orig, q, live, i + 1))
        && (q.status.EarlyReturn? ==> q.status.at == i && Dangling(orig, q, i))
  {
    var e := p.objects[i];
    assert e.name == orig.objects[i].name;
    if !IsLive(live, e.name) {
      var p1 := p.(marked := p.marked + {i});
      assert i !in p.marked;
      assert p1.(marked := p1.marked - {i}) == p;
      if !InUse(p1.objects, p1.marked, i) {
        if p.status.Running? {
          DropFileKeepsTargets(orig, p1, i, env);
          DropFileDangles(orig, p1, i, env);
          var q := DropFile(p1, i, e.fileIndex, env);
          assert MarkedOrphans(orig, q, live, i + 1);
        }
      }
    }
  }

  /** The whole loop, from a running state that satisfies the invariant. */
  lemma {:induction false} SweepKeeps(orig: Section, p: Pass, live: seq<string>, i: nat, env: Env)
    requires UniqueNames(orig.objects)
    requires i <= |orig.objects|
    requires Inv(orig, p, live, i)
    requires p.status.Running?
    ensures var q := Sweep(p, i, live, env);
      && q.status != Crashed(MissingFileEntry)
      && (q.status.Running? ==> Inv(orig, q, live, |orig.objects|))
      && (q.status.EarlyReturn? ==> q.status.at < |orig.objects| && Inv(orig, q, live, q.status.at + 1)
                                    && Dangling(orig, q, q.status.at))
    decreases |orig.objects| - i
  {
    if i < |orig.objects| {
      VisitKeeps(orig, p, live, i, env);
      var q := Visit(p, i, live, env);
      assert Sweep(p, i, live, env) == Sweep(q, i + 1, live, env);
      if q.status.Running? {
        SweepKeeps(orig, q, live, i + 1, env);
      } else {
        assert Sweep(q, i + 1, live, env) == q;
      }
    }
  }

  /** The unmarked rows are exactly the survivors. */
  lemma {:induction false} SurvivorsMeaning(objects: seq<MapObject>, marked: set<nat>, k: nat)
    ensures forall x :: x in Survivors(objects, marked, k) <==>
      exists j :: k <= j < |objects| && j !in marked && objects[j] == x
    ensures UniqueNames(objects) ==> UniqueNames(Survivors(objects, marked, k))
    decreases |objects| - k
  {
    if k < |objects| {
      SurvivorsMeaning(objects, marked, k + 1);
      var rest := Survivors(objects, marked, k + 1);
      if UniqueNames(objects) && k !in marked {
        forall x | x in rest ensures x.name != objects[k].name {
          var j :| k + 1 <= j < |objects| && j !in marked && objects[j] == x;
        }
        var s := [objects[k]] + rest;
        forall a, b | 0 <= a < b < |s| ensures s[a].name != s[b].name {
          if a == 0 { assert s[b] in rest; } else { assert s[a] == rest[a - 1] && s[b] == rest[b - 1]; }
        }
      }
    }
  }

  /** Rows that keep their names keep them distinct. */
  lemma SameRowsKeepNames(orig: Section, p: Pass)
    requires UniqueNames(orig.objects)
    requires SameRows(orig, p)
    ensures UniqueNames(p.objects)
  {
    forall a, b | 0 <= a < b < |p.objects| ensures p.objects[a].name != p.objects[b].name {
      assert p.objects[a].name == orig.objects[a].name && p.objects[b].name == orig.objects[b].name;
    }
  }

  /** After a completed loop every unmarked row is a live row on the path of its own file. */
  lemma SurvivorsAreLive(s: Section, p: Pass, live: seq<string>, kind: Kind)
    requires WellFormed(s, kind)
    requires Inv(s, p, live, |s.objects|)
    ensures forall o :: o in Survivors(p.objects, p.marked, 0) ==>
      && 0 <= o.fileIndex < |p.files| && o.kind == kind
      && exists j :: 0 <= j < |s.objects| && IsLive(live, s.objects[j].name)
                     && o == s.objects[j].(fileIndex := o.fileIndex)
                     && p.files[o.fileIndex].path == s.files[s.objects[j].fileIndex].path
  {
    SurvivorsMeaning(p.objects, p.marked, 0);
    forall o | o in Survivors(p.objects, p.marked, 0)
      ensures 0 <= o.fileIndex < |p.files| && o.kind == kind
      ensures exists j :: 0 <= j < |s.objects| && IsLive(live, s.objects[j].name)
                          && o == s.objects[j].(fileIndex := o.fileIndex)
                          && p.files[o.fileIndex].path == s.files[s.objects[j].fileIndex].path
    {
      var j :| 0 <= j < |p.objects| && j !in p.marked && p.objects[j] == o;
      assert o == s.objects[j].(fileIndex := o.fileIndex);
    }
  }

  /** After a completed loop every live row is still among the unmarked rows. */
  lemma LiveRowsSurvive(s: Section, p: Pass, live: seq<string>)
    requires SameRows(s, p)
    requires MarkedOrphans(s, p, live, |s.objects|)
    ensures forall j :: 0 <= j < |s.objects| && IsLive(live, s.objects[j].name) ==>
      exists o :: o in Survivors(p.objects, p.marked, 0) && o.name == s.objects[j].name
  {
    SurvivorsMeaning(p.objects, p.marked, 0);
    forall j | 0 <= j < |s.objects| && IsLive(live, s.objects[j].name)
      ensures exists o :: o in Survivors(p.objects, p.marked, 0) && o.name == s.objects[j].name
    {
      assert j !in p.marked;
      assert p.objects[j] in Survivors(p.objects, p.marked, 0);
    }
  }

  /**
    At the end of a completed loop, removing the marked rows leaves a
    well-formed section holding exactly the live rows, each on its own path.
  */
  lemma SurvivorsKeepSection(s: Section, p: Pass, live: seq<string>, kind: Kind)
    requires WellFormed(s, kind)
    requires Inv(s, p, live, |s.objects|)
    ensures var surv := Survivors(p.objects, p.marked, 0);
      && WellFormed(Section(p.files, p.numOfFiles, surv), kind)
      && (forall o :: o in surv ==>
            exists j :: 0 <= j < |s.objects| && IsLive(live, s.objects[j].name)
                        && o == s.objects[j].(fileIndex := o.fileIndex)
                        && p.files[o.fileIndex].path == s.files[s.objects[j].fileIndex].path)
      && (forall j :: 0 <= j < |s.objects| && IsLive(live, s.objects[j].name) ==>
            exists o :: o in surv && o.name == s.objects[j].name)
  {
    var surv := Survivors(p.objects, p.marked, 0);
    SameRowsKeepNames(s, p);
    SurvivorsMeaning(p.objects, p.marked, 0);
    SurvivorsAreLive(s, p, live, kind);
    LiveRowsSurvive(s, p, live);
    forall k | 0 <= k < |surv| ensures 0 <= surv[k].fileIndex < |p.files| && surv[k].kind == kind {
      assert surv[k] in surv;
    }
  }

  /**
    The synchronisation theorem. On a well-formed section the pass never
    meets a missing File row. When it completes, the section is still
    well-formed; the surviving rows are exactly the rows whose object is
    still in the scene, unchanged except for FileIndex, and each still refers
    to the path of its own file.
  */
  lemma SyncDeletionsCorrect(s: Section, assets: seq<Asset>, d: Disk, live: seq<string>, env: Env)
    requires WellFormed(s, env.kind)
    ensures var r := SyncDeletions(Some(s), assets, d, live, env); !(r.Failed? && r.reason == MissingFileEntry)
    ensures var r := SyncDeletions(Some(s), assets, d, live, env);
      r.Synced? ==>
        && WellFormed(r.section, env.kind)
        && (forall o :: o in r.section.objects ==>
              exists j :: 0 <= j < |s.objects| && IsLive(live, s.objects[j].name)
                          && o == s.objects[j].(fileIndex := o.fileIndex)
                          && r.section.files[o.fileIndex].path == s.files[s.objects[j].fileIndex].path)
        && (forall j :: 0 <= j < |s.objects| && IsLive(live, s.objects[j].name) ==>
              exists o :: o in r.section.objects && o.name == s.objects[j].name)
  {
    var p0 := Pass(s.files, s.numOfFiles, s.objects, assets, d, {}, None, Running);
    assert Inv(s, p0, live, 0);
    SweepKeeps(s, p0, live, 0, env);
    var p := Sweep(p0, 0, live, env);
    if p.status.Running? {
      SurvivorsKeepSection(s, p, live, env.kind);
    }
  }

  /**
    The early return. When a release leaves files behind, the function returns
    1 with the file index already compacted but the orphan rows still in the
    map: the row of the orphan at which it stopped is still there, for an
    object no longer in the scene, and its FileIndex no longer names its file
    (it is past the end or names the next file).
  */
  lemma EarlyReturnLeavesDanglingRow(s: Section, assets: seq<Asset>, d: Disk, live: seq<string>, env: Env)
    requires WellFormed(s, env.kind)
    ensures var r := SyncDeletions(Some(s), assets, d, live, env);
      r.Stopped? ==>
        && ReturnCode(r) == 1
        && r.at < |r.section.objects| && |r.section.objects| == |s.objects|
        && r.section.objects[r.at].name == s.objects[r.at].name
        && !IsLive(live, s.objects[r.at].name)
        && var fi := r.section.objects[r.at].fileIndex;
           (!(0 <= fi < |r.section.files|) || r.section.files[fi].path != s.files[s.objects[r.at].fileIndex].path)
  {
    var p0 := Pass(s.files, s.numOfFiles, s.objects, assets, d, {}, None, Running);
    assert Inv(s, p0, live, 0);
    SweepKeeps(s, p0, live, 0, env);
    var p := Sweep(p0, 0, live, env);
    if p.status.EarlyReturn? {
      var at := p.status.at;
      assert at in p.marked;
      assert p.objects[at].name == s.objects[at].name;
    }
  }

  // ------------------------------------------------------------------------
  //  What the pass does to the ledger and the disk
  // ------------------------------------------------------------------------

  /**
    A row whose object is still in the scene, and an orphan whose file another
    unmarked row still uses, leave the ledger, the disk and the bound file
    list alone: Uses only goes down when a file is dropped.
  */
  lemma VisitLedger(p: Pass, i: nat, live: seq<string>, env: Env)
    requires i < |p.objects|
    ensures var q := Visit(p, i, live, env);
      (IsLive(live, p.objects[i].name) || InUse(p.objects, p.marked + {i}, i)) ==>
        q.assets == p.assets && q.disk == p.disk && q.pending == p.pending && q.status == p.status
    ensures var q := Visit(p, i, live, env);
      (!IsLive(live, p.objects[i].name) && !InUse(p.objects, p.marked + {i}, i)) ==>
        q == DropFile(p.(marked := p.marked + {i}), i, p.objects[i].fileIndex, env)
  {
  }

  /**
    The ledger and disk half of dropping a file. The asset is the first row
    under the ledger key of the removed index path; without one nothing
    changes. With more than one use its Uses goes down by one and nothing else
    changes. At the last use (Uses 0 or 1) the pass crashes exactly when
    there is no DDSpath and no list from an earlier release; otherwise the row
    is removed, the list becomes the bound list, every file the list names
    that is not locked is gone and nothing else on disk changes, and the pass
    returns early exactly when a named file exists but is locked.
  */
  lemma DropFileReleases(p: Pass, i: nat, r: int, env: Env)
    requires CompactIndex(p.files, p.numOfFiles, r).Some?
    requires p.status.Running?
    ensures var q := DropFile(p, i, r, env);
      var key := LedgerKey(env.kind, CompactIndex(p.files, p.numOfFiles, r).value.removedPath);
      FindAsset(p.assets, key).None? ==>
        q.assets == p.assets && q.disk == p.disk && q.pending == p.pending && q.status == Running
    ensures var q := DropFile(p, i, r, env);
      var key := LedgerKey(env.kind, CompactIndex(p.files, p.numOfFiles, r).value.removedPath);
      FindAsset(p.assets, key).Some? ==>
        var k := FindAsset(p.assets, key).value;
        var a := p.assets[k];
        && a.daePath == key
        && (a.uses != 0 && a.uses != 1 ==>
              && q.assets == p.assets[k := a.(uses := a.uses - 1)]
              && q.disk == p.disk && q.pending == p.pending && q.status == Running)
        && (a.uses == 0 || a.uses == 1 ==>
              && (q.status == Crashed(UnboundFileList) <==> a.ddsPath.None? && p.pending.None?)
              && (ReleaseList(a, p.pending).Some? ==>
                    var list := ReleaseList(a, p.pending).value;
                    && q.assets == p.assets[..k] + p.assets[k + 1..]
                    && q.pending == Some(list)
                    && q.disk.locked == p.disk.locked
                    && (forall f :: f in q.disk.present <==>
                          f in p.disk.present && (f in p.disk.locked || !Targeted(env.exportPath, list, f)))
                    && q.status == (if Undeletable(env.exportPath, p.disk, list) != [] then EarlyReturn(i) else Running)))
  {
  }

  /** One iteration keeps locked files and deletes only files that exist. */
  lemma VisitKeepsLocked(p: Pass, i: nat, live: seq<string>, env: Env)
    requires i < |p.objects|
    ensures DiskKept(p.disk, Visit(p, i, live, env).disk)
  {
    var e := p.objects[i];
    var p1 := p.(marked := p.marked + {i});
    if !IsLive(live, e.name) && !InUse(p1.objects, p1.marked, i) {
      var c := CompactIndex(p1.files, p1.numOfFiles, e.fileIndex);
      if c.Some? {
        var key := LedgerKey(env.kind, c.value.removedPath);
        if FindAsset(p1.assets, key).Some? {
          var k := FindAsset(p1.assets, key).value;
          var rel := ReleaseAsset(p1.assets, k, env.exportPath, p1.disk, p1.pending);
          if rel.Released? {
            assert Visit(p, i, live, env).disk == rel.disk;
          }
        }
      }
    }
  }

  /** So does the whole loop, however it ends. */
  lemma {:induction false} SweepKeepsLocked(p: Pass, i: nat, live: seq<string>, env: Env)
    ensures DiskKept(p.disk, Sweep(p, i, live, env).disk)
    decreases |p.objects| - i
  {
    if i < |p.objects| && p.status.Running? {
      var q := Visit(p, i, live, env);
      VisitKeepsLocked(p, i, live, env);
      SweepKeepsLocked(q, i + 1, live, env);
      DiskKeptTrans(p.disk, q.disk, Sweep(q, i + 1, live, env).disk);
    }
  }

  /** No index path other than path has the ledger key of path. */
  predicate KeyUnshared(files: seq<FileEntry>, kind: Kind, path: string) {
    forall m :: 0 <= m < |files| && files[m].path != path ==> LedgerKey(kind, files[m].path) != LedgerKey(kind, path)
  }

  /**
    A row still in the scene never shares the file the pass drops: its path
    is another index path, so the released asset has another key.
  */
  lemma DroppedPathIsNotLive(orig: Section, p: Pass, live: seq<string>, i: nat, j: nat)
    requires UniqueNames(orig.objects)
    requires i < |orig.objects| && j < |orig.objects|
    requires Inv(orig, p, live, i)
    requires !IsLive(live, orig.objects[i].name) && IsLive(live, orig.objects[j].name)
    requires !InUse(p.objects, p.marked + {i}, i)
    ensures orig.files[orig.objects[j].fileIndex].path != orig.files[orig.objects[i].fileIndex].path
  {
    assert i !in p.marked && j !in p.marked && j != i;
    var fi, fj := p.objects[i].fileIndex, p.objects[j].fileIndex;
    assert p.files[fi].path == orig.files[orig.objects[i].fileIndex].path;
    assert p.files[fj].path == orig.files[orig.objects[j].fileIndex].path;
    assert p.objects[j].name == orig.objects[j].name && p.objects[i].name == orig.objects[i].name;
    assert orig.objects[j].name != orig.objects[i].name;
    assert j !in p.marked + {i};
    if fi != fj {
      assert fi < fj || fj < fi;
    }
  }

  /**
    One iteration keeps the ledger row of the file of a row still in the
    scene, when no other index path shares its ledger key.
  */
  lemma VisitKeepsLiveAsset(orig: Section, p: Pass, live: seq<string>, i: nat, env: Env, j: nat)
    requires UniqueNames(orig.objects)
    requires i < |orig.objects| && j < |orig.objects|
    requires Inv(orig, p, live, i) && p.status.Running?
    requires IsLive(live, orig.objects[j].name)
    requires KeyUnshared(orig.files, env.kind, orig.files[orig.objects[j].fileIndex].path)
    ensures var x := LedgerKey(env.kind, orig.files[orig.objects[j].fileIndex].path);
      AssetAt(Visit(p, i, live, env).assets, x) == AssetAt(p.assets, x)
  {
    var e := p.objects[i];
    var p1 := p.(marked := p.marked + {i});
    assert e.name == orig.objects[i].name;
    if !IsLive(live, e.name) && !InUse(p1.objects, p1.marked, i) {
      assert i !in p.marked;
      var r := e.fileIndex;
      CompactKeepsIndex(p.files, p.numOfFiles, r);
      var removed := CompactIndex(p1.files, p1.numOfFiles, r).value.removedPath;
      assert removed == orig.files[orig.objects[i].fileIndex].path;
      var key := LedgerKey(env.kind, removed);
      if FindAsset(p.assets, key).Some? {
        var k := FindAsset(p.assets, key).value;
        var x := LedgerKey(env.kind, orig.files[orig.objects[j].fileIndex].path);
        DroppedPathIsNotLive(orig, p, live, i, j);
        assert key != x;
        ReleaseKeepsOtherKeys(p.assets, k, env.exportPath, p.disk, p.pending, x);
      }
    }
  }

  /** Where the loop stands while it keeps the ledger row of the live row j. */
  ghost predicate KeepsLiveAsset(orig: Section, p: Pass, live: seq<string>, i: nat, env: Env, j: nat) {
    && UniqueNames(orig.objects)
    && i <= |orig.objects| && j < |orig.objects|
    && Inv(orig, p, live, i) && p.status.Running?
    && IsLive(live, orig.objects[j].name)
    && KeyUnshared(orig.files, env.kind, orig.files[orig.objects[j].fileIndex].path)
  }

  /** One iteration, as the loop over the rows needs it. */
  lemma VisitStep(orig: Section, p: Pass, live: seq<string>, i: nat, env: Env, j: nat)
    requires KeepsLiveAsset(orig, p, live, i, env, j) && i < |orig.objects|
    ensures var q := Visit(p, i, live, env);
      var x := LedgerKey(env.kind, orig.files[orig.objects[j].fileIndex].path);
      && AssetAt(q.assets, x) == AssetAt(p.assets, x)
      && (q.status.Running? ==> KeepsLiveAsset(orig, q, live, i + 1, env, j))
  {
    VisitKeeps(orig, p, live, i, env);
    VisitKeepsLiveAsset(orig, p, live, i, env, j);
  }

  lemma {:induction false} SweepKeepsLiveAsset(orig: Section, p: Pass, live: seq<string>, i: nat, env: Env, j: nat)
    requires KeepsLiveAsset(orig, p, live, i, env, j)
    ensures var x := LedgerKey(env.kind, orig.files[orig.objects[j].fileIndex].path);
      AssetAt(Sweep(p, i, live, env).assets, x) == AssetAt(p.assets, x)
    decreases |orig.objects| - i
  {
    if i < |orig.objects| {
      VisitStep(orig, p, live, i, env, j);
      var q := Visit(p, i, live, env);
      if q.status.Running? {
        SweepKeepsLiveAsset(orig, q, live, i + 1, env, j);
      } else {
        assert Sweep(q, i + 1, live, env) == q;
      }
    }
  }

  /**
    What the whole pass does to the disk, whether it completes, returns early
    or crashes: a locked file is never removed and nothing appears on disk.
  */
  lemma SyncDeletionsKeepsLocked(s: Section, assets: seq<Asset>, d: Disk, live: seq<string>, env: Env)
    ensures var r := SyncDeletions(Some(s), assets, d, live, env);
      (r.Synced? || r.Stopped? || r.Failed?) ==>
        && r.disk.locked == d.locked
        && r.disk.present <= d.present
        && (forall f :: f in d.present && f in d.locked ==> f in r.disk.present)
  {
    var p0 := Pass(s.files, s.numOfFiles, s.objects, assets, d, {}, None, Running);
    SweepKeepsLocked(p0, 0, live, env);
    assert SyncDeletions(Some(s), assets, d, live, env).disk == Sweep(p0, 0, live, env).disk;
  }

  /**
    What the whole pass does to the ledger when it completes or returns
    early: the ledger row of the file of every row whose object is still in
    the scene is neither released nor decremented, when no other index path
    shares its ledger key (as always for static objects, whose key is the
    path itself).
  */
  lemma SyncDeletionsKeepsLiveAssets(s: Section, assets: seq<Asset>, d: Disk, live: seq<string>, env: Env)
    requires WellFormed(s, env.kind)
    ensures var r := SyncDeletions(Some(s), assets, d, live, env);
      (r.Synced? || r.Stopped?) ==>
        forall j :: 0 <= j < |s.objects| && IsLive(live, s.objects[j].name)
                    && KeyUnshared(s.files, env.kind, s.files[s.objects[j].fileIndex].path) ==>
          var key := LedgerKey(env.kind, s.files[s.objects[j].fileIndex].path);
          AssetAt(r.assets, key) == AssetAt(assets, key)
  {
    forall j | 0 <= j < |s.objects| && IsLive(live, s.objects[j].name)
               && KeyUnshared(s.files, env.kind, s.files[s.objects[j].fileIndex].path)
      ensures var key := LedgerKey(env.kind, s.files[s.objects[j].fileIndex].path);
        AssetAt(Sweep(Pass(s.files, s.numOfFiles, s.objects, assets, d, {}, None, Running), 0, live, env).assets, key)
        == AssetAt(assets, key)
    {
      PassKeepsLiveAsset(s, assets, d, live, env, j);
    }
  }

  /** The whole pass from its start, for one row still in the scene. */
  lemma PassKeepsLiveAsset(s: Section, assets: seq<Asset>, d: Disk, live: seq<string>, env: Env, j: nat)
    requires WellFormed(s, env.kind)
    requires j < |s.objects| && IsLive(live, s.objects[j].name)
    requires KeyUnshared(s.files, env.kind, s.files[s.objects[j].fileIndex].path)
    ensures var key := LedgerKey(env.kind, s.files[s.objects[j].fileIndex].path);
      AssetAt(Sweep(Pass(s.files, s.numOfFiles, s.objects, assets, d, {}, None, Running), 0, live, env).assets, key)
      == AssetAt(assets, key)
  {
    var p0 := Pass(s.files, s.numOfFiles, s.objects, assets, d, {}, None, Running);
    assert Inv(s, p0, live, 0);
    SweepKeepsLiveAsset(s, p0, live, 0, env, j);
  }

}
