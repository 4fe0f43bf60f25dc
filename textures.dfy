/**
  delete_unused_textures: the textures exported in this run are grouped by
  mesh; for each mesh the ledger lists, the textures it recorded before and no
  longer exports are deleted, those whose deletion failed are kept on the
  list, and the list becomes the mesh's new DDSpath.
*/
module Textures {

  import opened Options
  import opened Paths
  import opened Lists
  import opened Documents
  import opened Disk

  /** One entry of the mesh-to-textures dictionary, in insertion order. */
  datatype Group = Group(mesh: string, textures: seq<string>)

  function FindGroup(groups: seq<Group>, mesh: string): (r: Option<nat>)
    ensures r.Some? ==> r.value < |groups| && groups[r.value].mesh == mesh
    ensures r.None? ==> forall j :: 0 <= j < |groups| ==> groups[j].mesh != mesh
  {
    if groups == [] then None
    else if groups[0].mesh == mesh then Some(0)
    else match FindGroup(groups[1..], mesh)
      case None => None
      case Some(k) => Some(k + 1)
  }

  /** A new mesh opens a group; a texture already in the mesh's group is not added twice. */
  function AddTexture(groups: seq<Group>, mesh: string, texture: string): seq<Group> {
    match FindGroup(groups, mesh)
    case None => groups + [Group(mesh, [texture])]
    case Some(k) =>
      if texture in groups[k].textures then groups
      else groups[k := Group(mesh, groups[k].textures + [texture])]
  }

  /**
    The dictionary built from the (mesh path, texture path) pairs of the
    exported images, in export order, both paths with the data root stripped.
  */
  function Collect(exported: seq<(string, string)>): seq<Group> {
    if exported == [] then []
    else
      var last := exported[|exported| - 1];
      AddTexture(Collect(exported[..|exported| - 1]), StripSoma(last.0), StripSoma(last.1))
  }

  predicate GroupsValid(groups: seq<Group>) {
    && (forall i, j :: 0 <= i < j < |groups| ==> groups[i].mesh != groups[j].mesh)
    && (forall k :: 0 <= k < |groups| ==> groups[k].textures != [] && NoDups(groups[k].textures))
  }

  /** Some exported pair has this mesh and texture once stripped. */
  predicate Exported(exported: seq<(string, string)>, mesh: string, texture: string) {
    exists j :: 0 <= j < |exported| && StripSoma(exported[j].0) == mesh && StripSoma(exported[j].1) == texture
  }

  /** Adding one texture keeps the groups valid and adds exactly that texture to its mesh's group. */
  lemma AddTextureMeaning(groups: seq<Group>, mesh: string, texture: string)
    requires GroupsValid(groups)
    ensures var g := AddTexture(groups, mesh, texture);
      && GroupsValid(g)
      && |groups| <= |g|
      && (forall k :: 0 <= k < |groups| ==> g[k].mesh == groups[k].mesh)
      && (forall k :: |groups| <= k < |g| ==> g[k].mesh == mesh)
      && FindGroup(g, mesh).Some?
      && (forall k, x :: 0 <= k < |g| ==>
            (x in g[k].textures <==> (k < |groups| && x in groups[k].textures) || (g[k].mesh == mesh && x == texture)))
  {
    var g := AddTexture(groups, mesh, texture);
    match FindGroup(groups, mesh)
    case None =>
      assert g[|groups|].mesh == mesh;
      assert forall k :: 0 <= k < |groups| ==> g[k] == groups[k];
    case Some(k) =>
      assert g[k].mesh == mesh;
      if texture !in groups[k].textures {
        var ts := groups[k].textures + [texture];
        assert forall i :: 0 <= i < |groups[k].textures| ==> ts[i] == groups[k].textures[i];
      }
  }

  lemma ExportedSnoc(exported: seq<(string, string)>, mesh: string, x: string)
    requires exported != []
    ensures var init := exported[..|exported| - 1];
      var last := exported[|exported| - 1];
      Exported(exported, mesh, x) <==> Exported(init, mesh, x) || (StripSoma(last.0) == mesh && StripSoma(last.1) == x)
  {
    var init := exported[..|exported| - 1];
    if Exported(exported, mesh, x) {
      var j :| 0 <= j < |exported| && StripSoma(exported[j].0) == mesh && StripSoma(exported[j].1) == x;
      if j < |init| { assert init[j] == exported[j]; }
    }
    if Exported(init, mesh, x) {
      var j :| 0 <= j < |init| && StripSoma(init[j].0) == mesh && StripSoma(init[j].1) == x;
      assert init[j] == exported[j];
    }
  }

  /**
    One group per mesh, no texture twice in a group, a group for every exported
    mesh, and a group holds exactly the textures exported for its mesh.
  */
  lemma {:induction false} CollectMeaning(exported: seq<(string, string)>)
    ensures GroupsValid(Collect(exported))
    ensures forall k, t :: 0 <= k < |Collect(exported)| ==>
      (t in Collect(exported)[k].textures <==> Exported(exported, Collect(exported)[k].mesh, t))
    ensures forall j :: 0 <= j < |exported| ==> FindGroup(Collect(exported), StripSoma(exported[j].0)).Some?
    decreases |exported|
  {
    if exported != [] {
      var init := exported[..|exported| - 1];
      var last := exported[|exported| - 1];
      var m, t := StripSoma(last.0), StripSoma(last.1);
      CollectMeaning(init);
      var g := Collect(init);
      AddTextureMeaning(g, m, t);
      var g' := Collect(exported);
      forall k, x | 0 <= k < |g'| ensures x in g'[k].textures <==> Exported(exported, g'[k].mesh, x) {
        ExportedSnoc(exported, g'[k].mesh, x);
        if k >= |g| {
          forall j | 0 <= j < |init| ensures StripSoma(init[j].0) != m {
            var kk := FindGroup(g, StripSoma(init[j].0)).value;
            assert g'[kk].mesh != g'[k].mesh;
          }
        }
      }
      forall j | 0 <= j < |exported| ensures FindGroup(g', StripSoma(exported[j].0)).Some? {
        if j < |init| {
          assert init[j] == exported[j];
          var k := FindGroup(g, StripSoma(init[j].0)).value;
          assert g'[k].mesh == StripSoma(exported[j].0);
        }
      }
    }
  }

  /** The state of one group's diff: the list being kept and the disk. */
  datatype Pruned = Pruned(keep: seq<string>, disk: Disk)

  /**
    The loop over a mesh's previous textures, from position i on: a texture
    matching a kept one case-insensitively is left alone; any other is deleted,
    and appended to the kept list when its deletion failed.
  */
  function PruneFrom(keep: seq<string>, previous: seq<string>, i: nat, exportPath: string, d: Disk): Pruned
    requires i <= |previous|
    decreases |previous| - i
  {
    if i == |previous| then Pruned(keep, d)
    else
      var t := previous[i];
      if InFolded(t, keep) then PruneFrom(keep, previous, i + 1, exportPath, d)
      else
        var (err, d1) := DeleteByShortname(exportPath, d, t);
        PruneFrom(if err == 1 then keep + [t] else keep, previous, i + 1, exportPath, d1)
  }

  /** A name not on the list, even up to case, can be appended without making a duplicate. */
  lemma AppendUnlistedKeepsNoDups(keep: seq<string>, t: string)
    requires NoDups(keep)
    requires !InFolded(t, keep)
    ensures NoDups(keep + [t])
  {
    forall k | 0 <= k < |keep| ensures keep[k] != t {
      assert !SameFolded(t, keep[k]);
    }
  }

  /**
    The kept list only grows at its end and stays free of duplicates, and the
    diff removes files but never a locked one.
  */
  lemma {:induction false} PruneKeeps(keep: seq<string>, previous: seq<string>, i: nat, exportPath: string, d: Disk)
    requires i <= |previous|
    requires NoDups(keep)
    ensures var r := PruneFrom(keep, previous, i, exportPath, d);
      && |keep| <= |r.keep| && r.keep[..|keep|] == keep
      && NoDups(r.keep)
      && DiskKept(d, r.disk)
    decreases |previous| - i
  {
    if i < |previous| {
      var t := previous[i];
      if InFolded(t, keep) {
        PruneKeeps(keep, previous, i + 1, exportPath, d);
      } else {
        var (err, d1) := DeleteByShortname(exportPath, d, t);
        var keep1 := if err == 1 then keep + [t] else keep;
        if err == 1 {
          AppendUnlistedKeepsNoDups(keep, t);
        }
        PruneKeeps(keep1, previous, i + 1, exportPath, d1);
        var r := PruneFrom(keep1, previous, i + 1, exportPath, d1);
        assert keep1[..|keep|] == keep;
        assert r.keep[..|keep|] == r.keep[..|keep1|][..|keep|];
      }
    }
  }

  /** A previous texture is still listed (up to case), or is empty, or its file is gone. */
  predicate Covered(t: string, exportPath: string, r: Pruned) {
    InFolded(t, r.keep) || t == "" || FullPath(exportPath, t) !in r.disk.present
  }

  /** Every previous texture is Covered once the diff is done. */
  lemma PruneCovers(keep: seq<string>, previous: seq<string>, i: nat, exportPath: string, d: Disk)
    requires i <= |previous|
    requires NoDups(keep)
    ensures var r := PruneFrom(keep, previous, i, exportPath, d);
      forall j :: i <= j < |previous| ==> Covered(previous[j], exportPath, r)
  {
    forall j | i <= j < |previous| ensures Covered(previous[j], exportPath, PruneFrom(keep, previous, i, exportPath, d)) {
      PruneCoversAt(keep, previous, i, j, exportPath, d);
    }
  }

  /** The same for one previous texture, by induction on the position the diff has reached. */
  lemma {:induction false} PruneCoversAt(keep: seq<string>, previous: seq<string>, i: nat, j: nat, exportPath: string, d: Disk)
    requires i <= j < |previous|
    requires NoDups(keep)
    ensures Covered(previous[j], exportPath, PruneFrom(keep, previous, i, exportPath, d))
    decreases |previous| - i
  {
    var t := previous[i];
    var r := PruneFrom(keep, previous, i, exportPath, d);
    if InFolded(t, keep) {
      assert r == PruneFrom(keep, previous, i + 1, exportPath, d);
      if j == i {
        PruneKeeps(keep, previous, i + 1, exportPath, d);
        InFoldedGrows(t, keep, r.keep);
      } else {
        PruneCoversAt(keep, previous, i + 1, j, exportPath, d);
      }
    } else {
      var (err, d1) := DeleteByShortname(exportPath, d, t);
      var keep1 := if err == 1 then keep + [t] else keep;
      if err == 1 {
        AppendUnlistedKeepsNoDups(keep, t);
      }
      assert r == PruneFrom(keep1, previous, i + 1, exportPath, d1);
      if j == i {
        PruneKeeps(keep1, previous, i + 1, exportPath, d1);
        if err == 1 {
          assert keep1[|keep|] == t;
          InFoldedGrows(t, keep1, r.keep);
        } else {
          assert t == "" || FullPath(exportPath, t) !in d1.present;
        }
      } else {
        PruneCoversAt(keep1, previous, i + 1, j, exportPath, d1);
      }
    }
  }

  /**
    A previous texture whose deletion failed: it is not on the list it was
    checked against (up to case), it is named, and its file exists but cannot
    be removed.
  */
  predicate FailedDeletion(t: string, keep: seq<string>, previous: seq<string>, exportPath: string, d: Disk) {
    && t in previous && t != "" && !InFolded(t, keep)
    && FullPath(exportPath, t) in d.present && FullPath(exportPath, t) in d.locked
  }

  /** Every name the diff appends to the kept list is a previous texture whose deletion failed. */
  lemma PruneAppendsOnlyFailed(keep: seq<string>, previous: seq<string>, i: nat, exportPath: string, d: Disk)
    requires i <= |previous|
    requires NoDups(keep)
    ensures var r := PruneFrom(keep, previous, i, exportPath, d);
      forall m :: |keep| <= m < |r.keep| ==> FailedDeletion(r.keep[m], keep, previous, exportPath, d)
  {
    var r := PruneFrom(keep, previous, i, exportPath, d);
    forall m | |keep| <= m < |r.keep| ensures FailedDeletion(r.keep[m], keep, previous, exportPath, d) {
      PruneAppendedAt(keep, previous, i, m, exportPath, d);
    }
  }

  /** The same for one appended position, by induction on the position the diff has reached. */
  lemma {:induction false} PruneAppendedAt(keep: seq<string>, previous: seq<string>, i: nat, m: nat, exportPath: string, d: Disk)
    requires i <= |previous|
    requires NoDups(keep)
    requires |keep| <= m < |PruneFrom(keep, previous, i, exportPath, d).keep|
    ensures FailedDeletion(PruneFrom(keep, previous, i, exportPath, d).keep[m], keep, previous, exportPath, d)
    decreases |previous| - i
  {
    if i < |previous| {
      var t := previous[i];
      var r := PruneFrom(keep, previous, i, exportPath, d);
      if InFolded(t, keep) {
        assert r == PruneFrom(keep, previous, i + 1, exportPath, d);
        PruneAppendedAt(keep, previous, i + 1, m, exportPath, d);
      } else {
        var (err, d1) := DeleteByShortname(exportPath, d, t);
        var keep1 := if err == 1 then keep + [t] else keep;
        if err == 1 {
          AppendUnlistedKeepsNoDups(keep, t);
        }
        assert r == PruneFrom(keep1, previous, i + 1, exportPath, d1);
        PruneKeeps(keep1, previous, i + 1, exportPath, d1);
        if m < |keep1| {
          assert r.keep[m] == keep1[m];
        } else {
          PruneAppendedAt(keep1, previous, i + 1, m, exportPath, d1);
          FailedEarlier(r.keep[m], keep, keep1, previous, exportPath, d, d1);
        }
      }
    }
  }

  /** A failure against a longer list and a later disk is a failure against the shorter list and the earlier disk. */
  lemma FailedEarlier(t: string, keep: seq<string>, keep1: seq<string>, previous: seq<string>,
                      exportPath: string, d: Disk, d1: Disk)
    requires |keep| <= |keep1| && keep1[..|keep|] == keep
    requires d1.locked == d.locked && d1.present <= d.present
    requires FailedDeletion(t, keep1, previous, exportPath, d1)
    ensures FailedDeletion(t, keep, previous, exportPath, d)
  {
    InFoldedPrefix(t, keep, keep1);
  }

  /** Only files of previous textures that are not on the exported list (up to case) are removed. */
  lemma {:induction false} PruneOnlyStale(keep: seq<string>, previous: seq<string>, i: nat, exportPath: string, d: Disk)
    requires i <= |previous|
    requires NoDups(keep)
    ensures var r := PruneFrom(keep, previous, i, exportPath, d);
      forall p :: p in d.present && p !in r.disk.present ==>
        exists j :: i <= j < |previous| && previous[j] != "" && !InFolded(previous[j], keep)
                    && FullPath(exportPath, previous[j]) == p
    decreases |previous| - i
  {
    if i < |previous| {
      var t := previous[i];
      var r := PruneFrom(keep, previous, i, exportPath, d);
      if InFolded(t, keep) {
        PruneOnlyStale(keep, previous, i + 1, exportPath, d);
      } else {
        var (err, d1) := DeleteByShortname(exportPath, d, t);
        var keep1 := if err == 1 then keep + [t] else keep;
        if err == 1 {
          AppendUnlistedKeepsNoDups(keep, t);
        }
        PruneOnlyStale(keep1, previous, i + 1, exportPath, d1);
        assert keep1[..|keep|] == keep;
        forall p | p in d.present && p !in r.disk.present
          ensures exists j :: i <= j < |previous| && previous[j] != "" && !InFolded(previous[j], keep)
                              && FullPath(exportPath, previous[j]) == p
        {
          if p in d1.present {
            var j :| i + 1 <= j < |previous| && previous[j] != "" && !InFolded(previous[j], keep1)
                     && FullPath(exportPath, previous[j]) == p;
            InFoldedPrefix(previous[j], keep, keep1);
          } else {
            assert previous[i] != "" && FullPath(exportPath, previous[i]) == p;
          }
        }
      }
    }
  }

  lemma InFoldedGrows(x: string, a: seq<string>, b: seq<string>)
    requires |a| <= |b| && b[..|a|] == a
    requires InFolded(x, a)
    ensures InFolded(x, b)
  {
    var k :| 0 <= k < |a| && SameFolded(x, a[k]);
    assert b[k] == a[k];
  }

  lemma InFoldedPrefix(x: string, a: seq<string>, b: seq<string>)
    requires |a| <= |b| && b[..|a|] == a
    requires !InFolded(x, b)
    ensures !InFolded(x, a)
  {
    forall k | 0 <= k < |a| ensures !SameFolded(x, a[k]) {
      assert a[k] == b[k];
    }
  }

  /** The LAST asset whose DAEpath equals the mesh path case-insensitively. */
  function LastFoldedMatch(assets: seq<Asset>, mesh: string): (r: Option<nat>)
    ensures r.Some? ==> r.value < |assets| && SameFolded(assets[r.value].daePath, mesh)
    ensures r.Some? ==> forall j :: r.value < j < |assets| ==> !SameFolded(assets[j].daePath, mesh)
    ensures r.None? ==> forall j :: 0 <= j < |assets| ==> !SameFolded(assets[j].daePath, mesh)
  {
    if assets == [] then None
    else if SameFolded(assets[|assets| - 1].daePath, mesh) then Some(|assets| - 1)
    else LastFoldedMatch(assets[..|assets| - 1], mesh)
  }

  datatype Diffed = Diffed(assets: seq<Asset>, disk: Disk)

  /**
    One group of the diff: the matching asset's previous DDSpath is pruned
    against the group's textures and replaced by the ';'-join of the kept
    list (also when the asset had no DDSpath yet).
  */
  function DiffGroup(g: Group, assets: seq<Asset>, exportPath: string, d: Disk): (r: Diffed)
    ensures |r.assets| == |assets|
    ensures forall k :: 0 <= k < |assets| ==>
      r.assets[k].daePath == assets[k].daePath && r.assets[k].uses == assets[k].uses
  {
    match LastFoldedMatch(assets, g.mesh)
    case None => Diffed(assets, d)
    case Some(k) =>
      var pr := if assets[k].ddsPath.Some? then PruneFrom(g.textures, Split(assets[k].ddsPath.value), 0, exportPath, d)
                else Pruned(g.textures, d);
      Diffed(assets[k := assets[k].(ddsPath := Some(Join(pr.keep)))], pr.disk)
  }

  /** The diff over every group, in dictionary order. */
  function DiffFrom(groups: seq<Group>, i: nat, assets: seq<Asset>, exportPath: string, d: Disk): Diffed
    requires i <= |groups|
    decreases |groups| - i
  {
    if i == |groups| then Diffed(assets, d)
    else
      var r := DiffGroup(groups[i], assets, exportPath, d);
      DiffFrom(groups, i + 1, r.assets, exportPath, r.disk)
  }

  /** delete_unused_textures */
  function DeleteUnusedTextures(exported: seq<(string, string)>, assets: seq<Asset>, exportPath: string, d: Disk): Diffed {
    DiffFrom(Collect(exported), 0, assets, exportPath, d)
  }

  /** The textures an asset recorded before this export: its DDSpath split at ';', or none. */
  function Previous(a: Asset): seq<string> {
    if a.ddsPath.Some? then Split(a.ddsPath.value) else []
  }

  /**
    What a mesh's new texture list is: duplicate-free, the exported textures
    first, after them only previous textures whose deletion failed, every
    failed deletion on it (up to case), and every previous texture either on
    it (up to case), empty, or gone from disk.
  */
  ghost predicate KeptList(exported: seq<string>, previous: seq<string>, exportPath: string, d: Disk, d': Disk, keep: seq<string>) {
    && NoDups(keep)
    && |exported| <= |keep| && keep[..|exported|] == exported
    && (forall m :: |exported| <= m < |keep| ==> FailedDeletion(keep[m], exported, previous, exportPath, d))
    && (forall t :: FailedDeletion(t, exported, previous, exportPath, d) ==> InFolded(t, keep))
    && (forall j :: 0 <= j < |previous| ==> Covered(previous[j], exportPath, Pruned(keep, d')))
  }

  /**
    One group's diff: without a matching asset nothing changes; otherwise only
    the LAST asset matching the mesh (up to case) changes, and only its DDSpath,
    which becomes the ';'-join of the mesh's new texture list. Files are only
    removed, never a locked one, and only files of previous textures of that
    asset that are not exported any more (up to case).
  */
  lemma DiffGroupMeaning(g: Group, assets: seq<Asset>, exportPath: string, d: Disk)
    requires NoDups(g.textures)
    ensures var r := DiffGroup(g, assets, exportPath, d);
      && DiskKept(d, r.disk)
      && (LastFoldedMatch(assets, g.mesh).None? ==> r == Diffed(assets, d))
    ensures var r := DiffGroup(g, assets, exportPath, d);
      LastFoldedMatch(assets, g.mesh).Some? ==>
        var k := LastFoldedMatch(assets, g.mesh).value;
        && (exists keep :: KeptList(g.textures, Previous(assets[k]), exportPath, d, r.disk, keep)
                           && r.assets == assets[k := assets[k].(ddsPath := Some(Join(keep)))])
        && (forall p :: p in d.present && p !in r.disk.present ==>
              exists t :: t in Previous(assets[k]) && t != "" && !InFolded(t, g.textures) && FullPath(exportPath, t) == p)
  {
    match LastFoldedMatch(assets, g.mesh)
    case None =>
    case Some(k) =>
      var r := DiffGroup(g, assets, exportPath, d);
      var previous := Previous(assets[k]);
      if assets[k].ddsPath.Some? {
        PruneKeeps(g.textures, previous, 0, exportPath, d);
        PruneCovers(g.textures, previous, 0, exportPath, d);
        PruneAppendsOnlyFailed(g.textures, previous, 0, exportPath, d);
        PruneOnlyStale(g.textures, previous, 0, exportPath, d);
        var pr := PruneFrom(g.textures, previous, 0, exportPath, d);
        forall t | FailedDeletion(t, g.textures, previous, exportPath, d) ensures InFolded(t, pr.keep) {
          var j :| 0 <= j < |previous| && previous[j] == t;
          assert Covered(previous[j], exportPath, pr);
        }
        assert KeptList(g.textures, previous, exportPath, d, r.disk, pr.keep);
        forall p | p in d.present && p !in r.disk.present
          ensures exists t :: t in previous && t != "" && !InFolded(t, g.textures) && FullPath(exportPath, t) == p
        {
          var j :| 0 <= j < |previous| && previous[j] != "" && !InFolded(previous[j], g.textures)
                   && FullPath(exportPath, previous[j]) == p;
          assert previous[j] in previous;
        }
      } else {
        assert g.textures[..|g.textures|] == g.textures;
        assert KeptList(g.textures, previous, exportPath, d, r.disk, g.textures);
      }
  }

  /**
    The diff from group i on leaves the ledger's rows, keys and use counts as
    they were and never removes a locked file.
  */
  lemma {:induction false} DiffFromMeaning(groups: seq<Group>, i: nat, assets: seq<Asset>, exportPath: string, d: Disk)
    requires i <= |groups|
    requires GroupsValid(groups)
    ensures var r := DiffFrom(groups, i, assets, exportPath, d);
      && |r.assets| == |assets|
      && (forall k :: 0 <= k < |assets| ==> r.assets[k].daePath == assets[k].daePath && r.assets[k].uses == assets[k].uses)
      && DiskKept(d, r.disk)
    decreases |groups| - i
  {
    if i < |groups| {
      var r1 := DiffGroup(groups[i], assets, exportPath, d);
      DiffGroupMeaning(groups[i], assets, exportPath, d);
      DiffFromMeaning(groups, i + 1, r1.assets, exportPath, r1.disk);
    }
  }

  /**
    delete_unused_textures as a whole: the ledger keeps its rows, keys and
    use counts, only DDSpath values change, and files are only ever removed,
    never a locked one.
  */
  lemma DeleteUnusedTexturesKeepsLedger(exported: seq<(string, string)>, assets: seq<Asset>, exportPath: string, d: Disk)
    ensures var r := DeleteUnusedTextures(exported, assets, exportPath, d);
      && |r.assets| == |assets|
      && (forall k :: 0 <= k < |assets| ==> r.assets[k].daePath == assets[k].daePath && r.assets[k].uses == assets[k].uses)
      && DiskKept(d, r.disk)
  {
    CollectMeaning(exported);
    DiffFromMeaning(Collect(exported), 0, assets, exportPath, d);
  }

}
