/**
  The export operator's incremental bookkeeping, as the operator runs it: it
  holds the map's Blender@HPL3EXPORT section (its file index and its Objects
  list), the asset ledger with the position of the current asset, and the
  files on disk, and its methods walk and update these lists in place. Each
  method is proved to leave exactly the state the value-level definition of
  its operation describes; what those definitions promise is proved next to
  them.
*/
module Export {

  import opened Options
  import opened Documents
  import Names
  import Paths
  import Lists
  import Disk
  import MapIndex
  import Ledger
  import Registry
  import Textures
  import Reconcile

  /** The scene-object loop of sync_blender_deletions: does some object's sanitised name equal the row's Name? */
  method SceneHas(live: seq<string>, name: string) returns (b: bool)
    ensures b == Reconcile.IsLive(live, name)
  {
    var k := 0;
    while k < |live|
      invariant 0 <= k <= |live|
      invariant forall j :: 0 <= j < k ==> Names.Sanitize(live[j]) != name
    {
      if Names.Sanitize(live[k]) == name {
        return true;
      }
      k := k + 1;
    }
    return false;
  }

  /** The loop over a kept texture list: does some entry equal x up to case? */
  method ListedFolded(x: string, list: seq<string>) returns (b: bool)
    ensures b == Lists.InFolded(x, list)
  {
    b := false;
    for k := 0 to |list|
      invariant b <==> exists j :: 0 <= j < k && Lists.SameFolded(x, list[j])
    {
      if Lists.Lower(x) == Lists.Lower(list[k]) {
        b := true;
      }
    }
  }

  /**
    The first loop of delete_unused_textures: the exported (mesh, texture)
    pairs are stripped of the data root and gathered per mesh, in order.
  */
  method CollectGroups(exported: seq<(string, string)>) returns (groups: seq<Textures.Group>)
    ensures groups == Textures.Collect(exported)
  {
    groups := [];
    for i := 0 to |exported|
      invariant groups == Textures.Collect(exported[..i])
    {
      var mesh := Paths.StripSoma(exported[i].0);
      var texture := Paths.StripSoma(exported[i].1);
      assert exported[..i + 1][..i] == exported[..i];
      match Textures.FindGroup(groups, mesh)
      case None =>
        groups := groups + [Textures.Group(mesh, [texture])];
      case Some(k) =>
        if texture !in groups[k].textures {
          groups := groups[k := Textures.Group(mesh, groups[k].textures + [texture])];
        }
    }
    assert exported[..|exported|] == exported;
  }

  class Exporter {

    /** Entities (.ent) or static objects (.dae). */
    const kind: Kind
    /** MULTI mode: each object exports its own mesh. */
    const multi: bool
    /** The mesh export directory. */
    const exportPath: string

    var hasSection: bool
    var files: seq<FileEntry>
    var numOfFiles: int
    var objects: seq<MapObject>
    var assets: seq<Asset>
    var current: nat
    var disk: Disk.Disk

    function Environment(): Env {
      Env(kind, multi, exportPath)
    }

    /** The map section, when the map has one. */
    function MapSection(): Option<Section>
      reads this
    {
      if hasSection then Some(Section(files, numOfFiles, objects)) else None
    }

    /** The state of the deletion pass, seen as the value its definition walks. */
    function PassOf(marked: set<nat>, pending: Option<seq<string>>, status: Reconcile.Status): Reconcile.Pass
      reads this
    {
      Reconcile.Pass(files, numOfFiles, objects, assets, disk, marked, pending, status)
    }

    constructor (kind: Kind, multi: bool, exportPath: string, section: Option<Section>,
                 assets: seq<Asset>, disk: Disk.Disk)
      ensures this.kind == kind && this.multi == multi && this.exportPath == exportPath
      ensures MapSection() == section && this.assets == assets && this.disk == disk && current == 0
    {
      this.kind := kind;
      this.multi := multi;
      this.exportPath := exportPath;
      this.assets := assets;
      this.disk := disk;
      current := 0;
      match section
      case None =>
        hasSection, files, numOfFiles, objects := false, [], 0, [];
      case Some(s) =>
        hasSection, files, numOfFiles, objects := true, s.files, s.numOfFiles, s.objects;
    }

    // ----------------------------------------------------------------------
    //  The ledger
    // ----------------------------------------------------------------------

    /** The loop over the Asset rows: the first row whose DAEpath is the key. */
    method FindAssetRow(key: string) returns (r: Option<nat>)
      ensures r == Ledger.FindAsset(assets, key)
    {
      var i := 0;
      while i < |assets|
        invariant 0 <= i <= |assets|
        invariant forall j :: 0 <= j < i ==> assets[j].daePath != key
      {
        if assets[i].daePath == key {
          return Some(i);
        }
        i := i + 1;
      }
      return None;
    }

    /** get_asset_xml_entry: the mesh's row becomes current, appended with Uses 0 when missing. */
    method GetAssetXmlEntry(meshName: string)
      modifies this`assets, this`current
      ensures var e := Ledger.GetAssetEntry(old(assets), exportPath, meshName);
        assets == e.assets && current == e.current
    {
      var key := Ledger.MeshKey(exportPath, meshName);
      var found := FindAssetRow(key);
      match found
      case Some(k) =>
        current := k;
      case None =>
        current := |assets|;
        assets := assets + [Asset(key, 0, None)];
    }

    // ----------------------------------------------------------------------
    //  add_object
    // ----------------------------------------------------------------------

    /**
      The loop over the File rows: the first row with the path, and the last
      row visited (the last row of the index when the path is not there).
    */
    method FindFileRow(path: string) returns (r: Option<nat>, last: Option<FileEntry>)
      ensures r == MapIndex.FindPath(files, path)
      ensures r.None? ==> last == if files == [] then None else Some(files[|files| - 1])
    {
      last := None;
      var i := 0;
      while i < |files|
        invariant 0 <= i <= |files|
        invariant forall j :: 0 <= j < i ==> files[j].path != path
        invariant last == if i == 0 then None else Some(files[i - 1])
      {
        last := Some(files[i]);
        if files[i].path == path {
          return Some(i), last;
        }
        i := i + 1;
      }
      return None, last;
    }

    /** The loop over the rows of one kind: the first one with the given Name. */
    method FindObjectRow(name: string) returns (r: Option<nat>)
      ensures r == Registry.FindObject(objects, kind, name)
    {
      var i := 0;
      while i < |objects|
        invariant 0 <= i <= |objects|
        invariant forall j :: 0 <= j < i ==> !(objects[j].kind == kind && objects[j].name == name)
      {
        if objects[i].kind == kind && objects[i].name == name {
          return Some(i);
        }
        i := i + 1;
      }
      return None;
    }

    /**
      The file-index half of add_object: the Id of the path's File row, or a
      new row with the Id after the last row's; a new row adds a use to the
      current asset in MULTI mode.
    */
    method IndexFile(path: string) returns (id: int)
      requires multi ==> current < |assets|
      modifies this`files, this`numOfFiles, this`assets
      ensures var lk := MapIndex.ResolveFile(old(files), old(numOfFiles), path);
        && files == lk.files && numOfFiles == lk.numOfFiles && id == lk.id
        && assets == if lk.created && multi then Ledger.AddUse(old(assets), current) else old(assets)
    {
      var found, last := FindFileRow(path);
      if found.Some? {
        id := files[found.value].id;
      } else {
        id := if last.None? then 0 else last.value.id + 1;
        files := files + [FileEntry(id, path)];
        numOfFiles := numOfFiles + 1;
        if multi {
          assets := assets[current := assets[current].(uses := assets[current].uses + 1)];
        }
      }
    }

    /**
      The registry half of add_object: the row of the object's kind with its
      Name is updated in place, or a new row with the ID after the last row's
      is appended. Returns the row's previous ModStamp, or 0.
    */
    method UpsertRow(name: string, id: int, now: int, placement: Placement, f: Registry.Flags)
      returns (oldModTime: int)
      modifies this`objects
      ensures var up := Registry.Upsert(old(objects), kind, name, id, now, placement, f);
        objects == up.objects && oldModTime == up.oldModTime
    {
      var lastId := if objects == [] then (if kind == Entity then Registry.EntityBaseId else Registry.StaticBaseId)
                    else objects[|objects| - 1].id + 1;
      var row := FindObjectRow(name);
      match row
      case Some(k) =>
        var o := objects[k];
        oldModTime := Registry.PreviousStamp(o.modStamp);
        objects := objects[k := o.(name := name, modStamp := Stamp(now), placement := placement, fileIndex := id,
                                   attrs := o.attrs + Registry.FlagAttributes(kind, f),
                                   userVars := Registry.UserVarsAfter(kind, f, o.userVars))];
      case None =>
        oldModTime := 0;
        objects := objects + [MapObject(kind, name, lastId, now, Stamp(now), placement, id,
                                        Registry.FlagAttributes(kind, f), Registry.UserVarsAfter(kind, f, map[]))];
    }

    /**
      add_object: a missing section is created empty, the mesh's path is
      indexed, and the object's row is upserted under its sanitised name.
    */
    method AddObject(objectName: string, meshName: string, now: int, placement: Placement, f: Registry.Flags)
      returns (oldModTime: int)
      requires multi ==> current < |assets|
      modifies this`hasSection, this`files, this`numOfFiles, this`objects, this`assets
      ensures var r := Registry.AddObject(old(MapSection()), old(assets), current, Environment(),
                                          objectName, meshName, now, placement, f);
        && MapSection() == Some(r.section) && assets == r.assets && oldModTime == r.oldModTime
    {
      if !hasSection {
        hasSection, files, numOfFiles, objects := true, [], 0, [];
      }
      var id := IndexFile(Registry.IndexPath(Environment(), meshName));
      oldModTime := UpsertRow(Names.Sanitize(objectName), id, now, placement, f);
    }

    // ----------------------------------------------------------------------
    //  Deleting files
    // ----------------------------------------------------------------------

    /** delete_by_shortname: 1 when the file exists and cannot be removed, else 0. */
    method DeleteByShortname(shortName: string) returns (error: int)
      modifies this`disk
      ensures (error, disk) == Disk.DeleteByShortname(exportPath, old(disk), shortName)
    {
      error := 0;
      if shortName != "" {
        var path := Paths.SomaRoot(exportPath) + shortName;
        if path in disk.present {
          if path in disk.locked {
            error := 1;
          } else {
            disk := disk.(present := disk.present - {path});
          }
        }
      }
    }

    /** delete_assets: every name is deleted in turn; the failures are returned in order. */
    method DeleteAssets(names: seq<string>) returns (leftovers: seq<string>)
      modifies this`disk
      ensures (leftovers, disk) == Disk.DeleteAssets(exportPath, old(disk), names)
    {
      ghost var total := Disk.DeleteAssets(exportPath, disk, names);
      leftovers := [];
      assert names[0..] == names;
      for i := 0 to |names|
        invariant leftovers + Disk.DeleteAssets(exportPath, disk, names[i..]).0 == total.0
        invariant Disk.DeleteAssets(exportPath, disk, names[i..]).1 == total.1
      {
        ghost var before := disk;
        assert names[i..][0] == names[i] && names[i..][1..] == names[i + 1..];
        var error := DeleteByShortname(names[i]);
        ghost var rest := Disk.DeleteAssets(exportPath, disk, names[i + 1..]);
        assert Disk.DeleteAssets(exportPath, before, names[i..])
               == (if error == 1 then [names[i]] + rest.0 else rest.0, rest.1);
        if error == 1 {
          leftovers := leftovers + [names[i]];
        }
      }
      assert names[|names|..] == [];
      assert leftovers + [] == leftovers;
    }

    // ----------------------------------------------------------------------
    //  delete_unused_textures
    // ----------------------------------------------------------------------

    /** The loop over the Asset rows without a break: the LAST row matching up to case. */
    method LastMatchingAsset(mesh: string) returns (r: Option<nat>)
      ensures r == Textures.LastFoldedMatch(assets, mesh)
    {
      r := None;
      for i := 0 to |assets|
        invariant r == Textures.LastFoldedMatch(assets[..i], mesh)
      {
        assert assets[..i + 1][..i] == assets[..i];
        if Lists.Lower(mesh) == Lists.Lower(assets[i].daePath) {
          r := Some(i);
        }
      }
      assert assets[..|assets|] == assets;
    }

    /**
      The loop over a mesh's previous textures: one not in the kept list (up
      to case) is deleted, and kept when its deletion failed.
    */
    method Prune(keep0: seq<string>, previous: seq<string>) returns (keep: seq<string>)
      modifies this`disk
      ensures Textures.Pruned(keep, disk) == Textures.PruneFrom(keep0, previous, 0, exportPath, old(disk))
    {
      keep := keep0;
      for i := 0 to |previous|
        invariant Textures.PruneFrom(keep, previous, i, exportPath, disk)
                  == Textures.PruneFrom(keep0, previous, 0, exportPath, old(disk))
      {
        var t := previous[i];
        var listed := ListedFolded(t, keep);
        if !listed {
          var error := DeleteByShortname(t);
          if error == 1 {
            keep := keep + [t];
          }
        }
      }
    }

    /** One mesh of the dictionary: its asset's DDSpath is pruned and rewritten. */
    method DiffGroup(g: Textures.Group)
      modifies this`assets, this`disk
      ensures Textures.Diffed(assets, disk) == Textures.DiffGroup(g, old(assets), exportPath, old(disk))
    {
      var m := LastMatchingAsset(g.mesh);
      if m.Some? {
        var k := m.value;
        var keep := g.textures;
        if assets[k].ddsPath.Some? {
          keep := Prune(g.textures, Lists.Split(assets[k].ddsPath.value));
        }
        assets := assets[k := assets[k].(ddsPath := Some(Lists.Join(keep)))];
      }
    }

    /** delete_unused_textures for the (mesh, texture) pairs exported in this run. */
    method DeleteUnusedTextures(exported: seq<(string, string)>)
      modifies this`assets, this`disk
      ensures Textures.Diffed(assets, disk) == Textures.DeleteUnusedTextures(exported, old(assets), exportPath, old(disk))
    {
      var groups := CollectGroups(exported);
      for i := 0 to |groups|
        invariant Textures.DiffFrom(groups, i, assets, exportPath, disk)
                  == Textures.DiffFrom(groups, 0, old(assets), exportPath, old(disk))
      {
        DiffGroup(groups[i]);
      }
    }

    // ----------------------------------------------------------------------
    //  sync_blender_deletions
    // ----------------------------------------------------------------------

    /** The loop looking for another unmarked row with a different Name on the same FileIndex. */
    method FileInUse(i: nat, marked: set<nat>) returns (b: bool)
      requires i < |objects|
      ensures b == Reconcile.InUse(objects, marked, i)
    {
      var k := 0;
      while k < |objects|
        invariant 0 <= k <= |objects|
        invariant forall j :: 0 <= j < k ==>
          !(objects[j].fileIndex == objects[i].fileIndex && objects[j].name != objects[i].name && j !in marked)
      {
        if objects[k].fileIndex == objects[i].fileIndex && objects[k].name != objects[i].name && k !in marked {
          return true;
        }
        k := k + 1;
      }
      return false;
    }

    /**
      The index half of dropping a file: NumOfFiles goes down, the loop over
      the File rows shifts the ids above the removed one and remembers the last
      row with that Id, which is then removed. None when there is no such row.
    */
    method RemoveFileRow(removed: int) returns (path: Option<string>)
      modifies this`files, this`numOfFiles
      ensures numOfFiles == old(numOfFiles) - 1
      ensures var c := MapIndex.CompactIndex(old(files), old(numOfFiles), removed);
        && (path.None? <==> c.None?)
        && (c.None? ==> files == MapIndex.ShiftIds(old(files), removed))
        && (c.Some? ==> files == c.value.files && path == Some(c.value.removedPath))
    {
      numOfFiles := numOfFiles - 1;
      var remove: Option<nat> := None;
      for i := 0 to |files|
        invariant |files| == |old(files)| && numOfFiles == old(numOfFiles) - 1
        invariant forall j :: 0 <= j < i ==> files[j] == MapIndex.ShiftIds(old(files), removed)[j]
        invariant forall j :: i <= j < |files| ==> files[j] == old(files)[j]
        invariant remove == MapIndex.LastWithId(old(files)[..i], removed)
      {
        assert old(files)[..i + 1][..i] == old(files)[..i];
        if files[i].id == removed {
          remove := Some(i);
        } else if files[i].id > removed {
          files := files[i := files[i].(id := files[i].id - 1)];
        }
      }
      assert files == MapIndex.ShiftIds(old(files), removed);
      assert old(files)[..|old(files)|] == old(files);
      match remove
      case None =>
        path := None;
      case Some(k) =>
        path := Some(files[k].path);
        files := files[..k] + files[k + 1..];
    }

    /** The loop renumbering the rows' FileIndex values above the removed Id. */
    method RenumberRows(removed: int)
      modifies this`objects
      ensures objects == MapIndex.Renumber(old(objects), removed)
    {
      for i := 0 to |objects|
        invariant |objects| == |old(objects)|
        invariant forall j :: 0 <= j < i ==> objects[j] == MapIndex.Renumber(old(objects), removed)[j]
        invariant forall j :: i <= j < |objects| ==> objects[j] == old(objects)[j]
      {
        if objects[i].fileIndex > removed {
          objects := objects[i := objects[i].(fileIndex := objects[i].fileIndex - 1)];
        }
      }
    }

    /**
      Releasing the asset at position k: at Uses 0 or 1 the file list is
      bound (from DDSpath, or the one an earlier release left), the .dae and
      .msh are appended, the files are deleted and the row removed; otherwise
      Uses goes down. Unbound when there is no list to bind.
    */
    method ReleaseAssetRow(k: nat, pending: Option<seq<string>>)
      returns (unbound: bool, deleted: seq<string>, leftovers: seq<string>)
      requires k < |assets|
      modifies this`assets, this`disk
      ensures var r := Ledger.ReleaseAsset(old(assets), k, exportPath, old(disk), pending);
        && (unbound <==> r.Unbound?)
        && (r.Unbound? ==> assets == old(assets) && disk == old(disk))
        && (r.Released? ==> r == Ledger.Released(assets, disk, deleted, leftovers))
    {
      var a := assets[k];
      if a.uses == 1 || a.uses == 0 {
        if a.ddsPath.Some? {
          deleted := Lists.Split(a.ddsPath.value);
        } else if pending.Some? {
          deleted := pending.value;
        } else {
          return true, [], [];
        }
        deleted := deleted + [a.daePath, Paths.MshPath(a.daePath)];
        assert Ledger.ReleaseList(a, pending) == Some(deleted);
        leftovers := DeleteAssets(deleted);
        assets := assets[..k] + assets[k + 1..];
        unbound := false;
      } else {
        assets := assets[k := a.(uses := a.uses - 1)];
        return false, [], [];
      }
    }

    /**
      Dropping the file of the orphan at position i, whose FileIndex is r:
      the index is compacted, the rows renumbered, and the mesh's asset
      released. Returns the file list the release leaves bound and the status.
    */
    method DropFile(i: nat, r: int, marked: set<nat>, pending: Option<seq<string>>)
      returns (pending': Option<seq<string>>, status: Reconcile.Status)
      modifies this`files, this`numOfFiles, this`objects, this`assets, this`disk
      ensures PassOf(marked, pending', status)
              == Reconcile.DropFile(old(PassOf(marked, pending, Reconcile.Running)), i, r, Environment())
    {
      pending', status := pending, Reconcile.Running;
      var path := RemoveFileRow(r);
      if path.None? {
        return pending, Reconcile.Crashed(Reconcile.MissingFileEntry);
      }
      RenumberRows(r);
      var found := FindAssetRow(Reconcile.LedgerKey(kind, path.value));
      if found.Some? {
        var k := found.value;
        var lastUse := assets[k].uses == 0 || assets[k].uses == 1;
        var unbound, deleted, leftovers := ReleaseAssetRow(k, pending);
        if unbound {
          return pending, Reconcile.Crashed(Reconcile.UnboundFileList);
        }
        if lastUse {
          pending' := Some(deleted);
        }
        if leftovers != [] {
          status := Reconcile.EarlyReturn(i);
        }
      }
    }

    /** One iteration of the loop over the Objects list. */
    method VisitRow(i: nat, live: seq<string>, marked: set<nat>, pending: Option<seq<string>>)
      returns (marked': set<nat>, pending': Option<seq<string>>, status: Reconcile.Status)
      requires i < |objects|
      modifies this`files, this`numOfFiles, this`objects, this`assets, this`disk
      ensures PassOf(marked', pending', status)
              == Reconcile.Visit(old(PassOf(marked, pending, Reconcile.Running)), i, live, Environment())
    {
      marked', pending', status := marked, pending, Reconcile.Running;
      var exists_ := SceneHas(live, objects[i].name);
      if !exists_ {
        marked' := marked + {i};
        var inUse := FileInUse(i, marked');
        if !inUse {
          pending', status := DropFile(i, objects[i].fileIndex, marked', pending);
        }
      }
    }

    /** The closing loop: every row marked for removal is removed, the others keep their order. */
    method RemoveMarked(marked: set<nat>)
      modifies this`objects
      ensures objects == Reconcile.Survivors(old(objects), marked, 0)
    {
      var kept := [];
      for k := 0 to |objects|
        invariant kept + Reconcile.Survivors(objects, marked, k) == Reconcile.Survivors(objects, marked, 0)
      {
        if k !in marked {
          kept := kept + [objects[k]];
        }
      }
      objects := kept;
    }

    /**
      sync_blender_deletions for the names of the scene's objects. Returns
      the function's return value, or the exception it raises; after an
      exception the files already deleted stay deleted.
    */
    method SyncBlenderDeletions(live: seq<string>) returns (code: int, crash: Option<Reconcile.Crash>)
      modifies this`files, this`numOfFiles, this`objects, this`assets, this`disk
      ensures var r := Reconcile.SyncDeletions(old(MapSection()), old(assets), old(disk), live, Environment());
        && (r.NoSection? ==> code == 0 && crash.None? && MapSection() == None && assets == old(assets) && disk == old(disk))
        && (r.Synced? ==> code == 0 && crash.None? && MapSection() == Some(r.section) && assets == r.assets && disk == r.disk)
        && (r.Stopped? ==> code == 1 && crash.None? && MapSection() == Some(r.section) && assets == r.assets && disk == r.disk)
        && (r.Failed? ==> crash == Some(r.reason) && disk == r.disk)
    {
      if !hasSection {
        return 0, None;
      }
      var marked: set<nat> := {};
      var pending: Option<seq<string>> := None;
      ghost var p0 := PassOf({}, None, Reconcile.Running);
      var i := 0;
      while i < |objects|
        invariant 0 <= i <= |objects|
        invariant Reconcile.Sweep(PassOf(marked, pending, Reconcile.Running), i, live, Environment())
                  == Reconcile.Sweep(p0, 0, live, Environment())
        decreases |objects| - i
      {
        var status;
        ghost var before := PassOf(marked, pending, Reconcile.Running);
        marked, pending, status := VisitRow(i, live, marked, pending);
        ghost var after := PassOf(marked, pending, status);
        assert Reconcile.Sweep(before, i, live, Environment()) == Reconcile.Sweep(after, i + 1, live, Environment());
        if status.EarlyReturn? {
          assert Reconcile.Sweep(after, i + 1, live, Environment()) == after;
          return 1, None;
        } else if status.Crashed? {
          assert Reconcile.Sweep(after, i + 1, live, Environment()) == after;
          return 0, Some(status.reason);
        }
        i := i + 1;
      }
      assert Reconcile.Sweep(PassOf(marked, pending, Reconcile.Running), i, live, Environment())
             == PassOf(marked, pending, Reconcile.Running);
      RemoveMarked(marked);
      return 0, None;
    }
  }
}
