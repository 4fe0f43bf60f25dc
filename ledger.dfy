/**
  The asset-tracking document: one Asset row per exported mesh, found or
  created before the mesh's object is added to the map, and released when the
  last object using the mesh's file disappears from the map.
*/
module Ledger {

  import opened Options
  import opened Names
  import opened Paths
  import opened Lists
  import opened Documents
  import opened Disk

  /** The first Asset row with the given DAEpath. */
  function FindAsset(assets: seq<Asset>, daePath: string): (r: Option<nat>)
    ensures r.Some? ==> r.value < |assets| && assets[r.value].daePath == daePath
    ensures r.Some? ==> forall j :: 0 <= j < r.value ==> assets[j].daePath != daePath
    ensures r.None? ==> forall j :: 0 <= j < |assets| ==> assets[j].daePath != daePath
  {
    if assets == [] then None
    else if assets[0].daePath == daePath then Some(0)
    else match FindAsset(assets[1..], daePath)
      case None => None
      case Some(k) => Some(k + 1)
  }

  /** The first Asset row with the given DAEpath, if there is one. */
  function AssetAt(assets: seq<Asset>, daePath: string): Option<Asset> {
    match FindAsset(assets, daePath)
    case None => None
    case Some(k) => Some(assets[k])
  }

  /** The first row with a DAEpath is the one FindAsset finds. */
  lemma FindAssetIs(assets: seq<Asset>, daePath: string, k: nat)
    requires k < |assets| && assets[k].daePath == daePath
    requires forall j :: 0 <= j < k ==> assets[j].daePath != daePath
    ensures FindAsset(assets, daePath) == Some(k)
  {
  }

  /** The ledger key of a mesh: the short path of <export dir>/<name>/<name>.dae. */
  function MeshKey(exportPath: string, meshName: string): string {
    ShortPath(AssetPath(exportPath, Sanitize(meshName), ".dae"))
  }

  /** The ledger after get_asset_xml_entry, and the position of the current asset. */
  datatype AssetEntry = AssetEntry(assets: seq<Asset>, current: nat)

  /**
    get_asset_xml_entry: the mesh's row becomes the current asset; a mesh not
    yet listed gets a new row at the end with Uses 0 and no DDSpath.
  */
  function GetAssetEntry(assets: seq<Asset>, exportPath: string, meshName: string): (r: AssetEntry)
    ensures r.current < |r.assets| && r.assets[r.current].daePath == MeshKey(exportPath, meshName)
    ensures FindAsset(assets, MeshKey(exportPath, meshName)).Some? ==> r.assets == assets
    ensures FindAsset(assets, MeshKey(exportPath, meshName)).None? ==>
      r.assets == assets + [Asset(MeshKey(exportPath, meshName), 0, None)] && r.current == |assets|
  {
    var key := MeshKey(exportPath, meshName);
    match FindAsset(assets, key)
    case Some(k) => AssetEntry(assets, k)
    case None => AssetEntry(assets + [Asset(key, 0, None)], |assets|)
  }

  /**
    At most one row is ever created per DAEpath: finding or creating an entry
    keeps DAEpaths unique, and an existing row is reused unchanged.
  */
  lemma GetAssetEntryKeepsUnique(assets: seq<Asset>, exportPath: string, meshName: string)
    requires UniqueDaePaths(assets)
    ensures var r := GetAssetEntry(assets, exportPath, meshName);
      && UniqueDaePaths(r.assets)
      && r.assets[..|assets|] == assets
      && |r.assets| <= |assets| + 1
      && (forall k :: 0 <= k < |r.assets| && r.assets[k].daePath == MeshKey(exportPath, meshName) ==> k == r.current)
  {
    var r := GetAssetEntry(assets, exportPath, meshName);
    assert r.assets[..|assets|] == assets;
  }

  /** The current asset's Uses counter goes up by one (a new File row in MULTI mode). */
  function AddUse(assets: seq<Asset>, current: nat): (r: seq<Asset>)
    requires current < |assets|
    ensures |r| == |assets| && r[current].uses == assets[current].uses + 1
    ensures r[current].daePath == assets[current].daePath && r[current].ddsPath == assets[current].ddsPath
    ensures forall k :: 0 <= k < |assets| && k != current ==> r[k] == assets[k]
  {
    assets[current := assets[current].(uses := assets[current].uses + 1)]
  }

  /** What releasing an asset came to. */
  datatype Release =
    | Released(assets: seq<Asset>, disk: Disk, deleted: seq<string>, leftovers: seq<string>)
    | Unbound

  /**
    The files deleted with an asset: its DDSpath split at ';' (or, without a
    DDSpath, the list left over from the previous release, which Python's
    function-local variable still holds), then the .dae and the .msh.
  */
  function ReleaseList(a: Asset, pending: Option<seq<string>>): Option<seq<string>> {
    var textures := if a.ddsPath.Some? then Some(Split(a.ddsPath.value)) else pending;
    match textures
    case None => None
    case Some(t) => Some(t + [a.daePath, MshPath(a.daePath)])
  }

  /**
    The ledger half of removing an orphan's file, for the asset at position
    k: with Uses 0 or 1 its files are deleted and the row is removed; with more
    uses the counter goes down by one. Unbound when the row has no DDSpath and
    no earlier release bound the file list (an UnboundLocalError).
  */
  function ReleaseAsset(assets: seq<Asset>, k: nat, exportPath: string, d: Disk, pending: Option<seq<string>>): (r: Release)
    requires k < |assets|
    ensures assets[k].uses != 0 && assets[k].uses != 1 ==>
      r == Released(assets[k := assets[k].(uses := assets[k].uses - 1)], d, [], [])
    ensures (assets[k].uses == 0 || assets[k].uses == 1) ==>
      (r.Unbound? <==> assets[k].ddsPath.None? && pending.None?)
    ensures (assets[k].uses == 0 || assets[k].uses == 1) && r.Released? ==>
      && r.assets == assets[..k] + assets[k + 1..]
      && r.deleted == (if assets[k].ddsPath.Some? then Split(assets[k].ddsPath.value) else pending.value)
                      + [assets[k].daePath, MshPath(assets[k].daePath)]
      && r.leftovers == Undeletable(exportPath, d, r.deleted)
      && r.disk.locked == d.locked
      && (forall f :: f in r.disk.present <==>
            f in d.present && (f in d.locked || !Targeted(exportPath, r.deleted, f)))
  {
    var a := assets[k];
    if a.uses == 1 || a.uses == 0 then
      match ReleaseList(a, pending)
      case None => Unbound
      case Some(list) =>
        DeleteAssetsMeaning(exportPath, d, list);
        var (leftovers, d') := DeleteAssets(exportPath, d, list);
        Released(assets[..k] + assets[k + 1..], d', list, leftovers)
    else
      Released(assets[k := a.(uses := a.uses - 1)], d, [], [])
  }

  /** Changing a row's Uses keeps every DAEpath's row where it was. */
  lemma DecrementKeepsKeys(assets: seq<Asset>, k: nat, key: string)
    requires k < |assets| && assets[k].daePath != key
    ensures AssetAt(assets[k := assets[k].(uses := assets[k].uses - 1)], key) == AssetAt(assets, key)
  {
    var after := assets[k := assets[k].(uses := assets[k].uses - 1)];
    var found := FindAsset(assets, key);
    if found.Some? {
      FindAssetIs(after, key, found.value);
    } else {
      assert forall j :: 0 <= j < |after| ==> after[j].daePath == assets[j].daePath;
    }
  }

  /** Removing the row at position k keeps the row found under every other DAEpath. */
  lemma RemoveKeepsKeys(assets: seq<Asset>, k: nat, key: string)
    requires k < |assets| && assets[k].daePath != key
    ensures AssetAt(assets[..k] + assets[k + 1..], key) == AssetAt(assets, key)
  {
    var after := assets[..k] + assets[k + 1..];
    assert forall j :: 0 <= j < k ==> after[j] == assets[j];
    assert forall j :: k <= j < |after| ==> after[j] == assets[j + 1];
    var found := FindAsset(assets, key);
    if found.Some? {
      var m := found.value;
      if m < k {
        FindAssetIs(after, key, m);
      } else {
        FindAssetIs(after, key, m - 1);
      }
    } else {
      assert forall j :: 0 <= j < |after| ==> after[j].daePath != key;
    }
  }

  /**
    Releasing the asset at position k leaves the row found under any other
    DAEpath as it was, whether the release decrements Uses or removes the row.
  */
  lemma ReleaseKeepsOtherKeys(assets: seq<Asset>, k: nat, exportPath: string, d: Disk,
                              pending: Option<seq<string>>, key: string)
    requires k < |assets| && assets[k].daePath != key
    ensures var r := ReleaseAsset(assets, k, exportPath, d, pending);
      r.Released? ==> AssetAt(r.assets, key) == AssetAt(assets, key)
  {
    if assets[k].uses != 0 && assets[k].uses != 1 {
      DecrementKeepsKeys(assets, k, key);
    } else {
      RemoveKeepsKeys(assets, k, key);
    }
  }

}
