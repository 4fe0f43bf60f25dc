/**
  add_object: the exported object's row in the map section is found by name
  or created, after its mesh's file was looked up in (or added to) the file
  index.
*/
module Registry {

  import opened Options
  import opened Names
  import opened Paths
  import opened Documents
  import opened MapIndex
  import opened Ledger

  /** The ID a new row gets when the Objects list is empty, per kind (legacy constants). */
  const EntityBaseId := 268435459
  const StaticBaseId := 285212672

  /** The export-panel switches written into a row's attributes. */
  datatype Flags = Flags(collides: bool, castsShadows: bool, isOccluder: bool, distanceCulling: bool, culledByFog: bool)

  function TrueFalse(b: bool): string { if b then "true" else "false" }

  /**
    The attributes add_object sets besides the row's own fields. CulledByFog
    is written "False" (capitalised) when off, as the exporter does.
  */
  function FlagAttributes(kind: Kind, f: Flags): map<string, string> {
    var common := map[
      "CulledByDistance" := TrueFalse(f.distanceCulling),
      "CulledByFog" := if f.culledByFog then "true" else "False",
      "IllumColor" := "1 1 1 1",
      "IllumBrightness" := "1",
      "UID" := "blender"];
    if kind == Entity then
      common + map["Active" := "true", "Important" := "false"]
    else
      common + map[
        "Collides" := TrueFalse(f.collides),
        "CastShadows" := TrueFalse(f.castsShadows),
        "IsOccluder" := TrueFalse(f.isOccluder),
        "ColorMul" := "1 1 1 1"]
  }

  /** An entity's UserVariables carry a CastShadows Var; static rows have none written. */
  function UserVarsAfter(kind: Kind, f: Flags, vars: map<string, string>): map<string, string> {
    if kind == Entity then vars["CastShadows" := TrueFalse(f.castsShadows)] else vars
  }

  /**
    The ID a new row would get, computed before the search: the LAST row's ID
    plus one, or the legacy constant of the kind when there is no row.
  */
  function NextObjectId(objects: seq<MapObject>, kind: Kind): int {
    if objects == [] then (if kind == Entity then EntityBaseId else StaticBaseId)
    else objects[|objects| - 1].id + 1
  }

  /** The first row of the given kind with the given Name. */
  function FindObject(objects: seq<MapObject>, kind: Kind, name: string): (r: Option<nat>)
    ensures r.Some? ==> r.value < |objects| && objects[r.value].kind == kind && objects[r.value].name == name
    ensures r.Some? ==> forall j :: 0 <= j < r.value ==> !(objects[j].kind == kind && objects[j].name == name)
    ensures r.None? ==> forall j :: 0 <= j < |objects| ==> !(objects[j].kind == kind && objects[j].name == name)
  {
    if objects == [] then None
    else if objects[0].kind == kind && objects[0].name == name then Some(0)
    else match FindObject(objects[1..], kind, name)
      case None => None
      case Some(k) => Some(k + 1)
  }

  /** The previous ModStamp as add_object returns it: 0 when int() rejects it. */
  function PreviousStamp(s: Stamp): int {
    match s
    case Stamp(v) => v
    case Unparsable(_) => 0
  }

  datatype Upserted = Upserted(objects: seq<MapObject>, oldModTime: int)

  /**
    The registry half of add_object. An existing row keeps its ID and CreStamp,
    stays where it is and gets the new ModStamp, placement, FileIndex and
    attributes, and its previous ModStamp is returned; otherwise one row with
    the next ID and CreStamp = ModStamp = now is appended and 0 is returned.
  */
  function Upsert(objects: seq<MapObject>, kind: Kind, name: string, fileIndex: int, now: int,
                  placement: Placement, f: Flags): (r: Upserted)
    ensures FindObject(objects, kind, name).Some? ==>
      var k := FindObject(objects, kind, name).value;
      && |r.objects| == |objects|
      && r.objects[k] == objects[k].(modStamp := Stamp(now), placement := placement, fileIndex := fileIndex,
           attrs := objects[k].attrs + FlagAttributes(kind, f), userVars := UserVarsAfter(kind, f, objects[k].userVars))
      && (forall j :: 0 <= j < |objects| && j != k ==> r.objects[j] == objects[j])
      && r.oldModTime == PreviousStamp(objects[k].modStamp)
    ensures FindObject(objects, kind, name).None? ==>
      && r.objects == objects + [MapObject(kind, name, NextObjectId(objects, kind), now, Stamp(now), placement,
           fileIndex, FlagAttributes(kind, f), UserVarsAfter(kind, f, map[]))]
      && r.oldModTime == 0
  {
    var lastId := NextObjectId(objects, kind);
    match FindObject(objects, kind, name)
    case Some(k) =>
      var o := objects[k];
      var o' := o.(name := name, modStamp := Stamp(now), placement := placement, fileIndex := fileIndex,
                   attrs := o.attrs + FlagAttributes(kind, f), userVars := UserVarsAfter(kind, f, o.userVars));
      Upserted(objects[k := o'], PreviousStamp(o.modStamp))
    case None =>
      var o := MapObject(kind, name, lastId, now, Stamp(now), placement, fileIndex,
                         FlagAttributes(kind, f), UserVarsAfter(kind, f, map[]));
      Upserted(objects + [o], 0)
  }

  /** Row IDs strictly increase along the list, as rows are only ever appended with the next ID. */
  predicate IdsAscending(objects: seq<MapObject>) {
    forall i, j :: 0 <= i < j < |objects| ==> objects[i].id < objects[j].id
  }

  /**
    Upserting keeps one row per name, leaves exactly one row with the name,
    and that row holds the ID it had (or a fresh one, larger than every other
    ID when IDs were ascending) and the new FileIndex.
  */
  lemma UpsertKeepsRegistry(objects: seq<MapObject>, kind: Kind, name: string, fileIndex: int, now: int,
                            placement: Placement, f: Flags)
    requires UniqueNames(objects)
    requires forall k :: 0 <= k < |objects| ==> objects[k].kind == kind
    ensures var r := Upsert(objects, kind, name, fileIndex, now, placement, f);
      && UniqueNames(r.objects)
      && (forall k :: 0 <= k < |r.objects| ==> r.objects[k].kind == kind)
      && |objects| <= |r.objects| <= |objects| + 1
      && (exists k :: 0 <= k < |r.objects| && r.objects[k].name == name && r.objects[k].fileIndex == fileIndex)
      && (forall k :: 0 <= k < |objects| ==> r.objects[k].id == objects[k].id && r.objects[k].creStamp == objects[k].creStamp)
      && (forall k :: 0 <= k < |r.objects| ==>
            r.objects[k].fileIndex == fileIndex || (k < |objects| && r.objects[k].fileIndex == objects[k].fileIndex))
      && (IdsAscending(objects) ==> IdsAscending(r.objects))
  {
    var r := Upsert(objects, kind, name, fileIndex, now, placement, f);
    match FindObject(objects, kind, name)
    case Some(k) =>
      assert r.objects[k].name == name;
    case None =>
      var n := |objects|;
      assert r.objects[n].name == name && r.objects[n].fileIndex == fileIndex;
      assert forall k :: 0 <= k < n ==> r.objects[k] == objects[k];
      if IdsAscending(objects) && n > 0 {
        assert forall k :: 0 <= k < n ==> objects[k].id <= objects[n - 1].id;
      }
  }

  /** The map after add_object, the ledger, and the returned previous ModStamp. */
  datatype Added = Added(section: Section, assets: seq<Asset>, oldModTime: int)

  /** The path add_object indexes a mesh under: .ent for entities, .dae for static objects. */
  function IndexPath(env: Env, meshName: string): string {
    ShortPath(AssetPath(env.exportPath, Sanitize(meshName), if env.kind == Entity then ".ent" else ".dae"))
  }

  /**
    add_object for a Blender object named objectName whose mesh is meshName:
    a missing section is created empty, the mesh's path is resolved in the file
    index (a new row in MULTI mode adds a use to the current asset), and the
    object's row is upserted under its sanitised name.
  */
  function AddObject(section: Option<Section>, assets: seq<Asset>, current: nat, env: Env,
                     objectName: string, meshName: string, now: int, placement: Placement, f: Flags): (r: Added)
    requires env.multi ==> current < |assets|
    ensures |r.assets| == |assets|
    ensures forall k :: 0 <= k < |assets| && !(env.multi && k == current) ==> r.assets[k] == assets[k]
    ensures env.multi ==>
      var files := if section.Some? then section.value.files else [];
      r.assets[current] == assets[current].(uses := assets[current].uses
                                                    + if FindPath(files, IndexPath(env, meshName)).None? then 1 else 0)
  {
    var s := if section.Some? then section.value else Section([], 0, []);
    var lk := ResolveFile(s.files, s.numOfFiles, IndexPath(env, meshName));
    var assets' := if lk.created && env.multi then AddUse(assets, current) else assets;
    var up := Upsert(s.objects, env.kind, Sanitize(objectName), lk.id, now, placement, f);
    Added(Section(lk.files, lk.numOfFiles, up.objects), assets', up.oldModTime)
  }

  /**
    add_object keeps a well-formed section well-formed (a new section is
    well-formed too), and afterwards the object's row refers to the File row of
    its own mesh's path.
  */
  lemma AddObjectKeepsWellFormed(section: Option<Section>, assets: seq<Asset>, current: nat, env: Env,
                                 objectName: string, meshName: string, now: int, placement: Placement, f: Flags)
    requires env.multi ==> current < |assets|
    requires section.Some? ==> WellFormed(section.value, env.kind)
    ensures var r := AddObject(section, assets, current, env, objectName, meshName, now, placement, f);
      && WellFormed(r.section, env.kind)
      && exists k :: 0 <= k < |r.section.objects| && r.section.objects[k].name == Sanitize(objectName)
           && r.section.files[r.section.objects[k].fileIndex].path == IndexPath(env, meshName)
  {
    var s := if section.Some? then section.value else Section([], 0, []);
    var path := IndexPath(env, meshName);
    ResolveFileKeepsIndex(s.files, s.numOfFiles, path);
    var lk := ResolveFile(s.files, s.numOfFiles, path);
    var name := Sanitize(objectName);
    UpsertKeepsRegistry(s.objects, env.kind, name, lk.id, now, placement, f);
    var up := Upsert(s.objects, env.kind, name, lk.id, now, placement, f);
    assert |s.files| <= |lk.files|;
    forall k | 0 <= k < |up.objects| ensures 0 <= up.objects[k].fileIndex < |lk.files| {
      if up.objects[k].fileIndex != lk.id {
        assert 0 <= s.objects[k].fileIndex < |s.files|;
      }
    }
  }

}
