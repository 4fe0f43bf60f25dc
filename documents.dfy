/**
  The two XML documents the exporter keeps in step with the Blender scene,
  as plain records.

  The map file's "Blender@HPL3EXPORT" section holds a file index (File rows with
  a dense Id and a short Path, and a NumOfFiles counter) and the Objects list
  (StaticObject or Entity rows whose FileIndex is the Id of their mesh's file).
  The asset-tracking document lists one Asset per exported mesh: its DAEpath,
  a Uses counter and, once textures were exported, the ';'-separated DDSpath.

  Numeric attributes (Id, ID, FileIndex, NumOfFiles, Uses, CreStamp) are stored
  as integers: the exporter writes them with str() and reads them back with
  int(), and compares Id with FileIndex as text, which agrees with comparing the
  numbers for text that str() produced.
*/
module Documents {

  import opened Options

  /** The map file of static objects holds StaticObject rows, the one of entities Entity rows. */
  datatype Kind = StaticObject | Entity

  /** A File row of the section's file index. */
  datatype FileEntry = FileEntry(id: int, path: string)

  /** The ModStamp attribute: a number, or text int() rejects. */
  datatype Stamp = Stamp(value: int) | Unparsable(text: string)

  /**
    The transform strings the exporter computes for an object (position,
    Euler rotation and scale as "x y z" text).
  */
  datatype Placement = Placement(worldPos: string, rotation: string, scale: string)

  /** A StaticObject or Entity row of the Objects list. */
  datatype MapObject = MapObject(
    kind: Kind,
    name: string,
    id: int,
    creStamp: int,
    modStamp: Stamp,
    placement: Placement,
    fileIndex: int,
    attrs: map<string, string>,
    userVars: map<string, string>)

  datatype Section = Section(files: seq<FileEntry>, numOfFiles: int, objects: seq<MapObject>)

  /** An Asset row of the asset-tracking document. */
  datatype Asset = Asset(daePath: string, uses: int, ddsPath: Option<string>)

  /** The export settings the synchronisation depends on. */
  datatype Env = Env(kind: Kind, multi: bool, exportPath: string)

  /** Ids are dense: the File row at position k has Id k. */
  predicate Dense(files: seq<FileEntry>) {
    forall k :: 0 <= k < |files| ==> files[k].id == k
  }

  predicate UniquePaths(files: seq<FileEntry>) {
    forall i, j :: 0 <= i < j < |files| ==> files[i].path != files[j].path
  }

  predicate UniqueNames(objects: seq<MapObject>) {
    forall i, j :: 0 <= i < j < |objects| ==> objects[i].name != objects[j].name
  }

  predicate UniqueDaePaths(assets: seq<Asset>) {
    forall i, j :: 0 <= i < j < |assets| ==> assets[i].daePath != assets[j].daePath
  }

  /** The file index is consistent: dense ids, one row per path, a true count. */
  predicate IndexValid(files: seq<FileEntry>, numOfFiles: int) {
    Dense(files) && UniquePaths(files) && numOfFiles == |files|
  }

  /** Every object row refers to an existing File row. */
  predicate ReferencesValid(files: seq<FileEntry>, objects: seq<MapObject>) {
    forall k :: 0 <= k < |objects| ==> 0 <= objects[k].fileIndex < |files|
  }

  /**
    A section as the exporter itself builds it: a consistent index, every row
    of the export kind with a valid FileIndex, and one row per object name.
  */
  predicate WellFormed(s: Section, kind: Kind) {
    && IndexValid(s.files, s.numOfFiles)
    && ReferencesValid(s.files, s.objects)
    && UniqueNames(s.objects)
    && (forall k :: 0 <= k < |s.objects| ==> s.objects[k].kind == kind)
  }

}
