/**
  The section's file index: looking a short path up, appending a new File row
  when it is missing, and removing a row while closing the gap in the ids.
*/
module MapIndex {

  import opened Options
  import opened Documents

  /** The first File row whose Path is the given one. */
  function FindPath(files: seq<FileEntry>, path: string): (r: Option<nat>)
    ensures r.Some? ==> r.value < |files| && files[r.value].path == path
    ensures r.Some? ==> forall j :: 0 <= j < r.value ==> files[j].path != path
    ensures r.None? ==> forall j :: 0 <= j < |files| ==> files[j].path != path
  {
    if files == [] then None
    else if files[0].path == path then Some(0)
    else match FindPath(files[1..], path)
      case None => None
      case Some(k) => Some(k + 1)
  }

  /** The Id a new row gets: the LAST row's Id plus one, or 0 for an empty index. */
  function NextFileId(files: seq<FileEntry>): int {
    if files == [] then 0 else files[|files| - 1].id + 1
  }

  /** The index after a lookup, and the Id the object row will refer to. */
  datatype IndexLookup = IndexLookup(files: seq<FileEntry>, numOfFiles: int, id: int, created: bool)

  /**
    The file-index half of add_object: an indexed path gives its row's Id and
    changes nothing; a new path gets a row with the next Id at the end and the
    count goes up by one.
  */
  function ResolveFile(files: seq<FileEntry>, numOfFiles: int, path: string): (r: IndexLookup)
    ensures r.created <==> FindPath(files, path).None?
    ensures !r.created ==> r.files == files && r.numOfFiles == numOfFiles
    ensures r.created ==> r.files == files + [FileEntry(NextFileId(files), path)]
                          && r.numOfFiles == numOfFiles + 1 && r.id == NextFileId(files)
    ensures exists k :: 0 <= k < |r.files| && r.files[k] == FileEntry(r.id, path)
  {
    match FindPath(files, path)
    case Some(k) => IndexLookup(files, numOfFiles, files[k].id, false)
    case None =>
      var id := NextFileId(files);
      var files' := files + [FileEntry(id, path)];
      assert files'[|files|] == FileEntry(id, path);
      IndexLookup(files', numOfFiles + 1, id, true)
  }

  /**
    On a consistent index the lookup keeps it consistent, and the Id it gives
    is the position of the row holding the path: the object's FileIndex names
    its own file. An existing row keeps its Id.
  */
  lemma ResolveFileKeepsIndex(files: seq<FileEntry>, numOfFiles: int, path: string)
    requires IndexValid(files, numOfFiles)
    ensures var r := ResolveFile(files, numOfFiles, path);
      && IndexValid(r.files, r.numOfFiles)
      && 0 <= r.id < |r.files| && r.files[r.id].path == path
      && r.files[..|files|] == files
      && (!r.created ==> r.id < |files| && files[r.id].path == path)
  {
    var r := ResolveFile(files, numOfFiles, path);
    assert r.files[..|files|] == files;
    if files != [] {
      assert NextFileId(files) == |files|;
    }
  }

  /** Rows with an Id above the removed one move down by one; others are untouched. */
  function ShiftIds(files: seq<FileEntry>, removed: int): (r: seq<FileEntry>)
    ensures |r| == |files|
    ensures forall k :: 0 <= k < |files| ==> r[k].path == files[k].path
  {
    seq(|files|, k requires 0 <= k < |files| =>
      if files[k].id > removed then files[k].(id := files[k].id - 1) else files[k])
  }

  /** The LAST row with the given Id: the renumbering loop does not stop at the first. */
  function LastWithId(files: seq<FileEntry>, id: int): (r: Option<nat>)
    ensures r.Some? ==> r.value < |files| && files[r.value].id == id
    ensures r.Some? ==> forall j :: r.value < j < |files| ==> files[j].id != id
    ensures r.None? ==> forall j :: 0 <= j < |files| ==> files[j].id != id
  {
    if files == [] then None
    else if files[|files| - 1].id == id then Some(|files| - 1)
    else LastWithId(files[..|files| - 1], id)
  }

  function RemoveAt<T>(s: seq<T>, k: nat): (r: seq<T>)
    requires k < |s|
    ensures |r| == |s| - 1
    ensures forall j :: 0 <= j < |r| ==> r[j] == s[if j < k then j else j + 1]
  {
    s[..k] + s[k + 1..]
  }

  /** The index after a row was removed, and the Path of the removed row. */
  datatype Compacted = Compacted(files: seq<FileEntry>, numOfFiles: int, removedPath: string)

  /**
    The file-index half of removing an orphan's file: NumOfFiles goes down,
    the ids above the removed one move down, and the last row with that Id is
    removed. None when no row has that Id (files.remove(None) raises).
  */
  function CompactIndex(files: seq<FileEntry>, numOfFiles: int, removed: int): (r: Option<Compacted>)
    ensures r.None? <==> LastWithId(files, removed).None?
    ensures r.Some? ==> var k := LastWithId(files, removed).value;
      && r.value.numOfFiles == numOfFiles - 1
      && r.value.removedPath == files[k].path
      && r.value.files == RemoveAt(ShiftIds(files, removed), k)
  {
    match LastWithId(files, removed)
    case None => None
    case Some(k) => Some(Compacted(RemoveAt(ShiftIds(files, removed), k), numOfFiles - 1, files[k].path))
  }

  /**
    On a consistent index, removing the row with Id r (a position of the index)
    keeps it consistent: ids stay dense, the count stays true, and every row
    after the removed one moves one place up with its path.
  */
  lemma CompactKeepsIndex(files: seq<FileEntry>, numOfFiles: int, r: int)
    requires IndexValid(files, numOfFiles)
    requires 0 <= r < |files|
    ensures LastWithId(files, r) == Some(r)
    ensures CompactIndex(files, numOfFiles, r).Some?
    ensures var c := CompactIndex(files, numOfFiles, r).value;
      && IndexValid(c.files, c.numOfFiles)
      && |c.files| == |files| - 1
      && c.removedPath == files[r].path
      && (forall j :: 0 <= j < |c.files| ==> c.files[j].path == files[if j < r then j else j + 1].path)
  {
    assert files[r].id == r;
    var c := CompactIndex(files, numOfFiles, r).value;
    var shifted := ShiftIds(files, r);
    forall j | 0 <= j < |c.files| ensures c.files[j].id == j {
      if j < r {
        assert c.files[j] == shifted[j];
      } else {
        assert c.files[j] == shifted[j + 1];
      }
    }
    forall i, j | 0 <= i < j < |c.files| ensures c.files[i].path != c.files[j].path {
      var i' := if i < r then i else i + 1;
      var j' := if j < r then j else j + 1;
      assert c.files[i].path == files[i'].path && c.files[j].path == files[j'].path;
    }
  }

  /** The objects' FileIndex values above the removed Id move down by one. */
  function Renumber(objects: seq<MapObject>, removed: int): (r: seq<MapObject>)
    ensures |r| == |objects|
    ensures forall k :: 0 <= k < |objects| ==>
      r[k] == objects[k].(fileIndex := if objects[k].fileIndex > removed then objects[k].fileIndex - 1 else objects[k].fileIndex)
  {
    seq(|objects|, k requires 0 <= k < |objects| =>
      if objects[k].fileIndex > removed then objects[k].(fileIndex := objects[k].fileIndex - 1) else objects[k])
  }

  /**
    After the index was compacted at r and the objects renumbered, every row
    that referred to another file still refers to the same path.
  */
  lemma RenumberKeepsTargets(files: seq<FileEntry>, numOfFiles: int, r: int, o: MapObject)
    requires IndexValid(files, numOfFiles)
    requires 0 <= r < |files| && 0 <= o.fileIndex < |files| && o.fileIndex != r
    ensures var c := CompactIndex(files, numOfFiles, r);
      var f := if o.fileIndex > r then o.fileIndex - 1 else o.fileIndex;
      c.Some? && 0 <= f < |c.value.files| && c.value.files[f].path == files[o.fileIndex].path
  {
    CompactKeepsIndex(files, numOfFiles, r);
  }

}
