/** The file table of the Barista: files by pathname and by id. */
module PersistentMetadata {
  import opened Extents

  const P_META_SUCCESS: int := 0
  const FILE_NOT_FOUND: int := -1
  const FILE_EXISTS: int := -2
  const FILENAME_INVALID: int := -3
  const MAX_FILENAME_LENGTH: nat := 100
  const ID_NOT_SET: nat := 0

  datatype FileInfo = FileInfo(fileId: int, size: nat, stripeSize: nat, chunkSize: nat, replicaSize: nat,
                               pathname: string)

  /** The two indexes are each other's inverse. */
  ghost predicate MutuallyInverse(byName: map<string, int>, byId: map<int, FileInfo>) {
    && (forall n :: n in byName ==> byName[n] in byId && byId[byName[n]].pathname == n)
    && (forall id :: id in byId ==>
          byId[id].fileId == id && byId[id].pathname in byName && byName[byId[id].pathname] == id)
  }

  /** The largest key of a table that has one. */
  function LastKey(byId: map<int, FileInfo>): (k: int)
    requires byId.Keys != {}
    ensures k in byId && forall id :: id in byId ==> id <= k
  {
    MaxExists(byId.Keys);
    var k :| k in byId.Keys && forall id :: id in byId.Keys ==> id <= k;
    assert forall id :: id in byId ==> id in byId.Keys;
    k
  }

  class PersistentMetadataTable {
    var pathnameToFileId: map<string, int>
    var metadata: map<int, FileInfo>
    var nextFileId: nat

    ghost predicate Valid()
      reads this
    {
      && MutuallyInverse(pathnameToFileId, metadata)
      && (forall id :: id in metadata ==> ID_NOT_SET < id)
      && (nextFileId != ID_NOT_SET ==> forall id :: id in metadata ==> id <= nextFileId)
    }

    constructor ()
      ensures Valid() && metadata == map[] && pathnameToFileId == map[] && nextFileId == ID_NOT_SET
    {
      pathnameToFileId, metadata, nextFileId := map[], map[], ID_NOT_SET;
    }

    /** A file id that no file has. It is above all ids in use, and above all ids handed out
        since the server was started. */
    method GetNewFileId() returns (id: int)
      requires Valid()
      modifies this`nextFileId
      ensures Valid() && id == nextFileId && old(nextFileId) < nextFileId
      ensures forall x :: x in metadata ==> x < id
    {
      if nextFileId == ID_NOT_SET && metadata.Keys != {} {
        nextFileId := LastKey(metadata);
      }
      nextFileId := nextFileId + 1;
      id := nextFileId;
    }

    method AddFile(pathname: string, stripeSize: nat, chunkSize: nat, replicaSize: nat) returns (r: int)
      requires Valid()
      modifies this
      ensures Valid()
      ensures pathname in old(pathnameToFileId) ==> r == FILE_EXISTS
      ensures pathname !in old(pathnameToFileId) && |pathname| > MAX_FILENAME_LENGTH ==> r == FILENAME_INVALID
      ensures r < 0 ==>
                && metadata == old(metadata) && pathnameToFileId == old(pathnameToFileId)
                && nextFileId == old(nextFileId)
      ensures pathname !in old(pathnameToFileId) && |pathname| <= MAX_FILENAME_LENGTH ==>
                && 0 < r == nextFileId && old(nextFileId) < r && r !in old(metadata)
                && metadata == old(metadata)[r := FileInfo(r, 0, stripeSize, chunkSize, replicaSize, pathname)]
                && pathnameToFileId == old(pathnameToFileId)[pathname := r]
    {
      if pathname in pathnameToFileId {
        return FILE_EXISTS;
      }
      if |pathname| > MAX_FILENAME_LENGTH {
        return FILENAME_INVALID;
      }
      var fileId := GetNewFileId();
      metadata := metadata[fileId := FileInfo(fileId, 0, stripeSize, chunkSize, replicaSize, pathname)];
      pathnameToFileId := pathnameToFileId[pathname := fileId];
      return fileId;
    }

    /** Looks a file up by id. */
    method StatById(fileId: int) returns (r: int, info: FileInfo)
      ensures r == if fileId in metadata then P_META_SUCCESS else FILE_NOT_FOUND
      ensures fileId in metadata ==> info == metadata[fileId]
    {
      if fileId in metadata {
        return P_META_SUCCESS, metadata[fileId];
      }
      return FILE_NOT_FOUND, FileInfo(0, 0, 0, 0, 0, "");
    }

    /** Looks a file up by name. In a valid table a name that is known always leads to its file. */
    method StatByName(pathname: string) returns (r: int, info: FileInfo)
      requires Valid()
      ensures r == if pathname in pathnameToFileId then P_META_SUCCESS else FILE_NOT_FOUND
      ensures r == P_META_SUCCESS ==>
                info.fileId in metadata && info == metadata[info.fileId] && info.pathname == pathname
    {
      if pathname in pathnameToFileId {
        r, info := StatById(pathnameToFileId[pathname]);
        return;
      }
      return FILE_NOT_FOUND, FileInfo(0, 0, 0, 0, 0, "");
    }

    /** Takes a file out of both indexes. */
    method DeleteFileContents(fileId: int) returns (r: int)
      requires Valid()
      modifies this`metadata, this`pathnameToFileId
      ensures Valid()
      ensures r == if fileId in old(metadata) then P_META_SUCCESS else FILE_NOT_FOUND
      ensures metadata == old(metadata) - {fileId}
      ensures forall n :: n in pathnameToFileId <==> n in old(pathnameToFileId) && old(pathnameToFileId)[n] != fileId
      ensures forall n :: n in pathnameToFileId ==> pathnameToFileId[n] == old(pathnameToFileId)[n]
    {
      if fileId in metadata {
        pathnameToFileId := pathnameToFileId - {metadata[fileId].pathname};
        metadata := metadata - {fileId};
        return P_META_SUCCESS;
      }
      assert metadata - {fileId} == metadata;
      return FILE_NOT_FOUND;
    }

    method UpdateFileSize(fileId: int, sizeDelta: int) returns (r: int)
      requires Valid()
      modifies this`metadata
      ensures Valid()
      ensures fileId !in old(metadata) ==> r == FILE_NOT_FOUND && metadata == old(metadata)
      ensures fileId in old(metadata) ==>
                && r == (if old(metadata)[fileId].size + sizeDelta < 0 then 0
                         else old(metadata)[fileId].size + sizeDelta)
                && metadata == old(metadata)[fileId := old(metadata)[fileId].(size := r)]
    {
      if fileId in metadata {
        var info := metadata[fileId];
        var size := if info.size + sizeDelta < 0 then 0 else info.size + sizeDelta;
        metadata := metadata[fileId := info.(size := size)];
        return size;
      }
      return FILE_NOT_FOUND;
    }
  }
}
