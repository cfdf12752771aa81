/** State of the Barista that does not survive a restart: file cursors, ids, and which nodes are up. */
module VolatileMetadata {
  import opened PersistentMetadata

  const INSTANCE_NOT_FOUND: int := -1
  const WRONG_CLIENT: int := -2
  const NODE_NUMBER_NOT_FOUND: int := -1
  const NODE_ALREADY_UP: int := 1
  const V_META_SUCCESS: int := 0

  /** A client: where it connects from, for which user, and over which connection. */
  datatype Client = Client(ip: string, userId: nat, ctc: nat)

  datatype FileInstance = FileInstance(client: Client, fileId: int, offset: nat)

  /** The list of nodes without one of them. */
  function Without(up: seq<int>, node: int): (up': seq<int>)
    ensures forall n :: n in up' <==> n in up && n != node
  {
    if up == [] then [] else (if up[0] == node then [] else [up[0]]) + Without(up[1..], node)
  }

  lemma WithoutAbsent(up: seq<int>, node: int)
    requires node !in up
    ensures Without(up, node) == up
  {
  }

  lemma {:induction false} WithoutAt(up: seq<int>, i: nat)
    requires i < |up| && forall j, k :: 0 <= j < k < |up| ==> up[j] != up[k]
    ensures Without(up, up[i]) == up[..i] + up[i + 1..]
  {
    if i == 0 {
      WithoutAbsent(up[1..], up[0]);
    } else {
      WithoutAt(up[1..], i - 1);
    }
  }

  /** The list of nodes with this one. */
  function With(up: seq<int>, node: int): (up': seq<int>)
    ensures forall n :: n in up' <==> n in up || n == node
  {
    if node in up then up else up + [node]
  }

  /** Only nodes that cannot be reached have gone down. */
  ghost predicate OnlyLostDown(up: seq<int>, up': seq<int>, reachable: set<int>) {
    && (forall n :: n in up' ==> n in up)
    && (forall n :: n in up && n !in up' ==> n !in reachable)
  }

  class VolatileMetadataTable {
    var fileCursors: map<nat, FileInstance>
    var upNodes: seq<int>
    var lastFd: nat
    var requestId: nat

    ghost predicate Valid()
      reads this
    {
      && (forall fd :: fd in fileCursors ==> 0 < fd <= lastFd)
      && (forall i, j :: 0 <= i < j < |upNodes| ==> upNodes[i] != upNodes[j])
    }

    constructor ()
      ensures Valid() && fileCursors == map[] && upNodes == [] && lastFd == 0 && requestId == 0
    {
      fileCursors, upNodes, lastFd, requestId := map[], [], 0, 0;
    }

    // -------------------------------------------------------------------------
    // Nodes
    // -------------------------------------------------------------------------

    predicate IsNodeUp(node: int)
      reads this
    {
      node in upNodes
    }

    method SetNodeDown(node: int) returns (r: int)
      requires Valid()
      modifies this`upNodes
      ensures Valid()
      ensures r == if node in old(upNodes) then V_META_SUCCESS else NODE_NUMBER_NOT_FOUND
      ensures upNodes == Without(old(upNodes), node)
    {
      if node in upNodes {
        var i := 0;
        while upNodes[i] != node
          invariant 0 <= i < |upNodes|
          invariant forall j :: 0 <= j < i ==> upNodes[j] != node
          decreases |upNodes| - i
        {
          i := i + 1;
        }
        WithoutAt(upNodes, i);
        upNodes := upNodes[..i] + upNodes[i + 1..];
        return V_META_SUCCESS;
      }
      WithoutAbsent(upNodes, node);
      return NODE_NUMBER_NOT_FOUND;
    }

    method SetNodeUp(node: int) returns (r: int)
      requires Valid()
      modifies this`upNodes
      ensures Valid()
      ensures r == if node in old(upNodes) then NODE_ALREADY_UP else V_META_SUCCESS
      ensures upNodes == With(old(upNodes), node)
    {
      if node !in upNodes {
        upNodes := upNodes + [node];
        return V_META_SUCCESS;
      }
      return NODE_ALREADY_UP;
    }

    // -------------------------------------------------------------------------
    // Ids
    // -------------------------------------------------------------------------

    /** A request id that was never handed out before. */
    method GetNewRequestId() returns (id: nat)
      modifies this`requestId
      ensures id == requestId == old(requestId) + 1
    {
      requestId := requestId + 1;
      id := requestId;
    }

    /** A new descriptor, above all that were ever handed out. */
    method NewFileCursor(fileId: int, client: Client) returns (fd: nat)
      requires Valid()
      modifies this`fileCursors, this`lastFd
      ensures Valid()
      ensures fd == lastFd == old(lastFd) + 1 && fd !in old(fileCursors)
      ensures fileCursors == old(fileCursors)[fd := FileInstance(client, fileId, 0)]
    {
      // with no descriptor handed out yet the table is empty, so there is no maximum to look up
      assert lastFd == 0 ==> fileCursors.Keys == {};
      lastFd := lastFd + 1;
      fd := lastFd;
      fileCursors := fileCursors[fd := FileInstance(client, fileId, 0)];
    }

    /** Closes a descriptor for the client that opened it, and returns the id of its file. */
    method CloseFileCursor(fd: nat, client: Client) returns (r: int)
      requires Valid()
      modifies this`fileCursors
      ensures Valid()
      ensures fd !in old(fileCursors) ==> r == INSTANCE_NOT_FOUND && fileCursors == old(fileCursors)
      ensures fd in old(fileCursors) && old(fileCursors)[fd].client != client ==>
                r == WRONG_CLIENT && fileCursors == old(fileCursors)
      ensures fd in old(fileCursors) && old(fileCursors)[fd].client == client ==>
                r == old(fileCursors)[fd].fileId && fileCursors == old(fileCursors) - {fd}
    {
      if fd in fileCursors {
        var file := fileCursors[fd];
        if file.client == client {
          fileCursors := fileCursors - {fd};
          return file.fileId;
        } else {
          return WRONG_CLIENT;
        }
      }
      return INSTANCE_NOT_FOUND;
    }

    function GetFileCursor(fd: nat): (r: int)
      reads this
      ensures r == INSTANCE_NOT_FOUND <==> fd !in fileCursors
    {
      if fd in fileCursors then fileCursors[fd].offset else INSTANCE_NOT_FOUND
    }

    /** Moves a cursor, to the end of the file at most. When the file is gone, the size that the
        offset is compared with was never filled in. */
    method SetFileCursor(fd: nat, offset: nat, client: Client, files: PersistentMetadataTable) returns (r: int)
      requires Valid()
      modifies this`fileCursors
      ensures Valid()
      ensures fd !in old(fileCursors) ==> r == INSTANCE_NOT_FOUND && fileCursors == old(fileCursors)
      ensures fd in old(fileCursors) && old(fileCursors)[fd].client != client ==>
                r == WRONG_CLIENT && fileCursors == old(fileCursors)
      ensures fd in old(fileCursors) && old(fileCursors)[fd].client == client ==>
                var inst := old(fileCursors)[fd];
                && 0 <= r <= offset
                && fileCursors == old(fileCursors)[fd := inst.(offset := r)]
                && (inst.fileId in files.metadata ==>
                      var size := files.metadata[inst.fileId].size;
                      r == if offset > size then size else offset)
    {
      if fd in fileCursors {
        if fileCursors[fd].client == client {
          var inst := fileCursors[fd];
          var found, info := files.StatById(inst.fileId);
          var size := info.size;
          if found == FILE_NOT_FOUND {
            size := UnspecifiedSize();
          }
          r := if offset > size then size else offset;
          fileCursors := fileCursors[fd := inst.(offset := r)];
          return;
        } else {
          return WRONG_CLIENT;
        }
      }
      return INSTANCE_NOT_FOUND;
    }
  }

  /** A size that nobody has filled in. */
  method UnspecifiedSize() returns (n: nat) {
    n := 0;
  }

  // ---------------------------------------------------------------------------
  // Cursors and file sizes
  // ---------------------------------------------------------------------------

  /** No cursor of an existing file is past the end of that file, and ids of deleted files, which
      old cursors may still name, are not given to new files. */
  ghost predicate CursorsInside(cursors: map<nat, FileInstance>, files: map<int, FileInfo>, nextFileId: nat) {
    && (forall id :: id in files ==> id <= nextFileId)
    && (forall fd :: fd in cursors ==>
          && cursors[fd].fileId <= nextFileId
          && (cursors[fd].fileId in files ==> cursors[fd].offset <= files[cursors[fd].fileId].size))
  }
}
