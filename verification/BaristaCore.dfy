/** The Barista server: clients read and write files by descriptor, and the files are striped over
    chunks, each of which is kept on two nodes. */
module BaristaCore {
  import opened EspressoStorage
  import opened Nodes
  import opened Striping
  import opened FileChunks
  import opened PersistentMetadata
  import opened VolatileMetadata
  import opened LockingStrategy
  import opened Requests
  import opened WriteRequests
  import opened ReadRequests
  import opened DeleteRequests
  import opened Acknowledgements
  import opened IoManager
  import opened FlatFile
  import opened FlatReads
  import opened OpenFiles
  import opened BaristaState

  const FILE_IN_USE: int := -1
  const FILE_NOT_OPEN_FOR_WRITE: int := -2
  const FILE_NOT_OPEN_FOR_READ: int := -3
  const UNABLE_TO_STAT_FILE: int := -4
  const FILE_NOT_FOUND_FOR_READING: int := -5

  const MAX_OFFSET: nat := 0xFFFF_FFFF

  datatype Whence = SeekSet | SeekCur | SeekEnd

  /** Where a seek leads in a file of `size` bytes. */
  function SoughtOffset(cursor: nat, offset: nat, whence: Whence, size: nat): nat {
    var wanted := match whence
                  case SeekSet => offset
                  case SeekCur => (cursor + offset) % (MAX_OFFSET + 1)
                  case SeekEnd => MAX_OFFSET;
    if wanted > size then size else wanted
  }

  /** A seek to a place ends there, or at the end of the file if that comes first; a seek to the end ends at the
      end, as far as 32 bits go; and a seek forward, if it does not overflow, or by the 32-bit form of a negative
      distance, ends that far from where it began. */
  ghost predicate LandsAt(at: int, cursor: nat, offset: nat, whence: Whence, size: nat) {
    && (whence == SeekSet ==> at == Min(offset, size))
    && (whence == SeekEnd ==> at == Min(size, MAX_OFFSET))
    && (whence == SeekCur && cursor + offset <= MAX_OFFSET ==> at == Min(cursor + offset, size))
    && var distance := MAX_OFFSET + 1 - offset;
       whence == SeekCur && 0 < distance <= cursor <= Min(size, MAX_OFFSET) ==> at == cursor - distance
  }

  lemma SeekLands(cursor: nat, offset: nat, whence: Whence, size: nat)
    requires offset <= MAX_OFFSET
    ensures LandsAt(SoughtOffset(cursor, offset, whence, size), cursor, offset, whence, size)
  {
    var distance := MAX_OFFSET + 1 - offset;
    if distance <= cursor <= Min(size, MAX_OFFSET) {
      SeekBack(cursor, distance, size);
    }
  }

  /** Seeking by the 32-bit form of a negative distance goes back by that distance. */
  lemma SeekBack(cursor: nat, distance: nat, size: nat)
    requires 0 < distance <= cursor <= Min(size, MAX_OFFSET)
    ensures SoughtOffset(cursor, MAX_OFFSET + 1 - distance, SeekCur, size) == cursor - distance
  {
    assert (cursor - distance + (MAX_OFFSET + 1)) % (MAX_OFFSET + 1) == cursor - distance;
  }

  /** What a call tells its client at once. A request that was accepted is answered later, when
      all its responses are in. */
  datatype Reply = Replied(fd: int, value: int) | Accepted

  lemma WriteOnlyMoves(s: Snapshot, w: Writing, at: nat, z: Sizes)
    requires Open(s, w) && Positive(z)
    ensures SameOpen(s.cursors, AfterWrite(s, w, at, z).cursors)
    ensures s.files.Keys <= AfterWrite(s, w, at, z).files.Keys
  {
  }

  /** A write moves the cursor of its own client behind what was written, and makes the file that much longer. */
  lemma WriteMoves(s: Snapshot, w: Writing, at: nat, z: Sizes)
    requires Open(s, w) && Positive(z)
    ensures var s', stat, inst, n := AfterWrite(s, w, at, z), s.files[w.ctx.fileId], s.cursors[w.fd], |w.ctx.buf|;
            && s'.files == s.files[w.ctx.fileId := stat.(size := stat.size + n)]
            && s'.cursors == if inst.client == w.client then s.cursors[w.fd := inst.(offset := inst.offset + n)]
                             else s.cursors
  {
  }

  lemma BufferIsWritten(s: Snapshot, s': Snapshot, flats: Flats, flats': Flats, lastId: nat, fd: nat, buf: seq<byte>,
                        client: Client)
    requires fd in s.cursors && s.cursors[fd].fileId in s.files && s.cursors[fd].fileId in flats
    requires var f, at := s.cursors[fd].fileId, s.cursors[fd].offset;
             var w := Writing(fd, client, WriteContext(f, WriteRequest(lastId + 1, lastId + 2), buf));
             && Positive(SizesOf(s.files[f])) && Open(s, w) && s' == AfterWrite(s, w, at, SizesOf(s.files[f]))
             && flats' == flats[f := FlatWrite(flats[f], at, buf)]
             && (Dense(flats'[f], s.files[f].size + |buf|) <==>
                   Dense(flats[f], s.files[f].size) && at == s.files[f].size)
    ensures BufferWritten(s, s', flats, flats', lastId, fd, buf, client)
  {
    hide AfterWrite, FlatWrite, Dense;
    var f, at := s.cursors[fd].fileId, s.cursors[fd].offset;
    WriteMoves(s, Writing(fd, client, WriteContext(f, WriteRequest(lastId + 1, lastId + 2), buf)), at,
               SizesOf(s.files[f]));
  }

  lemma ReadOnlyMoves(cursors: map<nat, FileInstance>, fd: nat, client: Client, n: nat, size: nat)
    ensures SameOpen(cursors, Clamped(cursors, fd, client, n, size))
  {
  }

  class Barista {
    const stripeSize: nat
    const chunkSize: nat
    const files: PersistentMetadataTable
    const volatile: VolatileMetadataTable
    const locks: LockTable
    const net: Network
    const writeTable: WriteRequestTable
    const readTable: ReadRequestTable
    const deleteTable: DeleteRequestTable
    const io: IoManagerTable

    // the bytes that were written to each file
    ghost var flats: Flats

    predicate Wired() {
      && io.net == net && io.volatile == volatile && io.writeTable == writeTable && io.readTable == readTable
      && io.deleteTable == deleteTable && deleteTable.files == files && deleteTable.locks == locks
      && 0 < stripeSize && 0 < chunkSize
    }

    ghost predicate Valid()
      reads this, files, volatile, net, writeTable, readTable, deleteTable, io
    {
      && Wired()
      && io.Valid() && deleteTable.Valid()
      && writeTable.lastId <= volatile.requestId
      && readTable.lastId <= volatile.requestId
      && deleteTable.lastId <= volatile.requestId
      && CursorsInside(volatile.fileCursors, files.metadata, files.nextFileId)
      && AllStored(io.Io(), files.metadata, flats) && SentBefore(net.sent, files.nextFileId)
    }

    /** The descriptors, the locks and the pending deletes fit together. */
    ghost predicate Disciplined()
      reads volatile`fileCursors, files`metadata, locks, deleteTable`active
    {
      LocksMatch(volatile.fileCursors, files.metadata, locks.fileLocks, deleteTable.active)
    }

    /** A server that is started for the first time. */
    constructor (stripeSize: nat, chunkSize: nat, io: IoManagerTable)
      requires 0 < stripeSize && 0 < chunkSize
      requires io.Valid() && io.deleteTable.Valid()
      requires io.chunkToNode == map[] && io.chunkToReplicaNode == map[] && io.stale == {} && io.net.sent == []
      requires io.volatile.fileCursors == map[] && io.deleteTable.files.metadata == map[]
      requires io.writeTable.lastId == io.readTable.lastId == io.deleteTable.lastId == io.volatile.requestId
      ensures Valid() && Wired() && this.stripeSize == stripeSize && this.chunkSize == chunkSize && this.io == io
      ensures locks == io.deleteTable.locks
              && (locks.fileLocks == map[] && io.deleteTable.active == map[] ==> Disciplined())
    {
      this.stripeSize, this.chunkSize, this.io := stripeSize, chunkSize, io;
      files, locks := io.deleteTable.files, io.deleteTable.locks;
      volatile, net := io.volatile, io.net;
      writeTable, readTable, deleteTable := io.writeTable, io.readTable, io.deleteTable;
      flats := map[];
      new;
      hide Inv, ReadInv, DeleteInv, MutuallyInverse, AllStored, CursorsInside, LocksMatch;
      hide IoManagerTable.Placed, Acknowledged;
      NothingStored(volatile.upNodes, net.reachable, files.nextFileId);
      NothingOpen();
    }

    /** What is known of a descriptor. One that is not open stands for file 0, which no file is. */
    function GetFileInfo(fd: nat): FileInstance
      reads volatile
    {
      InstanceOf(volatile.fileCursors, fd)
    }

    ghost function Snap(): Snapshot
      reads this, files, volatile, net, writeTable, io, io.net, io.volatile`upNodes
    {
      Snapshot(io.Io(), writeTable.ledger, files.metadata, volatile.fileCursors)
    }

    // -------------------------------------------------------------------------
    // Writing
    // -------------------------------------------------------------------------

    /** One stripe of a write. The file is taken to grow, and the cursor moves along. */
    method WriteStripe(ghost w: Writing, request: WriteRequest, fd: nat, fileId: int, buf: seq<byte>, client: Client,
                       stripeId: nat, stripeSize: nat, chunkSize: nat, start: nat, stripeOffset: nat, writeSize: nat)
      returns (chunksWritten: nat, replicaChunksWritten: nat)
      requires Wired() && io.Valid() && files.Valid()
      requires 0 < chunkSize
      requires io.Writable(fileId, StripeFragments(stripeId, stripeOffset, start, writeSize, chunkSize))
      requires w == Writing(fd, client, WriteContext(fileId, request, buf)) && MayWrite(Snap(), w)
      requires writeSize <= stripeSize && start + writeSize <= |buf|
      modifies io`chunkToNode, io`chunkToReplicaNode, io`stale, net`sent, files`metadata, volatile`fileCursors
      modifies volatile`upNodes, writeTable`inFlight, writeTable`arrived, writeTable`ledger, writeTable`lookups
      modifies writeTable`active, writeTable`results, writeTable`answers
      ensures io.Valid() && files.Valid() && forall c :: old(io.CanWrite(c)) ==> io.CanWrite(c)
      ensures var fs := StripeFragments(stripeId, stripeOffset, start, writeSize, chunkSize);
              && AllInBuffer(fs, buf)
              && Snap() == AfterFragments(old(Snap()), w, fs, writeSize)
              && chunksWritten == replicaChunksWritten == |fs|
    {
      hide Inv, ReadInv, IssueWrite, IssueWrites, StripeFragments, MutuallyInverse, CountFragments, LostCopies;
      hide IoManagerTable.CanWrite, IoManagerTable.Placed, Acknowledged;
      chunksWritten, replicaChunksWritten := io.ProcessWriteStripe(request, fileId, stripeId, stripeSize, chunkSize,
                                                                   buf, start, stripeOffset, writeSize);
      var size := files.UpdateFileSize(fileId, writeSize);
      var cursor := volatile.SetFileCursor(fd, volatile.GetFileCursor(fd) + writeSize, client, files);
    }

    /** The same, after the fragments `done` were written. */
    method WriteNextStripe(ghost before: Snapshot, ghost w: Writing, ghost done: seq<Fragment>, request: WriteRequest,
                           fd: nat, fileId: int, buf: seq<byte>, client: Client, stripeId: nat, stripeSize: nat,
                           chunkSize: nat, start: nat, stripeOffset: nat, writeSize: nat)
      returns (chunksWritten: nat, replicaChunksWritten: nat)
      requires Wired() && io.Valid() && files.Valid()
      requires 0 < chunkSize
      requires io.Writable(fileId, StripeFragments(stripeId, stripeOffset, start, writeSize, chunkSize))
      requires w == Writing(fd, client, WriteContext(fileId, request, buf)) && MayWrite(before, w)
      requires AllInBuffer(done, buf) && Snap() == AfterFragments(before, w, done, start)
      requires writeSize <= stripeSize && start + writeSize <= |buf|
      modifies io`chunkToNode, io`chunkToReplicaNode, io`stale, net`sent, files`metadata, volatile`fileCursors
      modifies volatile`upNodes, writeTable`inFlight, writeTable`arrived, writeTable`ledger, writeTable`lookups
      modifies writeTable`active, writeTable`results, writeTable`answers
      ensures io.Valid() && files.Valid() && forall c :: old(io.CanWrite(c)) ==> io.CanWrite(c)
      ensures var fs := StripeFragments(stripeId, stripeOffset, start, writeSize, chunkSize);
              && AllInBuffer(done + fs, buf)
              && Snap() == AfterFragments(before, w, done + fs, start + writeSize)
              && chunksWritten == replicaChunksWritten == |fs|
    {
      hide StripeFragments, AfterFragments, MayWrite, IoManagerTable.Valid, PersistentMetadataTable.Valid,
           IoManagerTable.Writable, IoManagerTable.CanWrite;
      StillMayWrite(before, w, done, start);
      chunksWritten, replicaChunksWritten := WriteStripe(w, request, fd, fileId, buf, client, stripeId, stripeSize,
                                                         chunkSize, start, stripeOffset, writeSize);
      MoreFragments(before, w, done, start, StripeFragments(stripeId, stripeOffset, start, writeSize, chunkSize),
                    writeSize);
    }

    /** All stripes of a write, one after the other. */
    method WriteStripes(ghost w: Writing, request: WriteRequest, fd: nat, stat: FileInfo, fileOffset: nat,
                        buf: seq<byte>, client: Client)
      returns (numChunks: nat, numReplicaChunks: nat)
      requires Wired() && io.Valid() && files.Valid() && Positive(SizesOf(stat))
      requires io.Writable(stat.fileId, RangeOf(stat, fileOffset, |buf|))
      requires w == Writing(fd, client, WriteContext(stat.fileId, request, buf)) && MayWrite(Snap(), w)
      modifies io`chunkToNode, io`chunkToReplicaNode, io`stale, net`sent, files`metadata, volatile`fileCursors
      modifies volatile`upNodes, writeTable`inFlight, writeTable`arrived, writeTable`ledger, writeTable`lookups
      modifies writeTable`active, writeTable`results, writeTable`answers
      ensures io.Valid() && files.Valid()
      ensures var fs := Fragments(fileOffset, |buf|, stat.stripeSize, stat.chunkSize);
              && AllInBuffer(fs, buf)
              && Snap() == AfterFragments(old(Snap()), w, fs, |buf|)
              && numChunks == numReplicaChunks == |fs|
    {
      hide StripeFragments, AfterFragments, MayWrite, AllInBuffer, Fragments, FirstUnit, DoneUpTo;
      hide IoManagerTable.Valid, PersistentMetadataTable.Valid, IoManagerTable.CanWrite;
      numChunks, numReplicaChunks := 0, 0;
      var bytesWritten: nat := 0;
      var stripeId, stripeOffset := GetFirstStripe(stat.stripeSize, fileOffset);
      ghost var z, count, done := SizesOf(stat), |buf|, [];
      ghost var fs := Fragments(fileOffset, |buf|, stat.stripeSize, stat.chunkSize);
      ghost var before := Snap();
      NoFragmentsYet(before, w);
      NothingDone(fileOffset, count, z, stripeId, stripeOffset);
      while bytesWritten < |buf|
        invariant io.Valid() && files.Valid() && bytesWritten <= |buf| && 0 <= stripeOffset <= stat.stripeSize
        invariant forall c :: old(io.CanWrite(c)) ==> io.CanWrite(c)
        invariant DoneUpTo(fs, done, stripeId, stripeOffset, bytesWritten, count, z)
        invariant AllInBuffer(done, buf) && Snap() == AfterFragments(before, w, done, bytesWritten)
        invariant numChunks == numReplicaChunks == |done|
        decreases |buf| - bytesWritten, stripeOffset
      {
        var writeSize := if |buf| - bytesWritten > stat.stripeSize - stripeOffset then stat.stripeSize - stripeOffset
                         else |buf| - bytesWritten;
        OneStripeDone(fs, done, stripeId, stripeOffset, bytesWritten, count, z, writeSize);
        DoneAreIn(fs, done + StripeFragments(stripeId, stripeOffset, bytesWritten, writeSize, stat.chunkSize),
                  stripeId + 1, 0, bytesWritten + writeSize, count, z);
        var chunksWritten, replicaChunksWritten :=
          WriteNextStripe(before, w, done, request, fd, stat.fileId, buf, client, stripeId, stat.stripeSize,
                          stat.chunkSize, bytesWritten, stripeOffset, writeSize);
        done := done + StripeFragments(stripeId, stripeOffset, bytesWritten, writeSize, stat.chunkSize);
        numChunks := numChunks + chunksWritten;
        numReplicaChunks := numReplicaChunks + replicaChunksWritten;
        stripeOffset := 0;
        bytesWritten := bytesWritten + writeSize;
        stripeId := stripeId + 1;
      }
      AllDone(fs, done, stripeId, stripeOffset, count, z);
    }

    /** Sends a write: registers it, issues all its fragments, and says how many there were. */
    method SendWrite(ghost w: Writing, request: WriteRequest, fd: nat, stat: FileInfo, fileOffset: nat,
                     buf: seq<byte>, client: Client)
      requires Wired() && io.Valid() && files.Valid() && Positive(SizesOf(stat)) && buf != []
      requires io.Writable(stat.fileId, RangeOf(stat, fileOffset, |buf|))
      requires w == Writing(fd, client, WriteContext(stat.fileId, request, buf)) && Open(Snap(), w)
      requires writeTable.lastId < request.requestId < request.replicaRequestId
      modifies io`chunkToNode, io`chunkToReplicaNode, io`stale, net`sent, files`metadata, volatile`fileCursors,
               volatile`upNodes, writeTable
      ensures io.Valid() && files.Valid() && writeTable.lastId == request.replicaRequestId
      ensures Snap() == AfterWrite(old(Snap()), w, fileOffset, SizesOf(stat))
    {
      hide Inv, ReadInv, MutuallyInverse, IssueWrites, Fragments, Longer, Advanced, FirstUnit, IoManagerTable.Placed,
           AfterFragments, AfterWrite, RangeOf, LostCopies, IoManagerTable.CanWrite, Acknowledged;
      ghost var before, s := Snap(), writeTable.StateNow();
      BegunAcknowledged(net.sent, s, Begin(request, client, stat.fileId, fd));
      writeTable.BeginRequest(request, client, stat.fileId, fd);
      ghost var begun := Snap();
      var numChunks, numReplicaChunks := WriteStripes(w, request, fd, stat, fileOffset, buf, client);
      AfterFinish(before, begun, w, fileOffset, SizesOf(stat), Snap());
      s := writeTable.StateNow();
      writeTable.FinishRequest(request, numChunks, numReplicaChunks);
      StillAcknowledged(net.sent, s, writeTable.StateNow());
    }

    /** A write that has passed all checks. */
    method AcceptWrite(request: WriteRequest, fd: nat, stat: FileInfo, fileOffset: nat, buf: seq<byte>, client: Client)
      requires Valid() && buf != [] && io.Writable(stat.fileId, RangeOf(stat, fileOffset, |buf|))
      requires writeTable.lastId < request.requestId < request.replicaRequestId == volatile.requestId
      requires fd in volatile.fileCursors && volatile.fileCursors[fd].offset == fileOffset
      requires volatile.fileCursors[fd].fileId in files.metadata
               && files.metadata[volatile.fileCursors[fd].fileId] == stat
      modifies this`flats, io`chunkToNode, io`chunkToReplicaNode, io`stale, net`sent, files`metadata
      modifies volatile`fileCursors, volatile`upNodes, writeTable
      ensures Valid()
      ensures Positive(SizesOf(stat)) && stat.fileId == old(volatile.fileCursors)[fd].fileId
              && stat.fileId in old(flats)
      ensures flats == old(flats)[stat.fileId := FlatWrite(old(flats)[stat.fileId], fileOffset, buf)]
      ensures Dense(flats[stat.fileId], stat.size + |buf|) <==>
                Dense(old(flats)[stat.fileId], stat.size) && fileOffset == stat.size
      ensures var w := Writing(fd, client, WriteContext(stat.fileId, request, buf));
              Open(old(Snap()), w) && Snap() == AfterWrite(old(Snap()), w, fileOffset, SizesOf(stat))
    {
      hide Inv, ReadInv, DeleteInv, MutuallyInverse, AfterWrite, FlatWrite, AllStored, CursorsInside, Dense, SentBefore;
      hide IoManagerTable.Placed, IoManagerTable.Writable, RangeOf;
      IdOfEntry(files.pathnameToFileId, files.metadata, volatile.fileCursors[fd].fileId);
      CursorInside(volatile.fileCursors, files.metadata, files.nextFileId, fd);
      ghost var w := Writing(fd, client, WriteContext(stat.fileId, request, buf));
      WriteKeepsPromises(Snap(), w, fileOffset, flats, files.nextFileId);
      SendWrite(w, request, fd, stat, fileOffset, buf, client);
      flats := flats[stat.fileId := FlatWrite(flats[stat.fileId], fileOffset, buf)];
    }

    /** The entry of a file has its id. */
    lemma FileIdIs(id: int)
      requires Valid() && id in files.metadata
      ensures files.metadata[id].fileId == id
    {
      hide Inv, ReadInv, DeleteInv, AllStored, CursorsInside, SentBefore, IoManagerTable.Valid;
    }

    /** A request id above all that are in use. */
    method NewRequestId() returns (id: nat)
      requires Valid()
      modifies volatile`requestId
      ensures Valid() && id == volatile.requestId == old(volatile.requestId) + 1
      ensures writeTable.lastId < id && readTable.lastId < id && deleteTable.lastId < id && id !in deleteTable.active
    {
      ActiveDeletesOld(deleteTable.StateNow());
      hide Inv, ReadInv, DeleteInv, MutuallyInverse, AllStored, IoManagerTable.Placed, CursorsInside;
      id := volatile.GetNewRequestId();
    }

    /** Writes a buffer at the cursor of a descriptor. */
    method WriteFile(fd: nat, buf: seq<byte>, client: Client) returns (reply: Reply)
      requires Valid() && Proper(client) && 0 < fd
      requires WritePasses(locks.fileLocks, files.metadata, volatile.fileCursors, fd, buf, client) ==>
                 var inst := GetFileInfo(fd);
                 io.Writable(inst.fileId, RangeOf(files.metadata[inst.fileId], inst.offset, |buf|))
      modifies this`flats, io`chunkToNode, io`chunkToReplicaNode, io`stale, net`sent, files`metadata
      modifies volatile`fileCursors, volatile`upNodes, volatile`requestId, writeTable
      ensures Valid() && volatile.requestId == old(volatile.requestId) + 2
      ensures var inst := old(GetFileInfo(fd));
              reply == if !Holds(locks.fileLocks, client, inst.fileId, Exclusive)
                         then Replied(0, FILE_NOT_OPEN_FOR_WRITE)
                       else if inst.fileId !in old(files.metadata) then Replied(0, UNABLE_TO_STAT_FILE)
                       else if fd !in old(volatile.fileCursors) then Replied(0, FILE_NOT_OPEN_FOR_WRITE)
                       else if buf == [] then Replied(0, 0)
                       else Accepted
      ensures reply.Accepted? <==>
                old(WritePasses(locks.fileLocks, files.metadata, volatile.fileCursors, fd, buf, client))
      ensures reply.Replied? ==>
                Snap() == old(Snap()) && flats == old(flats) && writeTable.StateNow() == old(writeTable.StateNow())
      ensures reply.Accepted? ==>
                BufferWritten(old(Snap()), Snap(), old(flats), flats, old(volatile.requestId), fd, buf, client)
      ensures old(Disciplined()) ==> Disciplined()
    {
      hide Valid, AfterWrite, FlatWrite, Holds, LocksMatch, Dense, RangeOf, IoManagerTable.Writable, Open,
           BufferWritten;
      ghost var disciplined, cursors, metadata := Disciplined(), volatile.fileCursors, files.metadata;
      ghost var lastId := volatile.requestId;
      var requestId := NewRequestId();
      var replicaRequestId := NewRequestId();
      var request := WriteRequest(requestId, replicaRequestId);
      var inst := GetFileInfo(fd);
      var has := locks.HasExclusiveLock(client, inst.fileId);
      if has <= 0 {
        return Replied(0, FILE_NOT_OPEN_FOR_WRITE);
      }
      var found, stat := files.StatById(inst.fileId);
      if found < 0 {
        return Replied(0, UNABLE_TO_STAT_FILE);
      }
      var fileOffset := volatile.GetFileCursor(fd);
      if fileOffset < 0 {
        return Replied(0, FILE_NOT_OPEN_FOR_WRITE);
      }
      if |buf| == 0 {
        return Replied(0, 0);
      }
      FileIdIs(inst.fileId);
      ghost var w, before, wasFlats := Writing(fd, client, WriteContext(stat.fileId, request, buf)), Snap(), flats;
      AcceptWrite(request, fd, stat, fileOffset, buf, client);
      BufferIsWritten(before, Snap(), wasFlats, flats, lastId, fd, buf, client);
      if disciplined {
        WriteOnlyMoves(before, w, fileOffset, SizesOf(stat));
        OnlyMoved(cursors, volatile.fileCursors, metadata, files.metadata, locks.fileLocks, deleteTable.active);
      }
      return Accepted;
    }

    // -------------------------------------------------------------------------
    // Reading
    // -------------------------------------------------------------------------

    /** One stripe of a read. The cursor moves along, to the end of the file at most. */
    method ReadStripe(requestId: nat, fd: nat, stat: FileInfo, client: Client, stripeId: nat, start: nat,
                      stripeOffset: nat, readSize: nat)
      returns (numChunks: nat, ghost pieces: seq<Response>)
      requires Wired() && io.Valid() && 0 < stat.chunkSize && readSize <= stat.stripeSize
      requires io.Readable(stat.fileId, Present(io.chunkToNode, stat.fileId, StripeFragments(
                           stripeId, stripeOffset, start, readSize, stat.chunkSize)))
      requires requestId in readTable.ledger && !readTable.ledger[requestId].finished
      requires forall chunkId :: AllBefore(readTable.ledger[requestId].issued,
                                           FileChunk(stat.fileId, stripeId, chunkId))
      requires stat.fileId in files.metadata && files.metadata[stat.fileId] == stat
      requires fd in volatile.fileCursors && volatile.fileCursors[fd].fileId == stat.fileId
      modifies net`sent, volatile`upNodes, volatile`fileCursors
      modifies readTable`inFlight, readTable`ledger, readTable`active, readTable`results, readTable`answers
      ensures io.Valid() && OnlyReads(old(io.Io()), io.Io()) && forall c :: old(io.CanRead(c)) ==> io.CanRead(c)
      ensures var now := Present(io.chunkToNode, stat.fileId,
                                 StripeFragments(stripeId, stripeOffset, start, readSize, stat.chunkSize));
              numChunks == |pieces| == |now| && ServesAll(old(io.Io()), stat.fileId, now, pieces)
      ensures PiecesIssued(old(readTable.ledger), readTable.ledger, requestId, pieces)
      ensures volatile.fileCursors == Clamped(old(volatile.fileCursors), fd, client, readSize, stat.size)
    {
      hide Inv, ReadInv, StripeFragments, Present, ServesAll, PiecesIssued, AllBefore, OnlyReads;
      hide IoManagerTable.Placed, IoManagerTable.CanRead;
      numChunks, pieces := io.ProcessReadStripe(requestId, stat.fileId, stripeId, stat.stripeSize, stat.chunkSize,
                                                start, stripeOffset, readSize);
      var cursor := volatile.SetFileCursor(fd, volatile.GetFileCursor(fd) + readSize, client, files);
    }

    /** All stripes of a read, one after the other. */
    method ReadStripes(requestId: nat, fd: nat, stat: FileInfo, fileOffset: nat, count: nat, client: Client)
      returns (numChunks: nat, ghost pieces: seq<Response>)
      requires Wired() && io.Valid() && Positive(SizesOf(stat))
      requires io.Readable(stat.fileId, Asked(io.chunkToNode, stat.fileId, fileOffset, count, SizesOf(stat)))
      requires requestId in readTable.ledger && !readTable.ledger[requestId].finished
               && readTable.ledger[requestId].issued == []
      requires stat.fileId in files.metadata && files.metadata[stat.fileId] == stat
      requires fd in volatile.fileCursors && volatile.fileCursors[fd].fileId == stat.fileId
      requires volatile.fileCursors[fd].offset <= stat.size
      modifies net`sent, volatile`upNodes, volatile`fileCursors
      modifies readTable`inFlight, readTable`ledger, readTable`active, readTable`results, readTable`answers
      ensures io.Valid() && OnlyReads(old(io.Io()), io.Io())
      ensures var asked := Asked(io.chunkToNode, stat.fileId, fileOffset, count, SizesOf(stat));
              numChunks == |pieces| == |asked| && ServesAll(old(io.Io()), stat.fileId, asked, pieces)
      ensures PiecesIssued(old(readTable.ledger), readTable.ledger, requestId, pieces)
      ensures volatile.fileCursors == Clamped(old(volatile.fileCursors), fd, client, count, stat.size)
    {
      hide ReadUpTo, StripeFragments, FirstUnit, Asked, Present, ServesAll, PiecesIssued, AllBefore, OnlyReads,
           Clamped;
      hide IoManagerTable.Valid, IoManagerTable.CanRead;
      numChunks, pieces := 0, [];
      var bytesRead: nat := 0;
      var stripeId, stripeOffset := GetFirstStripe(stat.stripeSize, fileOffset);
      ghost var z, id, before, l, asked := SizesOf(stat), stat.fileId, io.Io(), readTable.ledger, [];
      ClampedNone(volatile.fileCursors, fd, client, stat.size);
      ReadStarts(before, l, requestId, id, stripeId, stripeOffset, count, z, fileOffset);
      while bytesRead < count
        invariant io.Valid() && forall c :: old(io.CanRead(c)) ==> io.CanRead(c)
        invariant bytesRead <= count && 0 <= stripeOffset <= stat.stripeSize
        invariant ReadUpTo(before, io.Io(), l, readTable.ledger, requestId, id, stripeId, stripeOffset, bytesRead,
                           count, z, fileOffset, asked, pieces)
        invariant numChunks == |pieces| == |asked|
        invariant volatile.fileCursors == Clamped(old(volatile.fileCursors), fd, client, bytesRead, stat.size)
        invariant fd in volatile.fileCursors && volatile.fileCursors[fd].fileId == stat.fileId
        decreases count - bytesRead, stripeOffset
      {
        var readSize := if count - bytesRead > stat.stripeSize - stripeOffset then stat.stripeSize - stripeOffset
                        else count - bytesRead;
        ghost var mid, l' := io.Io(), readTable.ledger;
        ReadUpToNow(before, mid, l, l', requestId, id, stripeId, stripeOffset, bytesRead, count, z, fileOffset,
                    asked, pieces);
        ClampedTwice(old(volatile.fileCursors), fd, client, bytesRead, readSize, stat.size);
        ClampedOpen(volatile.fileCursors, fd, client, readSize, stat.size);
        var n, more := ReadStripe(requestId, fd, stat, client, stripeId, bytesRead, stripeOffset, readSize);
        ReadStripeStep(before, mid, io.Io(), l, l', readTable.ledger, requestId, id, stripeId, stripeOffset,
                       bytesRead, count, z, fileOffset, asked, pieces, readSize, more);
        ghost var stripe := StripeFragments(stripeId, stripeOffset, bytesRead, readSize, z.chunkSize);
        asked := asked + Present(before.nodes, id, stripe);
        pieces := pieces + more;
        numChunks := numChunks + n;
        stripeOffset := 0;
        bytesRead := bytesRead + readSize;
        stripeId := stripeId + 1;
      }
      ReadEnds(before, io.Io(), l, readTable.ledger, requestId, id, stripeId, stripeOffset, count, z, fileOffset,
               asked, pieces);
    }

    /** Sends a read: registers it, asks for all pieces there are, and says how many that were. With
        no piece at all it is left as it is, and will not be answered. */
    method SendRead(requestId: nat, fd: nat, stat: FileInfo, fileOffset: nat, count: nat, client: Client)
      requires Wired() && io.Valid() && Positive(SizesOf(stat))
      requires io.Readable(stat.fileId, Asked(io.chunkToNode, stat.fileId, fileOffset, count, SizesOf(stat)))
      requires readTable.lastId < requestId
      requires stat.fileId in files.metadata && files.metadata[stat.fileId] == stat
      requires fd in volatile.fileCursors && volatile.fileCursors[fd].fileId == stat.fileId
      requires volatile.fileCursors[fd].offset <= stat.size
      modifies net`sent, volatile`upNodes, volatile`fileCursors, readTable
      ensures io.Valid() && OnlyReads(old(io.Io()), io.Io()) && readTable.lastId == requestId
      ensures ReadSent(old(io.Io()), old(readTable.ledger), readTable.ledger, requestId, fd, client, stat.fileId,
                       Asked(io.chunkToNode, stat.fileId, fileOffset, count, SizesOf(stat)))
      ensures volatile.fileCursors == Clamped(old(volatile.fileCursors), fd, client, count, stat.size)
    {
      hide Inv, ReadInv, Asked, ServesAll, OnlyReads, Clamped, ReadSent;
      hide IoManagerTable.Placed, IoManagerTable.Readable, RangeOf;
      ghost var before, l := io.Io(), readTable.ledger;
      readTable.BeginRequest(requestId, client, stat.fileId, fd);
      ghost var l' := readTable.ledger;
      var numChunks, pieces := ReadStripes(requestId, fd, stat, fileOffset, count, client);
      ghost var l'' := readTable.ledger;
      ReadIsSent(before, l, l', l'', requestId, fd, client, stat.fileId,
                 Asked(io.chunkToNode, stat.fileId, fileOffset, count, SizesOf(stat)), pieces);
      if 0 < numChunks {
        readTable.FinishRequest(requestId, numChunks);
      }
    }

    /** A read that has passed all checks. */
    method AcceptRead(requestId: nat, fd: nat, stat: FileInfo, fileOffset: nat, count: nat, client: Client)
      requires Valid() && readTable.lastId < requestId == volatile.requestId
      requires fd in volatile.fileCursors && volatile.fileCursors[fd].offset == fileOffset
      requires volatile.fileCursors[fd].fileId in files.metadata
               && files.metadata[volatile.fileCursors[fd].fileId] == stat
      requires 0 < stat.stripeSize && 0 < stat.chunkSize ==>
                 io.Readable(stat.fileId, Asked(io.chunkToNode, stat.fileId, fileOffset, count, SizesOf(stat)))
      modifies net`sent, volatile`upNodes, volatile`fileCursors, readTable
      ensures Valid() && OnlyReads(old(io.Io()), io.Io())
      ensures stat.fileId == old(volatile.fileCursors)[fd].fileId && stat.fileId in flats && Positive(SizesOf(stat))
      ensures volatile.fileCursors == Clamped(old(volatile.fileCursors), fd, client, count, stat.size)
      ensures ReadSent(old(io.Io()), old(readTable.ledger), readTable.ledger, requestId, fd, client, stat.fileId,
                       Asked(io.chunkToNode, stat.fileId, fileOffset, count, SizesOf(stat)))
      ensures AllFresh(old(io.Io()), stat.fileId, RangeOf(stat, fileOffset, count)) ==>
                KnownIsRead(flats[stat.fileId], stat.size, fileOffset, count, readTable.ledger, requestId)
    {
      hide Inv, ReadInv, DeleteInv, MutuallyInverse, AllStored, ReadSent, KnownIsRead, Asked, Clamped, CursorsInside;
      hide IoManagerTable.Placed, IoManagerTable.Readable, RangeOf, OnlyReads, SentBefore, AllFresh;
      IdOfEntry(files.pathnameToFileId, files.metadata, volatile.fileCursors[fd].fileId);
      ghost var before, l, cursors := io.Io(), readTable.ledger, volatile.fileCursors;
      StoredSizes(before, files.metadata, flats, stat.fileId);
      CursorInside(cursors, files.metadata, files.nextFileId, fd);
      SendRead(requestId, fd, stat, fileOffset, count, client);
      ClampedInside(cursors, files.metadata, files.nextFileId, fd, client, count);
      ReadsKeepAll(before, io.Io(), files.metadata, flats, files.nextFileId);
      if AllFresh(before, stat.fileId, RangeOf(stat, fileOffset, count)) {
        KnownRangeAnswered(before, files.metadata, flats, l, readTable.ledger, requestId, fd, client, stat.fileId,
                           fileOffset, count);
      }
    }

    /** Reads from the cursor of a descriptor. */
    method ReadFile(fd: nat, count: nat, client: Client) returns (reply: Reply)
      requires Valid() && Proper(client) && 0 < fd
      requires ReadPasses(locks.fileLocks, files.metadata, volatile.fileCursors, fd, count, client) ==>
                 var inst, stat := GetFileInfo(fd), files.metadata[GetFileInfo(fd).fileId];
                 0 < stat.stripeSize && 0 < stat.chunkSize ==>
                   io.Readable(inst.fileId, Asked(io.chunkToNode, inst.fileId, inst.offset, count, SizesOf(stat)))
      modifies net`sent, volatile`upNodes, volatile`fileCursors, volatile`requestId, readTable
      ensures Valid() && OnlyReads(old(io.Io()), io.Io()) && volatile.requestId == old(volatile.requestId) + 1
      ensures var inst := old(GetFileInfo(fd));
              reply == if !Holds(locks.fileLocks, client, inst.fileId, Exclusive)
                          && !Holds(locks.fileLocks, client, inst.fileId, Shared)
                         then Replied(0, FILE_NOT_OPEN_FOR_READ)
                       else if inst.fileId !in files.metadata then Replied(0, UNABLE_TO_STAT_FILE)
                       else if fd !in old(volatile.fileCursors) then Replied(0, FILE_NOT_OPEN_FOR_READ)
                       else if inst.offset >= files.metadata[inst.fileId].size || count == 0 then Replied(fd, 0)
                       else Accepted
      ensures reply.Accepted? <==>
                old(ReadPasses(locks.fileLocks, files.metadata, volatile.fileCursors, fd, count, client))
      ensures reply.Replied? ==>
                && io.Io() == old(io.Io()) && volatile.fileCursors == old(volatile.fileCursors)
                && readTable.StateNow() == old(readTable.StateNow())
      ensures reply.Accepted? ==>
                var inst, stat, requestId := old(GetFileInfo(fd)), files.metadata[old(GetFileInfo(fd)).fileId],
                  volatile.requestId;
                && inst.fileId in flats && Positive(SizesOf(stat))
                && volatile.fileCursors == Clamped(old(volatile.fileCursors), fd, client, count, stat.size)
                && volatile.fileCursors
                   == (if inst.client != client then old(volatile.fileCursors)
                       else old(volatile.fileCursors)[fd := inst.(offset := Min(inst.offset + count, stat.size))])
                && ReadSent(old(io.Io()), old(readTable.ledger), readTable.ledger, requestId, fd, client, inst.fileId,
                            Asked(io.chunkToNode, inst.fileId, inst.offset, count, SizesOf(stat)))
                && (AllFresh(old(io.Io()), inst.fileId, RangeOf(stat, inst.offset, count)) ==>
                      KnownIsRead(flats[inst.fileId], stat.size, inst.offset, count, readTable.ledger, requestId))
      ensures old(Disciplined()) ==> Disciplined()
    {
      hide Valid, ReadSent, KnownIsRead, Asked, Holds, ReadInv, LocksMatch, RangeOf, IoManagerTable.Readable,
           AllFresh, OnlyReads;
      NothingRead(io.Io());
      ghost var disciplined, cursors := Disciplined(), volatile.fileCursors;
      var requestId := NewRequestId();
      var inst := GetFileInfo(fd);
      var has := locks.HasExclusiveLock(client, inst.fileId);
      if has <= 0 {
        has := locks.HasSharedLock(client, inst.fileId);
        if has <= 0 {
          return Replied(0, FILE_NOT_OPEN_FOR_READ);
        }
      }
      var found, stat := files.StatById(inst.fileId);
      if found < 0 {
        return Replied(0, UNABLE_TO_STAT_FILE);
      }
      var fileOffset := volatile.GetFileCursor(fd);
      if fileOffset < 0 {
        return Replied(0, FILE_NOT_OPEN_FOR_READ);
      }
      if fileOffset >= stat.size || count == 0 {
        return Replied(fd, 0);
      }
      FileIdIs(inst.fileId);
      AcceptRead(requestId, fd, stat, fileOffset, count, client);
      if disciplined {
        ReadOnlyMoves(cursors, fd, client, count, stat.size);
        OnlyMoved(cursors, volatile.fileCursors, files.metadata, files.metadata, locks.fileLocks, deleteTable.active);
      }
      return Accepted;
    }

    // -------------------------------------------------------------------------
    // Opening, closing and seeking
    // -------------------------------------------------------------------------

    /** How new files are cut up. */
    function NewSizes(): Sizes {
      Sizes(stripeSize, chunkSize)
    }

    /** What a pathname stands for; a name that was refused stands for no file. */
    function FileNamed(pathname: string): int
      reads files
    {
      if pathname in files.pathnameToFileId then files.pathnameToFileId[pathname] else FILENAME_INVALID
    }

    lemma StillBefore(sent: seq<Packet>, last: int, last': int)
      requires SentBefore(sent, last) && last <= last'
      ensures SentBefore(sent, last')
    {
    }

    /** Makes a file that does not exist yet. */
    method CreateFile(pathname: string) returns (fileId: int)
      requires Valid() && pathname !in files.pathnameToFileId
      modifies this`flats, files
      ensures Valid() && fileId <= files.nextFileId && fileId == FileNamed(pathname)
      ensures FilesKept(old(files.metadata), files.metadata, old(flats), flats)
      ensures NewIds(old(files.metadata), files.metadata, old(files.nextFileId), files.nextFileId)
      ensures if |pathname| > MAX_FILENAME_LENGTH then
                fileId == FILENAME_INVALID && fileId !in files.metadata && files.metadata == old(files.metadata)
              else
                && 0 < fileId && fileId !in old(files.metadata)
                && files.metadata
                   == old(files.metadata)[fileId := FileInfo(fileId, 0, stripeSize, chunkSize, chunkSize, pathname)]
      ensures FoundOrMade(old(files.pathnameToFileId), files.pathnameToFileId, old(files.metadata), files.metadata,
                          old(files.nextFileId), files.nextFileId, pathname, true, NewSizes(), fileId)
    {
      hide Inv, ReadInv, DeleteInv, AllStored, CursorsInside, FilesKept, MutuallyInverse, IoManagerTable.Placed,
           SentBefore;
      ghost var metadata, nextFileId := files.metadata, files.nextFileId;
      fileId := files.AddFile(pathname, stripeSize, chunkSize, chunkSize);
      if 0 < fileId {
        ghost var info := FileInfo(fileId, 0, stripeSize, chunkSize, chunkSize, pathname);
        StillBefore(net.sent, nextFileId, fileId - 1);
        StillBefore(net.sent, nextFileId, fileId);
        NewFileStored(io.Io(), metadata, flats, info);
        NothingLostByNew(io.Io(), metadata, flats, info);
        NewFileCursors(volatile.fileCursors, metadata, nextFileId, info, files.nextFileId);
        flats := flats[fileId := map[]];
      } else {
        NothingLost(io.Io(), metadata, flats);
      }
    }

    /** The file that an open is about. A file that does not exist is created for writing. */
    method FindOrCreate(pathname: string, readWrite: bool) returns (fileId: int, size: nat)
      requires Valid()
      modifies this`flats, files
      ensures Valid() && fileId <= files.nextFileId
      ensures FilesKept(old(files.metadata), files.metadata, old(flats), flats)
      ensures NewIds(old(files.metadata), files.metadata, old(files.nextFileId), files.nextFileId)
      ensures pathname !in old(files.pathnameToFileId) && !readWrite ==> fileId == FILE_NOT_FOUND
      ensures pathname in old(files.pathnameToFileId) ==> FileNamed(pathname) == old(FileNamed(pathname))
      ensures pathname in old(files.pathnameToFileId) || readWrite ==>
                && fileId != FILE_NOT_FOUND && fileId == FileNamed(pathname)
                && (fileId in files.metadata || fileId == FILENAME_INVALID)
                && (fileId in files.metadata ==> files.metadata[fileId].size <= size)
      ensures FoundOrMade(old(files.pathnameToFileId), files.pathnameToFileId, old(files.metadata), files.metadata,
                          old(files.nextFileId), files.nextFileId, pathname, readWrite, NewSizes(), FileNamed(pathname))
    {
      hide Inv, ReadInv, DeleteInv, AllStored, FilesKept, IoManagerTable.Valid;
      NothingLost(io.Io(), files.metadata, flats);
      var found, stat := files.StatByName(pathname);
      if found != FILE_NOT_FOUND {
        return stat.fileId, stat.size;
      }
      size := UnspecifiedSize();
      if !readWrite {
        return FILE_NOT_FOUND, size;
      }
      fileId := CreateFile(pathname);
    }

    /** Gives `client` a cursor on a file, at its end or at its beginning. */
    method OpenCursor(fileId: int, append: bool, size: nat, client: Client) returns (fd: nat)
      requires Valid() && fileId <= files.nextFileId
      requires fileId in files.metadata && append ==> files.metadata[fileId].size <= size
      modifies volatile`fileCursors, volatile`lastFd
      ensures Valid()
      ensures fd == volatile.lastFd == old(volatile.lastFd) + 1 && fd !in old(volatile.fileCursors)
      ensures fd in volatile.fileCursors
      ensures volatile.fileCursors
              == old(volatile.fileCursors)[fd := FileInstance(client, fileId, volatile.fileCursors[fd].offset)]
      ensures fileId in files.metadata ==>
                volatile.fileCursors[fd].offset == if append then files.metadata[fileId].size else 0
    {
      hide Inv, ReadInv, DeleteInv, AllStored, MutuallyInverse, IoManagerTable.Placed, Acknowledged;
      fd := volatile.NewFileCursor(fileId, client);
      if append {
        MoveCursor(fd, size, client);
      }
    }

    /** Asks for the lock that an open needs. */
    method GetLock(fileId: int, mode: Mode, client: Client) returns (ok: bool)
      requires Proper(client)
      modifies locks
      ensures ok == Grantable(old(locks.fileLocks), fileId, client, mode)
      ensures ok ==> locks.fileLocks == Granted(old(locks.fileLocks), fileId, client, mode)
      ensures !ok && (mode == Exclusive || old(locks.Valid())) ==> locks.fileLocks == old(locks.fileLocks)
      ensures mode == Exclusive && old(locks.Valid()) ==> locks.Valid()
    {
      var r;
      if mode == Exclusive {
        r := locks.GetExclusiveLock(client, fileId);
      } else {
        r := locks.GetSharedLock(client, fileId);
      }
      return r >= 0;
    }

    /** Opens a file, to write or only to read it, at its beginning or at its end. Files are created
        when they are opened for writing. */
    method OpenFile(pathname: string, readWrite: bool, append: bool, client: Client) returns (reply: int)
      requires Valid() && Proper(client)
      modifies this`flats, files, volatile`fileCursors, volatile`lastFd, locks
      ensures Valid()
      ensures FilesKept(old(files.metadata), files.metadata, old(flats), flats)
      ensures NewIds(old(files.metadata), files.metadata, old(files.nextFileId), files.nextFileId)
      ensures FoundOrMade(old(files.pathnameToFileId), files.pathnameToFileId, old(files.metadata), files.metadata,
                          old(files.nextFileId), files.nextFileId, pathname, readWrite, NewSizes(), FileNamed(pathname))
      ensures pathname !in old(files.pathnameToFileId) && !readWrite ==>
                reply == FILE_NOT_FOUND_FOR_READING && locks.fileLocks == old(locks.fileLocks)
      ensures pathname in old(files.pathnameToFileId) || readWrite ==>
                var f, mode := FileNamed(pathname), if readWrite then Exclusive else Shared;
                if Grantable(old(locks.fileLocks), f, client, mode) then
                  && 0 < reply == volatile.lastFd == old(volatile.lastFd) + 1 && reply !in old(volatile.fileCursors)
                  && locks.fileLocks == Granted(old(locks.fileLocks), f, client, mode)
                  && reply in volatile.fileCursors
                  && volatile.fileCursors
                     == old(volatile.fileCursors)[reply := FileInstance(client, f, volatile.fileCursors[reply].offset)]
                  && (f in files.metadata ==>
                      volatile.fileCursors[reply].offset == if append then files.metadata[f].size else 0)
                else reply == FILE_IN_USE
      ensures reply < 0 ==> volatile.fileCursors == old(volatile.fileCursors) && volatile.lastFd == old(volatile.lastFd)
      ensures reply < 0 && old(locks.Valid()) ==> locks.fileLocks == old(locks.fileLocks)
      ensures old(Disciplined()) ==>
                (Disciplined() <==>
                 !Offends(old(locks.fileLocks), old(files.pathnameToFileId), pathname, readWrite, client))
    {
      hide Valid, LocksMatch, Grantable, Granted, FilesKept, AllConsistent, HeldExclusivelyByUser;
      ghost var disciplined, cursors, active := Disciplined(), volatile.fileCursors, deleteTable.active;
      ghost var metadata, fileLocks, names := files.metadata, locks.fileLocks, files.pathnameToFileId;
      var fileId, size := FindOrCreate(pathname, readWrite);
      if disciplined {
        OnlyMoved(cursors, cursors, metadata, files.metadata, fileLocks, active);
        MatchedLocksValid(cursors, metadata, fileLocks, active);
      }
      if fileId == FILE_NOT_FOUND {
        return FILE_NOT_FOUND_FOR_READING;
      }
      var mode := if readWrite then Exclusive else Shared;
      if disciplined && HeldExclusivelyByUser(fileLocks, client, fileId) {
        OffenceGranted(fileLocks, fileId, client);
      }
      var ok := GetLock(fileId, mode, client);
      if !ok {
        return FILE_IN_USE;
      }
      var fd := OpenCursor(fileId, append, size, client);
      if disciplined {
        if Offends(fileLocks, names, pathname, readWrite, client) {
          Undisciplined();
        } else {
          Opened(cursors, files.metadata, fileLocks, active, fd, client, fileId, volatile.fileCursors[fd].offset, mode);
        }
      }
      return fd;
    }

    /** With an inconsistent lock table nothing is in step. */
    lemma Undisciplined()
      requires !AllConsistent(locks.fileLocks)
      ensures !Disciplined()
    {
    }

    /** Closes a descriptor for the client that opened it, and gives up the lock. */
    method CloseFile(fd: nat, client: Client) returns (r: int)
      requires Valid() && Proper(client)
      modifies volatile`fileCursors, locks
      ensures Valid()
      ensures r == if fd !in old(volatile.fileCursors) then INSTANCE_NOT_FOUND
                   else if old(volatile.fileCursors)[fd].client != client then WRONG_CLIENT
                   else old(volatile.fileCursors)[fd].fileId
      ensures volatile.fileCursors
              == if fd in old(volatile.fileCursors) && old(volatile.fileCursors)[fd].client == client
                 then old(volatile.fileCursors) - {fd} else old(volatile.fileCursors)
      ensures if 0 < r then Released(old(locks.fileLocks), locks.fileLocks, client, r)
              else locks.fileLocks == old(locks.fileLocks)
      ensures old(Disciplined()) ==> Disciplined()
    {
      hide LocksMatch, Inv, ReadInv, DeleteInv, AllStored, MutuallyInverse, AllConsistent, Holds;
      hide IoManagerTable.Placed, Acknowledged;
      ghost var disciplined, cursors, fileLocks, active := Disciplined(), volatile.fileCursors, locks.fileLocks,
        deleteTable.active;
      r := volatile.CloseFileCursor(fd, client);
      if 0 < r {
        var released := locks.ReleaseLock(client, r);
      }
      if disciplined {
        MatchedLocksValid(cursors, files.metadata, fileLocks, active);
        if 0 < r {
          ClosedAndReleased(cursors, files.metadata, fileLocks, active, fd, locks.fileLocks);
        } else {
          ClosedOnly(cursors, files.metadata, fileLocks, active, fd);
        }
      }
    }

    /** Moves a cursor to an offset, or to the end of the file if that comes first. */
    method MoveCursor(fd: nat, offset: nat, client: Client)
      requires Valid()
      modifies volatile`fileCursors
      ensures Valid()
      ensures fd !in old(volatile.fileCursors) || old(volatile.fileCursors)[fd].client != client ==>
                volatile.fileCursors == old(volatile.fileCursors)
      ensures fd in old(volatile.fileCursors) && old(volatile.fileCursors)[fd].client == client
              && old(volatile.fileCursors)[fd].fileId in files.metadata ==>
                var inst, size := old(volatile.fileCursors)[fd],
                  files.metadata[old(volatile.fileCursors)[fd].fileId].size;
                volatile.fileCursors
                  == old(volatile.fileCursors)[fd := inst.(offset := if offset > size then size else offset)]
      ensures fd in old(volatile.fileCursors) ==>
                && fd in volatile.fileCursors
                && var inst := old(volatile.fileCursors)[fd].(offset := volatile.fileCursors[fd].offset);
                   volatile.fileCursors == old(volatile.fileCursors)[fd := inst]
    {
      hide Inv, ReadInv, DeleteInv, AllStored, MutuallyInverse, IoManagerTable.Placed, Acknowledged;
      var cursor := volatile.SetFileCursor(fd, offset, client, files);
    }

    /** Moves a cursor to a place in the file, counted from its beginning, from where the cursor is,
        or simply to the end. Offsets are 32 bits wide and are added as such, so that a large one
        moves the cursor back. */
    method FileSeek(fd: nat, offset: nat, whence: Whence, client: Client) returns (r: int)
      requires Valid() && offset <= MAX_OFFSET
      modifies volatile`fileCursors
      ensures Valid()
      ensures r == if fd in volatile.fileCursors then volatile.fileCursors[fd].offset else INSTANCE_NOT_FOUND
      ensures SameOpen(old(volatile.fileCursors), volatile.fileCursors)
      ensures fd !in old(volatile.fileCursors) || old(volatile.fileCursors)[fd].client != client ==>
                volatile.fileCursors == old(volatile.fileCursors)
      ensures fd in volatile.fileCursors ==>
                volatile.fileCursors == old(volatile.fileCursors)[fd := volatile.fileCursors[fd]]
      ensures fd in old(volatile.fileCursors) && old(volatile.fileCursors)[fd].client == client
              && old(volatile.fileCursors)[fd].fileId in files.metadata ==>
                var inst := old(volatile.fileCursors)[fd];
                && volatile.fileCursors == old(volatile.fileCursors)[fd := inst.(
                  offset := SoughtOffset(inst.offset, offset, whence, files.metadata[inst.fileId].size))]
                && LandsAt(r, inst.offset, offset, whence, files.metadata[inst.fileId].size)
      ensures old(Disciplined()) ==> Disciplined()
    {
      hide Valid, LocksMatch, LandsAt;
      ghost var disciplined, cursors := Disciplined(), volatile.fileCursors;
      if whence == SeekEnd {
        MoveCursor(fd, MAX_OFFSET, client);
      } else {
        if whence == SeekSet {
          MoveCursor(fd, 0, client);
        }
        var cursor := volatile.GetFileCursor(fd);
        if cursor >= 0 {
          MoveCursor(fd, (cursor + offset) % (MAX_OFFSET + 1), client);
        }
      }
      r := volatile.GetFileCursor(fd);
      if fd in cursors && cursors[fd].fileId in files.metadata {
        SeekLands(cursors[fd].offset, offset, whence, files.metadata[cursors[fd].fileId].size);
      }
      if disciplined {
        OnlyMoved(cursors, volatile.fileCursors, files.metadata, files.metadata, locks.fileLocks, deleteTable.active);
      }
    }

    // -------------------------------------------------------------------------
    // Deleting
    // -------------------------------------------------------------------------

    /** Sends a delete: registers it, deletes all chunks there are, and says how many copies that were.
        With no copy at all it is left as it is, and never completed. */
    method SendDelete(requestId: nat, fileId: int, client: Client) returns (ghost chunks: seq<FileChunk>)
      requires Wired() && deleteTable.Valid() && Proper(client) && deleteTable.lastId < requestId
      modifies io`chunkToNode, io`chunkToReplicaNode, net`sent, deleteTable, files`metadata, files`pathnameToFileId,
               locks
      ensures deleteTable.Valid() && deleteTable.lastId == requestId
      ensures old(locks.Valid()) ==> locks.Valid()
      ensures ChunksOfFile(chunks, old(io.chunkToNode), fileId)
      ensures io.Io() == DeleteChunks(old(io.Io()), chunks, requestId)
      ensures deleteTable.ledger
              == old(deleteTable.ledger)[requestId := DeleteEntryFor(old(io.Io()), client, fileId)]
      ensures OnlyDeletesSince(
                DeleteTables(old(deleteTable.active)[requestId := RequestInfo(0, 0, fileId, client)],
                             old(deleteTable.results)),
                deleteTable.TablesNow(), old(files.metadata), files.metadata, old(locks.fileLocks), locks.fileLocks)
    {
      hide DeleteInv, OnlyDeletesSince, ChunksOfFile, DeleteChunks, DeletePackets, MutuallyInverse, AllConsistent;
      hide CountDeletes, DeleteEntryFor;
      ghost var l := deleteTable.ledger;
      deleteTable.BeginRequest(requestId, client, fileId);
      ghost var t, metadata, fileLocks := deleteTable.TablesNow(), files.metadata, locks.fileLocks;
      var numChunks;
      ghost var before := io.Io();
      numChunks, chunks := io.ProcessDeleteFile(requestId, fileId);
      DeletesCounted(before, l, requestId, client, fileId, chunks);
      if 0 < numChunks {
        ghost var t', metadata', fileLocks' := deleteTable.TablesNow(), files.metadata, locks.fileLocks;
        deleteTable.FinishRequest(requestId, numChunks);
        OnlyDeletesTrans(t, t', deleteTable.TablesNow(), metadata, metadata', files.metadata, fileLocks, fileLocks',
                         locks.fileLocks);
      }
    }

    /** A delete that has passed all checks and holds the file exclusively. */
    method AcceptDelete(requestId: nat, fileId: int, client: Client) returns (ghost chunks: seq<FileChunk>)
      requires Valid() && Proper(client) && deleteTable.lastId < requestId == volatile.requestId
               && fileId in files.metadata
      modifies this`flats, io`chunkToNode, io`chunkToReplicaNode, net`sent, deleteTable
      modifies files`metadata, files`pathnameToFileId, locks
      ensures Valid() && flats == old(flats)[fileId := map[]]
      ensures old(locks.Valid()) ==> locks.Valid()
      ensures ChunksOfFile(chunks, old(io.chunkToNode), fileId)
      ensures io.Io() == DeleteChunks(old(io.Io()), chunks, requestId)
      ensures deleteTable.ledger
              == old(deleteTable.ledger)[requestId := DeleteEntryFor(old(io.Io()), client, fileId)]
      ensures OnlyDeletesSince(
                DeleteTables(old(deleteTable.active)[requestId := RequestInfo(0, 0, fileId, client)],
                             old(deleteTable.results)),
                deleteTable.TablesNow(), old(files.metadata), files.metadata, old(locks.fileLocks), locks.fileLocks)
    {
      hide Inv, ReadInv, DeleteInv, AllStored, MutuallyInverse, AllConsistent, DeleteChunks, DeletePackets,
           CursorsInside;
      hide OnlyDeletesSince, ChunksOfFile;
      ghost var before, metadata, fileLocks := io.Io(), files.metadata, locks.fileLocks;
      ghost var t := DeleteTables(deleteTable.active[requestId := RequestInfo(0, 0, fileId, client)],
                                  deleteTable.results);
      chunks := SendDelete(requestId, fileId, client);
      FilesOfChunks(chunks, before.nodes, fileId);
      DeletesKeepAll(before, chunks, requestId, fileId, metadata, flats);
      DeletesAreNoWrites(before, chunks, requestId);
      OthersAcknowledged(before.sent, net.sent, writeTable.StateNow());
      StillSentBefore(before.sent, net.sent, files.nextFileId, files.nextFileId);
      PlacedAfterDelete(before, chunks, requestId);
      flats := flats[fileId := map[]];
      var gone := FilesGone(t, deleteTable.TablesNow(), metadata, files.metadata, fileLocks, locks.fileLocks);
      FewerFiles(io.Io(), metadata, flats, volatile.fileCursors, files.nextFileId, gone);
    }

    /** Deletes a file that nobody has open. */
    method DeleteFile(pathname: string, client: Client) returns (reply: Reply, ghost chunks: seq<FileChunk>)
      requires Valid() && Proper(client)
      modifies this`flats, volatile`requestId, io`chunkToNode, io`chunkToReplicaNode, net`sent, deleteTable
      modifies files`metadata, files`pathnameToFileId, locks
      ensures Valid() && volatile.requestId == old(volatile.requestId) + 1
      ensures reply == if pathname !in old(files.pathnameToFileId) then Replied(0, FILE_NOT_FOUND)
                       else if !Unheld(old(locks.fileLocks), old(FileNamed(pathname))) then Replied(0, FILE_IN_USE)
                       else Accepted
      ensures reply.Replied? ==>
                && io.Io() == old(io.Io()) && files.metadata == old(files.metadata) && flats == old(flats)
                && deleteTable.StateNow() == old(deleteTable.StateNow())
                && locks.fileLocks == old(locks.fileLocks) && files.pathnameToFileId == old(files.pathnameToFileId)
      ensures reply.Accepted? ==>
                var f, requestId := old(FileNamed(pathname)), volatile.requestId;
                && f in old(files.metadata) && flats == old(flats)[f := map[]]
                && ChunksOfFile(chunks, old(io.chunkToNode), f)
                && io.Io() == DeleteChunks(old(io.Io()), chunks, requestId)
                && deleteTable.ledger
                   == old(deleteTable.ledger)[requestId := DeleteEntryFor(old(io.Io()), client, f)]
                && OnlyDeletesSince(
                     DeleteTables(old(deleteTable.active)[requestId := RequestInfo(0, 0, f, client)],
                                  old(deleteTable.results)),
                     deleteTable.TablesNow(), old(files.metadata), files.metadata,
                     Granted(old(locks.fileLocks), f, client, Exclusive), locks.fileLocks)
      ensures reply.Accepted? ==> UpCopiesGone(old(io.Io()), io.Io(), old(FileNamed(pathname)))
      ensures old(Disciplined()) ==> Disciplined()
    {
      hide Valid, LocksMatch, Granted, AllConsistent, DeleteInv, OnlyDeletesSince, ChunksOfFile, DeleteChunks,
           DeletePackets, DeleteEntryFor, UpCopiesGone;
      ghost var before := io.Io();
      ghost var disciplined, cursors, metadata, fileLocks := Disciplined(), volatile.fileCursors, files.metadata,
        locks.fileLocks;
      ghost var active, results := deleteTable.active, deleteTable.results;
      chunks := [];
      var requestId := NewRequestId();
      var found, stat := StatFile(pathname);
      if found < 0 {
        return Replied(0, FILE_NOT_FOUND), [];
      }
      if disciplined {
        MatchedLocksValid(cursors, metadata, fileLocks, active);
      }
      var ok := GetLock(stat.fileId, Exclusive, client);
      if !ok {
        return Replied(0, FILE_IN_USE), [];
      }
      chunks := AcceptDelete(requestId, stat.fileId, client);
      DeletedTables(before, chunks, requestId, stat.fileId);
      if disciplined {
        DeleteBegun(cursors, metadata, fileLocks, active, requestId, RequestInfo(0, 0, stat.fileId, client));
        DeletesCompleted(cursors, DeleteTables(active[requestId := RequestInfo(0, 0, stat.fileId, client)], results),
                         deleteTable.TablesNow(), metadata, files.metadata,
                         Granted(fileLocks, stat.fileId, client, Exclusive), locks.fileLocks);
      }
      return Accepted, chunks;
    }

    /** Looks a file up by name. */
    method StatFile(pathname: string) returns (r: int, stat: FileInfo)
      requires Valid()
      ensures r == if pathname in files.pathnameToFileId then P_META_SUCCESS else FILE_NOT_FOUND
      ensures r == P_META_SUCCESS ==>
                stat.fileId == FileNamed(pathname) && stat.fileId in files.metadata
                  && stat == files.metadata[stat.fileId]
    {
      hide Inv, ReadInv, DeleteInv, AllStored, CursorsInside, IoManagerTable.Valid;
      r, stat := files.StatByName(pathname);
    }

    // -------------------------------------------------------------------------
    // Responses
    // -------------------------------------------------------------------------

    /** A node acknowledges a write, at any time. */
    method WriteResponse(id: nat, k: nat)
      requires Valid() && Enabled(writeTable.StateNow(), Deliver(id, k))
      modifies writeTable`inFlight, writeTable`arrived, writeTable`lookups, writeTable`active, writeTable`results
      modifies writeTable`answers
      ensures Valid()
      ensures Found(old(writeTable.StateNow()), Deliver(id, k))
      ensures writeTable.StateNow() == Next(old(writeTable.StateNow()), Deliver(id, k))
    {
      hide Inv, ReadInv, DeleteInv, AllStored, CursorsInside, MutuallyInverse, IoManagerTable.Placed, Acknowledged;
      ghost var s := writeTable.StateNow();
      writeTable.Arrive(id, k);
      ArrivalKeepsCounts(s, id, k);
      StillAcknowledged(net.sent, s, writeTable.StateNow());
    }

    /** A node answers a read, at any time. */
    method ReadResponse(id: nat, k: nat)
      requires Valid() && ReadEnabled(readTable.StateNow(), ReadDeliver(id, k))
      modifies readTable`inFlight, readTable`active, readTable`results, readTable`answers, readTable`ledger
      ensures Valid()
      ensures ReadFound(old(readTable.StateNow()), ReadDeliver(id, k))
      ensures readTable.StateNow() == ReadNext(old(readTable.StateNow()), ReadDeliver(id, k))
    {
      hide Inv, ReadInv, DeleteInv, AllStored, CursorsInside, MutuallyInverse, IoManagerTable.Placed, Acknowledged;
      readTable.Arrive(id, k);
    }

    /** A node acknowledges a delete, at any time. */
    method DeleteResponse(id: nat)
      requires Valid() && DeleteEnabled(deleteTable.StateNow(), DeleteDeliver(id))
      modifies deleteTable`inFlight, deleteTable`active, deleteTable`results, deleteTable`answers
      modifies files`metadata, files`pathnameToFileId, locks
      ensures Valid()
      ensures DeleteFound(old(deleteTable.StateNow()), DeleteDeliver(id))
      ensures deleteTable.StateNow() == DeleteNext(old(deleteTable.StateNow()), DeleteDeliver(id))
      ensures OnlyDeletesSince(old(deleteTable.TablesNow()), deleteTable.TablesNow(), old(files.metadata),
                               files.metadata,
                               old(locks.fileLocks), locks.fileLocks)
      ensures old(Disciplined()) ==> Disciplined()
    {
      hide Inv, ReadInv, DeleteInv, AllStored, CursorsInside, MutuallyInverse, AllConsistent, LocksMatch,
           OnlyDeletesSince;
      hide IoManagerTable.Placed, Acknowledged;
      ghost var t, metadata, fileLocks, cursors := deleteTable.TablesNow(), files.metadata, locks.fileLocks,
        volatile.fileCursors;
      ghost var disciplined := Disciplined();
      if disciplined {
        MatchedLocksValid(cursors, metadata, fileLocks, t.active);
      }
      deleteTable.Arrive(id);
      var gone := FilesGone(t, deleteTable.TablesNow(), metadata, files.metadata, fileLocks, locks.fileLocks);
      FewerFiles(io.Io(), metadata, flats, cursors, files.nextFileId, gone);
      if disciplined {
        DeletesCompleted(cursors, t, deleteTable.TablesNow(), metadata, files.metadata, fileLocks, locks.fileLocks);
      }
    }

    /** Any number of writes are acknowledged. */
    method WriteResponses()
      requires Valid()
      modifies writeTable`inFlight, writeTable`arrived, writeTable`lookups, writeTable`active, writeTable`results
      modifies writeTable`answers
      ensures Valid() && ByArrivals(old(writeTable.StateNow()), writeTable.StateNow())
    {
      hide Inv, ReadInv, DeleteInv, AllStored, CursorsInside, MutuallyInverse, ByArrivals;
      hide IoManagerTable.Placed, Acknowledged;
      ghost var s := writeTable.StateNow();
      writeTable.ArriveSome();
      ArrivalsKeepCounts(s, writeTable.StateNow());
      StillAcknowledged(net.sent, s, writeTable.StateNow());
    }

    /** Any number of reads are answered. */
    method ReadResponses()
      requires Valid()
      modifies readTable`inFlight, readTable`active, readTable`results, readTable`answers, readTable`ledger
      ensures Valid() && ArrivedOnly(old(readTable.ledger), readTable.ledger)
    {
      hide Inv, ReadInv, DeleteInv, AllStored, CursorsInside, MutuallyInverse, ArrivedOnly;
      hide IoManagerTable.Placed, Acknowledged;
      readTable.ArriveSome();
    }

    /** Any number of deletes are acknowledged. */
    method DeleteResponses()
      requires Valid()
      modifies deleteTable`inFlight, deleteTable`active, deleteTable`results, deleteTable`answers
      modifies files`metadata, files`pathnameToFileId, locks
      ensures Valid()
      ensures OnlyDeletesSince(old(deleteTable.TablesNow()), deleteTable.TablesNow(), old(files.metadata),
                               files.metadata,
                               old(locks.fileLocks), locks.fileLocks)
      ensures old(Disciplined()) ==> Disciplined()
    {
      hide Inv, ReadInv, DeleteInv, AllStored, CursorsInside, MutuallyInverse, AllConsistent, LocksMatch,
           OnlyDeletesSince;
      hide IoManagerTable.Placed, Acknowledged;
      ghost var t, metadata, fileLocks, cursors := deleteTable.TablesNow(), files.metadata, locks.fileLocks,
        volatile.fileCursors;
      ghost var disciplined := Disciplined();
      if disciplined {
        MatchedLocksValid(cursors, metadata, fileLocks, t.active);
      }
      deleteTable.ArriveSome();
      var gone := FilesGone(t, deleteTable.TablesNow(), metadata, files.metadata, fileLocks, locks.fileLocks);
      FewerFiles(io.Io(), metadata, flats, cursors, files.nextFileId, gone);
      if disciplined {
        DeletesCompleted(cursors, t, deleteTable.TablesNow(), metadata, files.metadata, fileLocks, locks.fileLocks);
      }
    }

    // -------------------------------------------------------------------------
    // Nodes that go down and come back
    // -------------------------------------------------------------------------

    /** A node is taken to be down. */
    method NodeDown(node: int)
      requires Valid()
      modifies volatile`upNodes
      ensures Valid() && io.Io() == old(io.Io()).(up := Without(old(volatile.upNodes), node))
    {
      hide Inv, ReadInv, DeleteInv, AllStored, CursorsInside, MutuallyInverse, SentBefore;
      hide IoManagerTable.Placed, Acknowledged;
      ghost var before := io.Io();
      var r := volatile.SetNodeDown(node);
      AllStoredAnyway(before, io.Io(), files.metadata, flats);
    }

    /** The network changes. */
    method NetworkChanges(reachable: set<int>)
      requires Valid()
      modifies net`reachable
      ensures Valid() && io.Io() == old(io.Io()).(reachable := reachable)
    {
      hide Inv, ReadInv, DeleteInv, AllStored, CursorsInside, MutuallyInverse, SentBefore;
      hide IoManagerTable.Placed, Acknowledged;
      ghost var before := io.Io();
      net.reachable := reachable;
      AllStoredAnyway(before, io.Io(), files.metadata, flats);
    }

    /** A node is taken to be up. */
    method NodeUp(node: int)
      requires Valid()
      modifies volatile`upNodes
      ensures Valid() && io.Io() == old(io.Io()).(up := With(old(volatile.upNodes), node))
    {
      hide Inv, ReadInv, DeleteInv, AllStored, CursorsInside, MutuallyInverse, SentBefore;
      hide IoManagerTable.Placed, Acknowledged;
      ghost var before := io.Io();
      var r := volatile.SetNodeUp(node);
      AllStoredAnyway(before, io.Io(), files.metadata, flats);
    }
  }

  // ---------------------------------------------------------------------------
  // What clients are told
  // ---------------------------------------------------------------------------

  /** A write of a buffer that was accepted, at any later time: it is answered as soon as both copies
      of all fragments are acknowledged and not before, once, with the length of the buffer. When for
      some fragment neither the replica node nor its substitute could be reached it is never answered. */
  lemma WriteAnsweredWithLength(server: Barista, before: Snapshot, w: Writing, at: nat, z: Sizes)
    requires server.Valid() && Open(before, w) && Positive(z) && w.ctx.request in server.writeTable.ledger
    requires Separated(before.io)
    requires server.writeTable.ledger[w.ctx.request] == AfterWrite(before, w, at, z).ledger[w.ctx.request]
    ensures var s, r := server.writeTable.StateNow(), w.ctx.request;
            var fs := Fragments(at, |w.ctx.buf|, z.stripeSize, z.chunkSize);
            && (Answered(s, r) <==>
                AllArrived(s, r) && forall f :: f in fs ==> !ReplicaLost(before.io, ChunkOfFragment(w.ctx.fileId, f)))
            && (Answered(s, r) ==> AnsweredOnce(s, r) && WriteResult(w.client, w.fd, |w.ctx.buf|) in s.tables.results)
  {
    hide Inv, Fragments, ReplicaLost;
    var s, r := server.writeTable.StateNow(), w.ctx.request;
    FragmentsInBuffer(at, w.ctx.buf, z);
    NoneLost(before.io, Fragments(at, |w.ctx.buf|, z.stripeSize, z.chunkSize), w.ctx);
    AnsweredByInv(s, r);
  }

  /** A read of a range that was written when it was accepted, up to where the request or the file ended, at
      any later time: it is answered as soon as all pieces have arrived, in whatever order, once, and with
      the bytes of the range up to there as they were when the read was accepted. */
  lemma ReadAnsweredWithBytes(server: Barista, flat: Flat, size: nat, offset: nat, count: nat, requestId: nat)
    requires server.Valid() && 0 < count && offset < size && RangeKnown(flat, offset, Min(offset + count, size))
    requires KnownIsRead(flat, size, offset, count, server.readTable.ledger, requestId)
    ensures var s, end := server.readTable.StateNow(), Min(offset + count, size);
            && requestId in s.inFlight
            && (requestId in s.answers <==> s.inFlight[requestId] == [])
            && (requestId in s.answers ==>
                  && ReadAnsweredOnce(s, requestId)
                  && ReadResult(s.ledger[requestId].client, s.ledger[requestId].fd, end - offset,
                                FlatBytes(flat, offset, end))
                     in s.tables.results)
  {
    hide ReadInv, Joined;
    var s := server.readTable.StateNow();
    ReadAnsweredByInv(s, requestId);
  }
}
