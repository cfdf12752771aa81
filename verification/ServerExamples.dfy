/** Runs of a server that was just started, in which something goes wrong. */
module ServerExamples {
  import opened EspressoStorage
  import opened EspressoRuns
  import opened Nodes
  import opened Striping
  import opened FileChunks
  import opened PersistentMetadata
  import opened VolatileMetadata
  import opened LockingStrategy
  import opened Requests
  import opened WriteRequests
  import opened ReadRequests
  import opened DeleteRequests
  import opened OpenFiles
  import opened IoManager
  import opened FlatFile
  import opened FlatReads
  import opened BaristaState
  import opened BaristaCore

  /** A server without files, of which all nodes are up and can be reached. */
  ghost predicate JustStarted(server: Barista)
    reads server, server.files, server.volatile, server.locks, server.net, server.io, server.io.net
    reads server.io.volatile`upNodes, server.writeTable, server.readTable, server.deleteTable
  {
    && server.Valid() && server.Disciplined()
    && server.files.metadata == map[] && server.files.pathnameToFileId == map[] && server.locks.fileLocks == map[]
    && server.deleteTable.active == map[] && server.volatile.fileCursors == map[]
    && server.io.Io() == IoState(map[], map[], {}, AllNodes(), [], NodesUp(AllNodes()))
  }

  function AllNodes(): seq<int> { [FIRST, SECOND, FIRST_REPLICA, SECOND_REPLICA] }

  /** The tables of a new server. */
  method NewTables() returns (io: IoManagerTable)
    ensures fresh(io) && fresh(io.net) && fresh(io.volatile) && fresh(io.writeTable) && fresh(io.readTable)
    ensures fresh(io.deleteTable) && fresh(io.deleteTable.files) && fresh(io.deleteTable.locks)
    ensures io.Valid() && io.deleteTable.Valid()
    ensures io.Io() == IoState(map[], map[], {}, [], [], NodesUp(AllNodes()))
    ensures io.volatile.fileCursors == map[] && io.volatile.requestId == 0
    ensures io.writeTable.lastId == io.readTable.lastId == io.deleteTable.lastId == 0
    ensures io.deleteTable.active == map[] && io.deleteTable.locks.fileLocks == map[]
    ensures io.deleteTable.files.metadata == map[] && io.deleteTable.files.pathnameToFileId == map[]
  {
    hide IoManagerTable.Valid, DeleteRequestTable.Valid, WriteRequestTable.Valid, ReadRequestTable.Valid,
         VolatileMetadataTable.Valid, PersistentMetadataTable.Valid, LockTable.Valid, NodesUp;
    var net := new Network(NodesUp(AllNodes()));
    var volatile := new VolatileMetadataTable();
    var files := new PersistentMetadataTable();
    var locks := new LockTable();
    var writeTable := new WriteRequestTable();
    var readTable := new ReadRequestTable();
    var deleteTable := new DeleteRequestTable(files, locks);
    io := new IoManagerTable(net, volatile, writeTable, readTable, deleteTable);
  }

  /** The server is put together and started. */
  method Start(stripeSize: nat, chunkSize: nat) returns (server: Barista)
    requires 0 < stripeSize && 0 < chunkSize
    ensures fresh(server) && fresh(server.files) && fresh(server.volatile) && fresh(server.locks) && fresh(server.net)
    ensures fresh(server.io) && fresh(server.writeTable) && fresh(server.readTable) && fresh(server.deleteTable)
    ensures JustStarted(server) && server.stripeSize == stripeSize && server.chunkSize == chunkSize
  {
    hide Barista.Valid, IoManagerTable.Valid, DeleteRequestTable.Valid, LocksMatch, NodesUp;
    var io := NewTables();
    server := new Barista(stripeSize, chunkSize, io);
    TurnOn(server);
  }

  lemma WiredUp(server: Barista)
    requires server.Valid()
    ensures server.io.net == server.net && server.io.volatile == server.volatile
  {
    hide Inv, ReadInv, DeleteInv, AllStored, CursorsInside, MutuallyInverse, SentBefore;
  }

  /** All nodes come up. */
  method TurnOn(server: Barista)
    requires server.Valid() && server.volatile.upNodes == []
    modifies server.volatile`upNodes
    ensures server.Valid() && server.volatile.upNodes == AllNodes()
  {
    hide Barista.Valid;
    WiredUp(server);
    server.NodeUp(FIRST);
    assert server.volatile.upNodes == server.io.Io().up == [FIRST];
    server.NodeUp(SECOND);
    assert server.volatile.upNodes == server.io.Io().up == [FIRST, SECOND];
    server.NodeUp(FIRST_REPLICA);
    assert server.volatile.upNodes == server.io.Io().up == [FIRST, SECOND, FIRST_REPLICA];
    server.NodeUp(SECOND_REPLICA);
    assert server.volatile.upNodes == server.io.Io().up == AllNodes();
  }

  // ---------------------------------------------------------------------------
  // A file of one byte
  // ---------------------------------------------------------------------------

  lemma OneByteFragment(z: Sizes)
    requires Positive(z)
    ensures Fragments(0, 1, z.stripeSize, z.chunkSize) == [Fragment(1, 1, 0, 0, 1)]
  {
    assert ChunkFragments(1, 2, 0, 1, 0, z.chunkSize) == [];
    assert ChunkFragments(1, 1, 0, 0, 1, z.chunkSize) == [Fragment(1, 1, 0, 0, 1)];
    assert StripeFragments(1, 0, 0, 1, z.chunkSize) == [Fragment(1, 1, 0, 0, 1)];
    assert FileFragments(2, 0, 1, 0, z.stripeSize, z.chunkSize) == [];
  }

  /** When both primary nodes can be reached, every write comes to its end. */
  lemma AnyWritable(server: Barista, fileId: int, fs: seq<Fragment>)
    requires server.Valid() && {FIRST, SECOND} <= server.net.reachable
    ensures server.io.Writable(fileId, fs)
  {
    hide Inv, ReadInv, DeleteInv, AllStored, CursorsInside, MutuallyInverse, SentBefore;
  }

  /** The client has the file `f` open for writing through `fd`, and no delete is pending. */
  ghost predicate HasOpen(server: Barista, client: Client, fd: nat, f: int)
    reads server.volatile`fileCursors, server.locks, server.files, server.deleteTable
  {
    && 0 < fd && 0 < f && f in server.files.metadata && server.files.metadata[f].fileId == f
    && fd in server.volatile.fileCursors && server.volatile.fileCursors[fd].client == client
    && server.volatile.fileCursors[fd].fileId == f
    && Holds(server.locks.fileLocks, client, f, Exclusive) && server.deleteTable.active == map[]
  }

  /** A new file is opened for writing. */
  method OpenNew(server: Barista, pathname: string, client: Client) returns (fd: nat, f: int)
    requires JustStarted(server) && Proper(client) && |pathname| <= MAX_FILENAME_LENGTH
    modifies server`flats, server.files, server.volatile`fileCursors, server.volatile`lastFd, server.locks
    ensures server.Valid() && server.Disciplined() && HasOpen(server, client, fd, f)
    ensures server.volatile.fileCursors == map[fd := FileInstance(client, f, 0)] && f in server.files.metadata
    ensures server.files.pathnameToFileId == map[pathname := f] && server.files.metadata[f].size == 0
    ensures f in server.flats && server.flats[f] == map[]
  {
    hide Barista.Valid, LocksMatch;
    fd := server.OpenFile(pathname, true, false, client);
    f := server.FileNamed(pathname);
    GrantedHolds(old(server.locks.fileLocks), f, client, Exclusive);
  }

  /** One byte is written at the beginning of the file. */
  method WriteByte(server: Barista, client: Client, fd: nat, f: int, b: byte)
    requires server.Valid() && server.Disciplined() && Proper(client) && HasOpen(server, client, fd, f)
    requires fd in server.volatile.fileCursors && server.volatile.fileCursors[fd].offset == 0
    requires {FIRST, SECOND} <= server.net.reachable
    modifies server`flats, server.io`chunkToNode, server.io`chunkToReplicaNode, server.io`stale, server.net`sent
    modifies server.files`metadata, server.volatile`fileCursors, server.volatile`upNodes, server.volatile`requestId
    modifies server.writeTable
    ensures server.Valid() && server.Disciplined() && HasOpen(server, client, fd, f)
    ensures f in old(server.files.metadata) && f in server.files.metadata
    ensures server.files.metadata[f].size == old(server.files.metadata)[f].size + 1
    ensures f in old(server.flats) && server.flats == old(server.flats)[f := FlatWrite(old(server.flats)[f], 0, [b])]
    ensures var request := WriteRequest(old(server.volatile.requestId) + 1, old(server.volatile.requestId) + 2);
            server.io.Io() == IssueWrite(old(server.io.Io()), Fragment(1, 1, 0, 0, 1), WriteContext(f, request, [b]))
  {
    hide Barista.Valid, LocksMatch, Holds, FlatWrite, IssueWrite, Dense;
    AnyWritable(server, f, RangeOf(server.files.metadata[f], 0, 1));
    ghost var s := server.Snap();
    var reply := server.WriteFile(fd, [b], client);
    OneByteFragment(SizesOf(s.files[f]));
    IssueOneWrite(s.io, Fragment(1, 1, 0, 0, 1),
                  WriteContext(f, WriteRequest(server.volatile.requestId - 1, server.volatile.requestId), [b]));
  }

  /** The cursor goes back to the beginning. */
  method GoBack(server: Barista, client: Client, fd: nat, f: int)
    requires server.Valid() && server.Disciplined() && HasOpen(server, client, fd, f)
    modifies server.volatile`fileCursors
    ensures server.Valid() && server.Disciplined() && HasOpen(server, client, fd, f)
    ensures fd in server.volatile.fileCursors && server.volatile.fileCursors[fd].offset == 0
  {
    hide Barista.Valid, LocksMatch, Holds;
    var r := server.FileSeek(fd, 0, SeekSet, client);
  }

  // ---------------------------------------------------------------------------
  // Overwriting
  // ---------------------------------------------------------------------------

  /** A byte is written, and overwritten: the file has one byte and the size two. */
  method OverwrittenSizeTooLarge(server: Barista, pathname: string, client: Client, b: byte, b': byte)
      returns (f: int)
    requires JustStarted(server) && Proper(client) && |pathname| <= MAX_FILENAME_LENGTH
    modifies server, server.files, server.volatile, server.locks, server.net, server.writeTable, server.io
    ensures server.Valid() && f in server.files.metadata && server.files.metadata[f].size == 2
    ensures f in server.flats && server.flats[f] == map[0 := b'] && !Dense(server.flats[f], 2)
  {
    hide Barista.Valid, LocksMatch, IssueWrite, HasOpen, FlatWrite, Dense;
    WiredUp(server);
    var fd;
    fd, f := OpenNew(server, pathname, client);
    WriteByte(server, client, fd, f, b);
    GoBack(server, client, fd, f);
    WriteByte(server, client, fd, f, b');
    TwoWritesOneByte(b, b');
  }

  lemma TwoWritesOneByte(b: byte, b': byte)
    ensures var flat := FlatWrite(FlatWrite(map[], 0, [b]), 0, [b']); flat == map[0 := b'] && !Dense(flat, 2)
  {
    assert 1 !in FlatWrite(FlatWrite(map[], 0, [b]), 0, [b']);
  }

  // ---------------------------------------------------------------------------
  // Where the byte is
  // ---------------------------------------------------------------------------

  /** Where the chunk of a file of one byte is. */
  predicate OneChunk(io: IoState, f: int) {
    io.nodes == map[FileChunk(f, 1, 1) := FIRST] && io.replicas == map[FileChunk(f, 1, 1) := FIRST_REPLICA]
  }

  lemma OneChunkWritten(io: IoState, f: int, request: WriteRequest, b: byte)
    requires io == IoState(map[], map[], {}, AllNodes(), [], NodesUp(AllNodes()))
    ensures var io' := IssueWrite(io, Fragment(1, 1, 0, 0, 1), WriteContext(f, request, [b]));
            && OneChunk(io', f) && io'.stale == {} && io'.up == io.up && io'.reachable == io.reachable
            && CopyHas(io'.replicas, io'.sent, FileChunk(f, 1, 1), 0, b)
  {
    CopiesWritten(io, Fragment(1, 1, 0, 0, 1), WriteContext(f, request, [b]), 0);
    hide NodeState;
  }

  /** A file of one byte is made. */
  method MakeFile(server: Barista, pathname: string, client: Client, b: byte) returns (fd: nat, f: int)
    requires JustStarted(server) && Proper(client) && |pathname| <= MAX_FILENAME_LENGTH
    modifies server, server.files, server.volatile, server.locks, server.net, server.writeTable, server.io
    ensures server.Valid() && server.Disciplined() && HasOpen(server, client, fd, f) && f in server.files.metadata
    ensures server.files.pathnameToFileId == map[pathname := f] && server.files.metadata[f].size == 1
    ensures f in server.flats && server.flats[f] == FlatWrite(map[], 0, [b])
    ensures OneChunk(server.io.Io(), f) && server.io.stale == {}
    ensures server.io.Io().up == AllNodes() && server.io.Io().reachable == NodesUp(AllNodes())
    ensures CopyHas(server.io.Io().replicas, server.io.Io().sent, FileChunk(f, 1, 1), 0, b)
  {
    hide Barista.Valid, LocksMatch, IssueWrite, HasOpen, FlatWrite, Dense, CopyHas;
    WiredUp(server);
    ghost var io := server.io.Io();
    fd, f := OpenNew(server, pathname, client);
    ghost var request := WriteRequest(server.volatile.requestId + 1, server.volatile.requestId + 2);
    WriteByte(server, client, fd, f, b);
    OneChunkWritten(io, f, request, b);
    WiredUp(server);
  }

  // ---------------------------------------------------------------------------
  // A delete that is never answered
  // ---------------------------------------------------------------------------

  /** All acknowledgements of a delete arrive, of which others are lost. */
  method LetArrive(server: Barista, id: nat)
    requires server.Valid() && server.Disciplined() && id in server.deleteTable.ledger
    requires 0 < server.deleteTable.ledger[id].lost
    modifies server.deleteTable`inFlight, server.deleteTable`active, server.deleteTable`results,
             server.deleteTable`answers
    modifies server.files`metadata, server.files`pathnameToFileId, server.locks
    ensures server.Valid() && server.Disciplined()
    ensures id in server.deleteTable.inFlight && server.deleteTable.inFlight[id] == 0
    ensures NotAnswered(server, id, server.deleteTable.ledger[id].fileId)
  {
    hide Barista.Valid, LocksMatch, OnlyDeletesSince;
    StillWaiting(server, id);
    while 0 < server.deleteTable.inFlight[id]
      invariant server.Valid() && server.Disciplined() && id in server.deleteTable.inFlight
      invariant NotAnswered(server, id, server.deleteTable.ledger[id].fileId)
      decreases server.deleteTable.inFlight[id]
    {
      server.DeleteResponse(id);
      StillWaiting(server, id);
    }
  }

  /** The delete is pending: its file is in the index and locked. */
  ghost predicate NotAnswered(server: Barista, id: nat, f: int)
    reads server.deleteTable, server.files, server.locks
  {
    && id !in server.deleteTable.answers && id in server.deleteTable.active && f in server.files.metadata
    && f in server.locks.fileLocks && Holds(server.locks.fileLocks, server.deleteTable.active[id].client, f, Exclusive)
  }

  lemma StillWaiting(server: Barista, id: nat)
    requires server.Valid() && server.Disciplined() && id in server.deleteTable.ledger
    requires 0 < server.deleteTable.ledger[id].lost
    ensures id in server.deleteTable.inFlight
    ensures NotAnswered(server, id, server.deleteTable.ledger[id].fileId)
  {
    hide AllStored, CursorsInside, Inv, ReadInv, MutuallyInverse, SentBefore;
    assert DeleteRequestInv(server.deleteTable.StateNow(), id);
    DeleteAnsweredByInv(server.deleteTable.StateNow(), id);
  }

  lemma ReleasedUnheld(locks: map<int, FileLock>, locks': map<int, FileLock>, client: Client, f: int)
    requires Holds(locks, client, f, Exclusive) && Released(locks, locks', client, f)
    ensures Unheld(locks', f)
  {
  }

  lemma OneCopyLost(io: IoState, client: Client, f: int)
    requires OneChunk(io, f) && io.up == AllNodes() && io.reachable == NodesUp(AllNodes()) - {FIRST}
    ensures 0 < DeleteEntryFor(io, client, f).lost && DeleteEntryFor(io, client, f).fileId == f
  {
    var copies, lost := CopiesOf(io, f), NodesUp(io.up) - io.reachable;
    assert FIRST in io.up;
    assert FileChunk(f, 1, 1) in copies.nodes && copies.nodes[FileChunk(f, 1, 1)] in lost;
    CopiesOnNone(copies, lost);
    hide CopiesOn;
  }

  lemma AllErased(io: IoState, chunks: seq<FileChunk>, id: nat, f: int)
    requires OneChunk(io, f) && io.up == AllNodes() && ChunksOfFile(chunks, io.nodes, f)
    ensures NoMappings(DeleteChunks(io, chunks, id), f)
  {
    DeleteLeavesBehind(io, chunks, id, f);
    hide DeleteChunks, ChunksOfFile;
    assert FIRST in io.up && FIRST_REPLICA in io.up;
    assert OnNodesDown(CopiesOf(io, f), io.up) == NO_COPIES;
    NoCopiesNoMappings(DeleteChunks(io, chunks, id), f);
  }

  /** A file is deleted while the node of its primary is taken to be up and cannot be reached. The file is in no
      chunk table any more, all acknowledgements have arrived, and still the delete is not answered. */
  method LostDelete(server: Barista, pathname: string, client: Client, b: byte) returns (f: int, id: nat)
    requires JustStarted(server) && Proper(client) && |pathname| <= MAX_FILENAME_LENGTH
    modifies server, server.files, server.volatile, server.locks, server.net, server.writeTable, server.io
    modifies server.deleteTable
    ensures server.Valid() && NotAnswered(server, id, f) && NoMappings(server.io.Io(), f)
    ensures id in server.deleteTable.inFlight && server.deleteTable.inFlight[id] == 0
  {
    hide Barista.Valid, LocksMatch, FlatWrite, CopyHas, OnlyDeletesSince, Granted, NoMappings, NotAnswered,
         DeleteChunks, DeleteEntryFor, ChunksOfFile, Holds, Released, Unheld, JustStarted, AllNodes, UpCopiesGone;
    var fd;
    fd, f := MakeFile(server, pathname, client, b);
    CloseAndLose(server, client, fd, f);
    ghost var io := server.io.Io();
    var reply, chunks := server.DeleteFile(pathname, client);
    id := server.volatile.requestId;
    OneCopyLost(io, client, f);
    AllErased(io, chunks, id, f);
    LetArrive(server, id);
  }

  /** The file is closed, and the first node lost. */
  method CloseAndLose(server: Barista, client: Client, fd: nat, f: int)
    requires server.Valid() && server.Disciplined() && Proper(client) && HasOpen(server, client, fd, f)
    modifies server.volatile`fileCursors, server.locks, server.net`reachable
    ensures server.Valid() && server.Disciplined() && Unheld(server.locks.fileLocks, f)
    ensures server.io.Io() == old(server.io.Io()).(reachable := NodesUp(AllNodes()) - {FIRST})
  {
    hide Barista.Valid, LocksMatch, Holds, Released, Unheld;
    WiredUp(server);
    ghost var locks := server.locks.fileLocks;
    var closed := server.CloseFile(fd, client);
    ReleasedUnheld(locks, server.locks.fileLocks, client, f);
    server.NetworkChanges(NodesUp(AllNodes()) - {FIRST});
  }

  // ---------------------------------------------------------------------------
  // A stale read
  // ---------------------------------------------------------------------------

  /** A byte is written and overwritten while its replica node cannot be reached. Then all nodes can be reached
      again, the primary goes down, and a read of the byte waits for the byte that was overwritten. */
  method ReadAfterMissedWrite(server: Barista, pathname: string, client: Client, b: byte, b': byte)
      returns (f: int, id: nat)
    requires JustStarted(server) && Proper(client) && |pathname| <= MAX_FILENAME_LENGTH
    modifies server, server.files, server.volatile, server.locks, server.net, server.writeTable, server.io
    modifies server.readTable
    ensures server.Valid() && f in server.flats && server.flats[f] == map[0 := b']
    ensures id in server.readTable.ledger && Joined(server.readTable.ledger[id].issued) == [b]
  {
    hide Barista.Valid, LocksMatch, FlatWrite, CopyHas, Holds, HasOpen, JustStarted, AllNodes, IssueWrite, Joined,
         ServesAll, Asked, NodesUp, Dense;
    var fd;
    fd, f := MakeFile(server, pathname, client, b);
    ghost var io := server.io.Io();
    ghost var request := OverwriteMissed(server, client, fd, f, b');
    TwoWritesOneByte(b, b');
    ghost var later := server.io.Io();
    MissedKeeps(io, f, request, b');
    WiredUp(server);
    id := ReadByte(server, client, fd, f);
    ByteIsStale(io, f, request, b, b', later, server.readTable.ledger[id].issued);
  }

  /** The byte is overwritten, and the replica misses it. */
  method OverwriteMissed(server: Barista, client: Client, fd: nat, f: int, b: byte)
      returns (ghost request: WriteRequest)
    requires server.Valid() && server.Disciplined() && Proper(client) && HasOpen(server, client, fd, f)
    requires f in server.files.metadata
    modifies server`flats, server.io`chunkToNode, server.io`chunkToReplicaNode, server.io`stale, server.net
    modifies server.files`metadata, server.volatile, server.writeTable
    ensures server.Valid() && server.Disciplined() && HasOpen(server, client, fd, f) && f in server.files.metadata
    ensures 0 < server.files.metadata[f].size
    ensures fd in server.volatile.fileCursors && server.volatile.fileCursors[fd].offset == 0
    ensures f in old(server.flats) && server.flats == old(server.flats)[f := FlatWrite(old(server.flats)[f], 0, [b])]
    ensures server.io.Io() == Missed(old(server.io.Io()), f, request, b)
  {
    hide Barista.Valid, LocksMatch, FlatWrite, Holds, HasOpen, IssueWrite, Dense;
    WiredUp(server);
    server.NetworkChanges(NodesUp(AllNodes()) - {FIRST_REPLICA});
    GoBack(server, client, fd, f);
    request := WriteRequest(server.volatile.requestId + 1, server.volatile.requestId + 2);
    assert FIRST in AllNodes() && SECOND in AllNodes();
    WriteByte(server, client, fd, f, b);
    GoBack(server, client, fd, f);
    server.NetworkChanges(NodesUp(AllNodes()));
    WiredUp(server);
    server.NodeDown(FIRST);
  }

  /** What becomes of the nodes. */
  function Missed(io: IoState, f: int, request: WriteRequest, b: byte): IoState {
    var io' := IssueWrite(io.(reachable := NodesUp(AllNodes()) - {FIRST_REPLICA}), Fragment(1, 1, 0, 0, 1),
                          WriteContext(f, request, [b]));
    io'.(up := Without(io'.up, FIRST), reachable := NodesUp(AllNodes()))
  }

  /** The first byte of the file is read. */
  method ReadByte(server: Barista, client: Client, fd: nat, f: int) returns (id: nat)
    requires server.Valid() && Proper(client) && HasOpen(server, client, fd, f) && f in server.files.metadata
    requires 0 < server.files.metadata[f].size
    requires fd in server.volatile.fileCursors && server.volatile.fileCursors[fd].offset == 0
    requires OneChunk(server.io.Io(), f) && FIRST_REPLICA in server.net.reachable
    modifies server.net`sent, server.volatile`upNodes, server.volatile`fileCursors, server.volatile`requestId,
             server.readTable
    ensures server.Valid() && id in server.readTable.ledger
    ensures ServesAll(old(server.io.Io()), f, [Fragment(1, 1, 0, 0, 1)], server.readTable.ledger[id].issued)
    ensures |server.readTable.ledger[id].issued| == 1
  {
    hide Barista.Valid, LocksMatch, ServesAll, KnownIsRead, OnlyReads, AllFresh;
    WiredUp(server);
    ghost var z := SizesOf(server.files.metadata[f]);
    if Positive(z) {
      OneByteAsked(server.io.Io().nodes, f, z);
    }
    var reply := server.ReadFile(fd, 1, client);
    id := server.volatile.requestId;
  }

  lemma OneByteAsked(nodes: map<FileChunk, int>, f: int, z: Sizes)
    requires Positive(z) && FileChunk(f, 1, 1) in nodes
    ensures Asked(nodes, f, 0, 1, z) == [Fragment(1, 1, 0, 0, 1)]
  {
    OneByteFragment(z);
    AskedPrefix(nodes, f, 1, 0, 0, 1, z, 1);
  }

  /** The chunk stays where it is, and its replica misses the write. */
  lemma MissedKeeps(io: IoState, f: int, request: WriteRequest, b: byte)
    requires OneChunk(io, f) && io.up == AllNodes()
    ensures var later, before := Missed(io, f, request, b), io.(reachable := NodesUp(AllNodes()) - {FIRST_REPLICA});
            var frag, ctx, c := Fragment(1, 1, 0, 0, 1), WriteContext(f, request, [b]), FileChunk(f, 1, 1);
            && OneChunk(later, f) && FIRST_REPLICA in later.reachable && !FromPrimary(later, c)
            && Separated(before) && ReplicaFor(before, c) !in before.reachable
            && later == IssueWrite(before, frag, ctx).(up := later.up, reachable := later.reachable)
  {
    hide Without, PutReplica, PutChunk;
    assert FIRST_REPLICA in AllNodes();
    var before, frag, ctx := io.(reachable := NodesUp(AllNodes()) - {FIRST_REPLICA}), Fragment(1, 1, 0, 0, 1),
      WriteContext(f, request, [b]);
    var io' := IssueWrite(before, frag, ctx);
    assert io'.nodes == io.nodes[FileChunk(f, 1, 1) := FIRST];
    assert io'.replicas == io.replicas[FileChunk(f, 1, 1) := FIRST_REPLICA];
  }

  lemma ByteIsStale(io: IoState, f: int, request: WriteRequest, b: byte, b': byte, later: IoState,
                    pieces: seq<Response>)
    requires OneChunk(io, f) && io.up == AllNodes() && CopyHas(io.replicas, io.sent, FileChunk(f, 1, 1), 0, b)
    requires later == Missed(io, f, request, b')
    requires ServesAll(later, f, [Fragment(1, 1, 0, 0, 1)], pieces) && |pieces| == 1
    ensures Joined(pieces) == [b]
  {
    hide IssueWrite, Serves, AllNodes, NodesUp, CopyHas, CopyReaches, KnownAt, OneChunk, Missed, FromPrimary, Separated,
         ReplicaFor;
    MissedKeeps(io, f, request, b');
    assert Serves(later, f, Fragment(1, 1, 0, 0, 1), pieces[0]);
    HasIsKnown(io.replicas, io.sent, FileChunk(f, 1, 1), 0, b);
    StaleRead(io.(reachable := NodesUp(AllNodes()) - {FIRST_REPLICA}), Fragment(1, 1, 0, 0, 1),
              WriteContext(f, request, [b']), later, b, pieces[0]);
    JoinedOne(pieces);
  }

  lemma HasIsKnown(table: map<FileChunk, int>, sent: seq<Packet>, c: FileChunk, offset: nat, b: byte)
    requires CopyHas(table, sent, c, offset, b)
    ensures KnownAt(table, sent, c, offset) == Some(b) && CopyReaches(table, sent, c, offset + 1)
  {
  }

  lemma JoinedOne(pieces: seq<Response>)
    requires |pieces| == 1
    ensures Joined(pieces) == pieces[0].bytes
  {
    assert Joined(pieces[1..]) == [];
  }
}
