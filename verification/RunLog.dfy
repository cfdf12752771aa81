/** The log of a run of the server, and what the server must look like after it. */
module RunLog {
  import opened EspressoStorage
  import opened Striping
  import opened FileChunks
  import opened PersistentMetadata
  import opened VolatileMetadata
  import opened LockingStrategy
  import opened Requests
  import opened WriteRequests
  import opened ReadRequests
  import opened DeleteRequests
  import opened OpenFiles
  import opened IoManager
  import opened FlatFile
  import opened FlatReads
  import opened BaristaState
  import opened BaristaCore

  /** What clients ask for, and what happens to nodes and to the network. */
  datatype Call =
    | OpenCall(pathname: string, readWrite: bool, append: bool, client: Client)
    | CloseCall(fd: nat, client: Client)
    | SeekCall(fd: nat, offset: nat, whence: Whence, client: Client)
    | WriteCall(fd: nat, buf: seq<byte>, client: Client)
    | ReadCall(fd: nat, count: nat, client: Client)
    | DeleteCall(pathname: string, client: Client)
    | NodeDownCall(node: int)
    | NodeUpCall(node: int)
    | NetworkCall(reachable: set<int>)

  /** What a call came to. A write remembers how many replicas were lost, a read whether all copies that are
      asked have missed no write, and a delete where the copies of the file were, which nodes were taken to
      be up and which could be reached. */
  datatype Outcome =
    | Made(created: set<int>)
    | Wrote(request: WriteRequest, fileId: int, at: nat, buf: seq<byte>, client: Client, fd: int, lost: nat)
    | AskedFor(requestId: nat, fileId: int, at: nat, count: nat, client: Client, fd: int, current: bool)
    | Removed(requestId: nat, fileId: int, client: Client, copies: Copies, up: seq<int>, reachable: set<int>)
    | Nothing

  // ---------------------------------------------------------------------------
  // Files as the log tells them
  // ---------------------------------------------------------------------------

  function AfterOutcome(flat: Flat, e: Outcome, f: int): Flat {
    match e
    case Made(created) => if f in created then map[] else flat
    case Wrote(_, fileId, at, buf, _, _, _) => if f == fileId then FlatWrite(flat, at, buf) else flat
    case Removed(_, fileId, _, _, _, _) => if f == fileId then map[] else flat
    case AskedFor(_, _, _, _, _, _, _) => flat
    case Nothing => flat
  }

  /** The bytes of a file: the last ones written. */
  function Contents(log: seq<Outcome>, f: int): Flat {
    if log == [] then map[] else AfterOutcome(Contents(log[..|log| - 1], f), log[|log| - 1], f)
  }

  function SizeAfter(size: nat, e: Outcome, f: int): nat {
    match e
    case Made(created) => if f in created then 0 else size
    case Wrote(_, fileId, _, buf, _, _, _) => if f == fileId then size + |buf| else size
    case _ => size
  }

  /** The size of a file: the lengths of all writes since it was made. */
  function SizeOf(log: seq<Outcome>, f: int): nat {
    if log == [] then 0 else SizeAfter(SizeOf(log[..|log| - 1], f), log[|log| - 1], f)
  }

  /** Every write to the file since it was made was made at the size of that moment. */
  predicate AppendedOnly(log: seq<Outcome>, f: int) {
    log == [] ||
    var before, e := log[..|log| - 1], log[|log| - 1];
    match e
    case Made(created) => f in created || AppendedOnly(before, f)
    case Wrote(_, fileId, at, _, _, _, _) => AppendedOnly(before, f) && (f == fileId ==> at == SizeOf(before, f))
    case _ => AppendedOnly(before, f)
  }

  ghost predicate NeverRemoved(log: seq<Outcome>, f: int) {
    forall i :: 0 <= i < |log| ==> !(log[i].Removed? && log[i].fileId == f)
  }

  /** Writes are not empty, and begin inside the file or at its end. */
  ghost predicate WriteInside(log: seq<Outcome>, i: nat) {
    i < |log| && log[i].Wrote? ==> log[i].buf != [] && log[i].at <= SizeOf(log[..i], log[i].fileId)
  }

  ghost predicate WritesInside(log: seq<Outcome>) {
    forall i: nat :: WriteInside(log, i)
  }

  lemma WritesInsideBefore(log: seq<Outcome>, e: Outcome)
    requires WritesInside(log + [e])
    ensures WritesInside(log) && WriteInside(log + [e], |log|)
  {
    forall i: nat ensures WriteInside(log, i) {
      assert WriteInside(log + [e], i);
      assert i < |log| ==> (log + [e])[..i] == log[..i];
    }
  }

  lemma WritesInsideSnoc(log: seq<Outcome>, e: Outcome)
    requires WritesInside(log)
    requires e.Wrote? ==> e.buf != [] && e.at <= SizeOf(log, e.fileId)
    ensures WritesInside(log + [e])
  {
    forall i: nat ensures WriteInside(log + [e], i) {
      assert WriteInside(log, i);
      assert i <= |log| ==> (log + [e])[..i] == log[..i];
    }
  }

  /** For every file that was not deleted: its size is the number of its bytes, and these are all
      written, if and only if all writes to it appended. */
  lemma {:induction false} LogSizeExact(log: seq<Outcome>, f: int)
    requires WritesInside(log) && NeverRemoved(log, f)
    ensures Below(Contents(log, f), SizeOf(log, f))
    ensures Dense(Contents(log, f), SizeOf(log, f)) <==> AppendedOnly(log, f)
  {
    if log != [] {
      var before, e := log[..|log| - 1], log[|log| - 1];
      assert log == before + [e];
      WritesInsideBefore(before, e);
      LogSizeExact(before, f);
      if e.Wrote? && e.fileId == f {
        FlatWriteFacts(Contents(before, f), e.at, e.buf);
        hide FlatWrite;
        SizeExactIffAppended(Contents(before, f), SizeOf(before, f), e.at, e.buf);
      }
    }
  }

  // ---------------------------------------------------------------------------
  // The server against the log
  // ---------------------------------------------------------------------------

  /** What can be seen of the server: all of its state but the tables of pending reads and writes. */
  datatype View = View(names: map<string, int>, files: map<int, FileInfo>, nextFileId: nat, z: Sizes, flats: Flats,
                       lastId: nat, writeLedger: map<WriteRequest, Entry>, readLedger: map<nat, ReadEntry>,
                       deleteLedger: map<nat, DeleteEntry>, deletes: map<nat, RequestInfo>,
                       cursors: map<nat, FileInstance>, lastFd: nat, locks: map<int, FileLock>, io: IoState)

  ghost function ViewOf(server: Barista): View
    reads server, server.files, server.volatile, server.locks, server.io
    reads server.io.net, server.io.volatile`upNodes, server.writeTable, server.readTable, server.deleteTable
  {
    View(server.files.pathnameToFileId, server.files.metadata, server.files.nextFileId, server.NewSizes(), server.flats,
         server.volatile.requestId, server.writeTable.ledger, server.readTable.ledger, server.deleteTable.ledger,
         server.deleteTable.active, server.volatile.fileCursors, server.volatile.lastFd, server.locks.fileLocks,
         server.io.Io())
  }

  /** The entry of a write that was issued completely, with the length of its buffer. */
  ghost predicate WriteEntry(v: View, request: WriteRequest, client: Client, fd: int, n: nat, lost: nat) {
    && request.requestId <= v.lastId && request in v.writeLedger
    && var e := v.writeLedger[request];
       && e.client == client && e.fd == fd && e.total == n && e.lost == lost && e.finished
       && e.issued == e.replicasIssued
  }

  /** The entry of a read; when the range was written and the copies are current, it is issued completely, and
      the pieces that it waits for are the bytes of the range, up to where the file ends. */
  ghost predicate ReadEntryOf(v: View, requestId: nat, client: Client, fd: int, flat: Flat, size: nat, at: nat,
                              count: nat, current: bool) {
    && requestId <= v.lastId && requestId in v.readLedger
    && v.readLedger[requestId].client == client && v.readLedger[requestId].fd == fd
    && at < size && 0 < count
    && (current ==> KnownIsRead(flat, size, at, count, v.readLedger, requestId))
  }

  /** The entry of a delete, which was issued to the copies on nodes that were up, and lost where these could
      not be reached. It waits for acknowledgements if there are any to come. */
  ghost predicate DeleteEntryOf(v: View, requestId: nat, client: Client, f: int, copies: Copies, up: seq<int>,
                                reachable: set<int>) {
    && requestId <= v.lastId && requestId in v.deleteLedger
    && var e := v.deleteLedger[requestId];
       && e.client == client && e.fileId == f && (e.finished <==> 0 < e.issued)
       && e.issued == CopiesOn(copies, NodesUp(up)) && e.lost == CopiesOn(copies, NodesUp(up) - reachable)
  }

  ghost predicate Remembered(v: View, log: seq<Outcome>, i: nat) {
    i < |log| ==>
      match log[i]
      case Wrote(request, _, _, buf, client, fd, lost) => WriteEntry(v, request, client, fd, |buf|, lost)
      case AskedFor(requestId, f, at, count, client, fd, current) =>
        ReadEntryOf(v, requestId, client, fd, Contents(log[..i], f), SizeOf(log[..i], f), at, count, current)
      case Removed(requestId, f, client, copies, up, reachable) =>
        DeleteEntryOf(v, requestId, client, f, copies, up, reachable)
      case _ => true
  }

  /** The files are as the log tells, byte for byte and with their sizes, and the server remembers all
      requests in the log. */
  ghost predicate Agrees(v: View, log: seq<Outcome>) {
    && (forall f :: f in v.files ==>
          f in v.flats && v.flats[f] == Contents(log, f) && v.files[f].size == SizeOf(log, f))
    && (forall i: nat :: Remembered(v, log, i))
    && WritesInside(log)
  }

  /** Requests of the past are kept, but for answers that have arrived. */
  ghost predicate RequestsKept(v: View, v': View) {
    && v.lastId <= v'.lastId
    && (forall r :: r in v.writeLedger && r.requestId <= v.lastId ==>
          r in v'.writeLedger && v'.writeLedger[r] == v.writeLedger[r])
    && (forall id :: id in v.readLedger && id <= v.lastId ==>
          && id in v'.readLedger
          && v'.readLedger[id] == v.readLedger[id].(arrived := v'.readLedger[id].arrived))
    && (forall id :: id in v.deleteLedger && id <= v.lastId ==>
          id in v'.deleteLedger && v'.deleteLedger[id] == v.deleteLedger[id])
  }

  /** What one event does to the contents and the sizes of all files. */
  ghost predicate ContentsStep(v: View, v': View, e: Outcome) {
    forall f :: f in v'.files ==>
      && f in v'.flats
      && if f in v.files then
           && f in v.flats && v'.flats[f] == AfterOutcome(v.flats[f], e, f)
           && v'.files[f].size == SizeAfter(v.files[f].size, e, f)
         else e.Made? && f in e.created && v'.flats[f] == map[] && v'.files[f].size == 0
  }

  /** One event. */
  ghost predicate IsStep(v: View, v': View, e: Outcome) {
    && RequestsKept(v, v') && ContentsStep(v, v', e)
    && match e
       case Made(created) => forall f :: f in created ==> f !in v.files
       case Wrote(request, f, at, buf, client, fd, lost) =>
         buf != [] && f in v.files && at <= v.files[f].size && WriteEntry(v', request, client, fd, |buf|, lost)
       case AskedFor(requestId, f, at, count, client, fd, current) =>
         f in v.files && f in v.flats
         && ReadEntryOf(v', requestId, client, fd, v.flats[f], v.files[f].size, at, count, current)
       case Removed(requestId, f, client, copies, up, reachable) =>
         f in v.files && copies == CopiesOf(v.io, f) && DeleteEntryOf(v', requestId, client, f, copies, up, reachable)
       case Nothing => true
  }

  lemma EntryKept(v: View, v': View, requestId: nat, client: Client, fd: int, flat: Flat, size: nat, at: nat,
                  count: nat, current: bool)
    requires RequestsKept(v, v') && ReadEntryOf(v, requestId, client, fd, flat, size, at, count, current)
    ensures ReadEntryOf(v', requestId, client, fd, flat, size, at, count, current)
  {
  }

  lemma RememberedKept(v: View, v': View, log: seq<Outcome>, e: Outcome, i: nat)
    requires RequestsKept(v, v') && Remembered(v, log, i) && i < |log|
    ensures Remembered(v', log + [e], i)
  {
    hide KnownIsRead, ReadEntryOf, Contents, SizeOf, CopiesOn;
    assert (log + [e])[i] == log[i] && (log + [e])[..i] == log[..i];
    match log[i] {
      case AskedFor(requestId, f, at, count, client, fd, current) =>
        EntryKept(v, v', requestId, client, fd, Contents(log[..i], f), SizeOf(log[..i], f), at, count, current);
      case _ =>
    }
  }

  /** Each event keeps the server and its log in agreement. */
  lemma StepAgrees(v: View, v': View, log: seq<Outcome>, e: Outcome)
    requires Agrees(v, log) && IsStep(v, v', e)
    ensures Agrees(v', log + [e])
  {
    hide RequestsKept, ReadEntryOf, WriteEntry, DeleteEntryOf, WritesInside;
    var log' := log + [e];
    assert log'[..|log|] == log;
    WritesInsideSnoc(log, e);
    forall i: nat ensures Remembered(v', log', i) {
      if i < |log| {
        assert Remembered(v, log, i);
        RememberedKept(v, v', log, e, i);
      }
    }
  }

  /** Responses keep it as well, without any event. */
  ghost predicate IsQuiet(v: View, v': View) {
    && RequestsKept(v, v')
    && (forall f :: f in v'.files ==>
          f in v.files && v'.files[f] == v.files[f] && f in v.flats && f in v'.flats && v'.flats[f] == v.flats[f])
  }

  lemma QuietStep(v: View, v': View)
    requires IsQuiet(v, v')
    ensures IsStep(v, v', Nothing)
  {
  }

  lemma QuietAgrees(v: View, v': View, log: seq<Outcome>)
    requires Agrees(v, log) && IsQuiet(v, v')
    ensures Agrees(v', log)
  {
    hide RequestsKept, ReadEntryOf, WriteEntry, DeleteEntryOf, WritesInside;
    forall i: nat ensures Remembered(v', log, i) {
      assert Remembered(v, log, i);
      if i < |log| {
        RememberedKept(v, v', log, Nothing, i);
        assert (log + [Nothing])[..i] == log[..i];
      }
    }
  }

  // ---------------------------------------------------------------------------
  // What each call does
  // ---------------------------------------------------------------------------

  /** An open shares a file that a process of the same user holds exclusively. */
  predicate CallOffends(v: View, call: Call) {
    call.OpenCall? && Offends(v.locks, v.names, call.pathname, call.readWrite, call.client)
  }

  /** An open finds or makes a file, and gives its client a descriptor if the lock is granted. */
  ghost predicate OpenFits(v: View, v': View, pathname: string, readWrite: bool, append: bool, client: Client,
                           e: Outcome) {
    var f := if pathname in v'.names then v'.names[pathname] else FILENAME_INVALID;
    var mode := if readWrite then Exclusive else Shared;
    && e == Made(v'.files.Keys - v.files.Keys)
    && v' == v.(names := v'.names, files := v'.files, nextFileId := v'.nextFileId, flats := v'.flats,
                cursors := v'.cursors, lastFd := v'.lastFd, locks := v'.locks)
    && FoundOrMade(v.names, v'.names, v.files, v'.files, v.nextFileId, v'.nextFileId, pathname, readWrite, v.z, f)
    && FilesKept(v.files, v'.files, v.flats, v'.flats)
    && if (pathname in v.names || readWrite) && Grantable(v.locks, f, client, mode) then
         && v'.lastFd == v.lastFd + 1 && v'.lastFd !in v.cursors && v'.lastFd in v'.cursors
         && v'.cursors == v.cursors[v'.lastFd := FileInstance(client, f, v'.cursors[v'.lastFd].offset)]
         && (f in v'.files ==> v'.cursors[v'.lastFd].offset == if append then v'.files[f].size else 0)
         && v'.locks == Granted(v.locks, f, client, mode)
       else
         v'.cursors == v.cursors && v'.lastFd == v.lastFd && (AllConsistent(v.locks) ==> v'.locks == v.locks)
  }

  /** A close takes the descriptor and its lock from the client that opened it. */
  ghost predicate CloseFits(v: View, v': View, fd: nat, client: Client, e: Outcome) {
    && e == Nothing && v' == v.(cursors := v'.cursors, locks := v'.locks)
    && if fd in v.cursors && v.cursors[fd].client == client then
         && v'.cursors == v.cursors - {fd}
         && if 0 < v.cursors[fd].fileId then Released(v.locks, v'.locks, client, v.cursors[fd].fileId)
            else v'.locks == v.locks
       else v' == v
  }

  /** A seek moves a cursor of the client. */
  ghost predicate SeekFits(v: View, v': View, fd: nat, offset: nat, whence: Whence, client: Client, e: Outcome) {
    && e == Nothing && v' == v.(cursors := v'.cursors) && SameOpen(v.cursors, v'.cursors)
    && (fd in v'.cursors ==> v'.cursors == v.cursors[fd := v'.cursors[fd]])
    && if fd in v.cursors && v.cursors[fd].client == client then
         var inst := v.cursors[fd];
         inst.fileId in v.files ==>
           && v'.cursors == v.cursors[fd := inst.(
                offset := SoughtOffset(inst.offset, offset, whence, v.files[inst.fileId].size))]
           && LandsAt(v'.cursors[fd].offset, inst.offset, offset, whence, v.files[inst.fileId].size)
       else v' == v
  }

  /** A write is refused and uses up two ids, or it writes the buffer at the cursor of its descriptor. The cursor
      of its own client moves behind what was written, and the file is that much longer. */
  ghost predicate WriteFits(v: View, v': View, fd: nat, buf: seq<byte>, client: Client, e: Outcome) {
    if !WritePasses(v.locks, v.files, v.cursors, fd, buf, client) then
      e == Nothing && v' == v.(lastId := v.lastId + 2)
    else
      var f, at, request := v.cursors[fd].fileId, v.cursors[fd].offset, WriteRequest(v.lastId + 1, v.lastId + 2);
      var before := Snapshot(v.io, v.writeLedger, v.files, v.cursors);
      var w, z := Writing(fd, client, WriteContext(f, request, buf)), SizesOf(v.files[f]);
      && Open(before, w) && Positive(z) && f in v.flats
      && v'.files == v.files[f := v.files[f].(size := v.files[f].size + |buf|)]
      && v'.cursors == (if v.cursors[fd].client != client then v.cursors
                        else v.cursors[fd := v.cursors[fd].(offset := at + |buf|)])
      && var after := AfterWrite(before, w, at, z);
         && e == Wrote(request, f, at, buf, client, fd, after.ledger[request].lost)
         && v' == v.(lastId := v.lastId + 2, writeLedger := after.ledger, files := after.files, io := after.io,
                     cursors := after.cursors, flats := v.flats[f := FlatWrite(v.flats[f], at, buf)])
  }

  /** A read is refused and uses up an id, or it asks for what there is of the range at the cursor. The cursor of
      its own client moves to the end of the range, or of the file if that comes first. */
  ghost predicate ReadFits(v: View, v': View, fd: nat, count: nat, client: Client, e: Outcome) {
    if !ReadPasses(v.locks, v.files, v.cursors, fd, count, client) then
      e == Nothing && v' == v.(lastId := v.lastId + 1)
    else
      var f, at, id := v.cursors[fd].fileId, v.cursors[fd].offset, v.lastId + 1;
      && Positive(SizesOf(v.files[f]))
      && e == AskedFor(id, f, at, count, client, fd, AllFresh(v.io, f, RangeOf(v.files[f], at, count)))
      && v' == v.(lastId := id, readLedger := v'.readLedger, io := v'.io,
                  cursors := Clamped(v.cursors, fd, client, count, v.files[f].size))
      && v'.cursors == (if v.cursors[fd].client != client then v.cursors
                        else v.cursors[fd := v.cursors[fd].(offset := Min(at + count, v.files[f].size))])
      && OnlyReads(v.io, v'.io)
      && ReadSent(v.io, v.readLedger, v'.readLedger, id, fd, client, f,
                  Asked(v.io.nodes, f, at, count, SizesOf(v.files[f])))
  }

  /** Some of these deletes may have been answered, and then their files are gone. */
  ghost predicate SomeAnswered(deletes: map<nat, RequestInfo>, v: View, v': View) {
    var gone := v.files.Keys - v'.files.Keys;
    && v'.files == v.files - gone && gone <= ActiveFiles(deletes) && MutuallyInverse(v'.names, v'.files)
    && FewerDeletes(deletes, v'.deletes)
    && forall id :: id in deletes && id !in v'.deletes ==> deletes[id].fileId !in v'.files
  }

  ghost predicate ChunksDeleted(io: IoState, io': IoState, f: int, id: nat) {
    exists chunks :: ChunksOfFile(chunks, io.nodes, f) && io' == DeleteChunks(io, chunks, id)
  }

  /** A delete is refused and uses up an id, or it deletes the copies of the file on nodes that are up. */
  ghost predicate DeleteFits(v: View, v': View, pathname: string, client: Client, e: Outcome) {
    if pathname !in v.names || !Unheld(v.locks, v.names[pathname]) then
      e == Nothing && v' == v.(lastId := v.lastId + 1)
    else
      var f, id := v.names[pathname], v.lastId + 1;
      && f in v.files && e == Removed(id, f, client, CopiesOf(v.io, f), v.io.up, v.io.reachable)
      && v' == v.(lastId := id, names := v'.names, files := v'.files, flats := v.flats[f := map[]], locks := v'.locks,
                  deletes := v'.deletes, io := v'.io,
                  deleteLedger := v.deleteLedger[id := DeleteEntryFor(v.io, client, f)])
      && ChunksDeleted(v.io, v'.io, f, id)
      && SomeAnswered(v.deletes[id := RequestInfo(0, 0, f, client)], v, v')
  }

  /** Whether a call, made when the server looked like `v`, may leave it looking like `v'` and come to `e`. */
  ghost predicate Fits(call: Call, v: View, v': View, e: Outcome) {
    match call
    case OpenCall(pathname, readWrite, append, client) => OpenFits(v, v', pathname, readWrite, append, client, e)
    case CloseCall(fd, client) => CloseFits(v, v', fd, client, e)
    case SeekCall(fd, offset, whence, client) => SeekFits(v, v', fd, offset, whence, client, e)
    case WriteCall(fd, buf, client) => WriteFits(v, v', fd, buf, client, e)
    case ReadCall(fd, count, client) => ReadFits(v, v', fd, count, client, e)
    case DeleteCall(pathname, client) => DeleteFits(v, v', pathname, client, e)
    case NodeDownCall(node) => e == Nothing && v' == v.(io := v.io.(up := Without(v.io.up, node)))
    case NodeUpCall(node) => e == Nothing && v' == v.(io := v.io.(up := With(v.io.up, node)))
    case NetworkCall(reachable) => e == Nothing && v' == v.(io := v.io.(reachable := reachable))
  }

  /** What the arrival of responses does. */
  ghost predicate ResponsesFit(v: View, v': View) {
    && v' == v.(names := v'.names, files := v'.files, locks := v'.locks, deletes := v'.deletes,
                readLedger := v'.readLedger)
    && ArrivedOnly(v.readLedger, v'.readLedger) && SomeAnswered(v.deletes, v, v')
  }
}
