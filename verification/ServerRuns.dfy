/** Whole runs of the server: clients open, read, write and delete files, nodes go down and come back, the
    network changes, and responses arrive in any order in between. Clients see flat files. */
module ServerRuns {
  import opened EspressoStorage
  import opened EspressoRuns
  import opened Nodes
  import opened Striping
  import opened FileChunks
  import opened PersistentMetadata
  import opened VolatileMetadata
  import opened LockingStrategy
  import opened WriteRequests
  import opened ReadRequests
  import opened Requests
  import opened DeleteRequests
  import opened OpenFiles
  import opened IoManager
  import opened FlatFile
  import opened FlatReads
  import opened BaristaState
  import opened BaristaCore
  import opened RunLog
  import opened RunOrder

  /** What the server demands of its callers. */
  predicate Sensible(call: Call) {
    match call
    case OpenCall(_, _, _, client) => Proper(client)
    case CloseCall(_, client) => Proper(client)
    case SeekCall(_, offset, _, _) => offset <= MAX_OFFSET
    case WriteCall(fd, _, client) => 0 < fd && Proper(client)
    case ReadCall(fd, _, client) => 0 < fd && Proper(client)
    case DeleteCall(_, client) => Proper(client)
    case _ => true
  }

  /** Whether the server gets to the end of a call. It keeps trying to write to a primary that cannot be
      reached, and to read a chunk of which no copy can be reached. */
  predicate CanServe(server: Barista, call: Call)
    reads server.files, server.locks, server.volatile, server.io, server.io.volatile`upNodes, server.io.net`reachable
  {
    var inst := if call.WriteCall? || call.ReadCall? then server.GetFileInfo(call.fd) else server.GetFileInfo(0);
    var files, cursors, locks := server.files.metadata, server.volatile.fileCursors, server.locks.fileLocks;
    match call
    case WriteCall(fd, buf, client) =>
      WritePasses(locks, files, cursors, fd, buf, client) ==>
        server.io.Writable(inst.fileId, RangeOf(files[inst.fileId], inst.offset, |buf|))
    case ReadCall(fd, count, client) =>
      ReadPasses(locks, files, cursors, fd, count, client) ==>
        var z := SizesOf(files[inst.fileId]);
        0 < z.stripeSize && 0 < z.chunkSize ==>
          server.io.Readable(inst.fileId, Asked(server.io.chunkToNode, inst.fileId, inst.offset, count, z))
    case _ => true
  }

  /** What one call does, what event it is, and that everything stays in order as long as nobody shares what
      its own user holds exclusively. */
  ghost predicate Served(call: Call, v: View, v': View, e: Outcome) {
    && Fits(call, v, v', e) && IsStep(v, v', e) && Separated(v.io)
    && (InOrder(v) && !CallOffends(v, call) ==> OrderStep(v, v', e))
  }

  // ---------------------------------------------------------------------------
  // The steps of a run
  // ---------------------------------------------------------------------------

  lemma ServerFacts(server: Barista)
    requires server.Valid()
    ensures forall f :: f in server.files.metadata ==> f in server.flats
    ensures server.Wired() && Separated(server.io.Io()) && Numbered(ViewOf(server))
    ensures MutuallyInverse(server.files.pathnameToFileId, server.files.metadata)
    ensures forall id :: id in server.deleteTable.active ==> id <= server.volatile.requestId
  {
    hide StoresFile, Inv, ReadInv, DeleteInv, MutuallyInverse, IoManagerTable.Valid;
    ActiveDeletesOld(server.deleteTable.StateNow());
  }

  lemma NumberedNow(server: Barista)
    requires server.Valid()
    ensures Numbered(ViewOf(server))
  {
    hide Barista.Valid;
    ServerFacts(server);
  }

  /** A step without event keeps the promises of both kinds. */
  lemma QuietIsServed(call: Call, v: View, v': View)
    requires Separated(v.io) && Fits(call, v, v', Nothing) && IsQuiet(v, v')
    requires InOrder(v) ==> OrderStep(v, v', Nothing)
    ensures Served(call, v, v', Nothing)
  {
    hide Fits;
    QuietStep(v, v');
  }

  /** A file was opened, or the open refused; in any case a file may have been made. */
  lemma OpenServed(v: View, v': View, e: Outcome, call: Call)
    requires Separated(v.io) && call.OpenCall?
    requires OpenFits(v, v', call.pathname, call.readWrite, call.append, call.client, e)
    requires NewIds(v.files, v'.files, v.nextFileId, v'.nextFileId)
    requires Numbered(v')
    requires InOrder(v) && !CallOffends(v, call) ==> LocksMatch(v'.cursors, v'.files, v'.locks, v'.deletes)
    ensures Served(call, v, v', e)
  {
    hide LocksMatch, LivePaired, FoundOrMade, Grantable, Granted, OrderStep, InOrder, CallOffends, Separated;
    if InOrder(v) && !CallOffends(v, call) {
      OpenInOrder(v, v', e, call);
    }
  }

  lemma OpenInOrder(v: View, v': View, e: Outcome, call: Call)
    requires call.OpenCall? && OpenFits(v, v', call.pathname, call.readWrite, call.append, call.client, e)
    requires NewIds(v.files, v'.files, v.nextFileId, v'.nextFileId) && Numbered(v') && InOrder(v)
    requires LocksMatch(v'.cursors, v'.files, v'.locks, v'.deletes)
    ensures OrderStep(v, v', e)
  {
    hide LocksMatch, LivePaired, FoundOrMade, Grantable, Granted, Numbered;
    MatchedLocksValid(v.cursors, v.files, v.locks, v.deletes);
    if v'.lastFd in v'.cursors {
      OpenedExists(v'.cursors, v'.files, v'.locks, v'.deletes, v'.lastFd);
    }
    GrantedKeys(v.locks, if call.pathname in v'.names then v'.names[call.pathname] else FILENAME_INVALID, call.client,
                if call.readWrite then Exclusive else Shared);
    hide AllConsistent, OrderStep;
    UntouchedOrder(v, v');
    AsOrdered(v, v', e);
  }

  lemma GrantedKeys(locks: map<int, FileLock>, f: int, client: Client, mode: Mode)
    ensures Granted(locks, f, client, mode).Keys == locks.Keys + {f}
  {
  }

  method ServeOpen(server: Barista, call: Call) returns (ghost e: Outcome)
    requires server.Valid() && call.OpenCall? && Proper(call.client)
    modifies server`flats, server.files, server.volatile`fileCursors, server.volatile`lastFd, server.locks
    ensures server.Valid() && Served(call, old(ViewOf(server)), ViewOf(server), e)
  {
    hide Barista.Valid, LocksMatch, Grantable, Granted, HeldExclusivelyByUser, LivePaired, AllConsistent, Served;
    hide Numbered, FilesKept, NewIds, FoundOrMade, Separated, MutuallyInverse, Offends;
    ghost var v := ViewOf(server);
    ServerFacts(server);
    var reply := server.OpenFile(call.pathname, call.readWrite, call.append, call.client);
    ghost var v' := ViewOf(server);
    NumberedNow(server);
    e := Made(v'.files.Keys - v.files.Keys);
    OpenServed(v, v', e, call);
  }

  lemma OpenedExists(cursors: map<nat, FileInstance>, files: map<int, FileInfo>, locks: map<int, FileLock>,
                     active: map<nat, RequestInfo>, fd: nat)
    requires LocksMatch(cursors, files, locks, active) && fd in cursors
    ensures cursors[fd].fileId in files || cursors[fd].fileId == FILENAME_INVALID
    ensures cursors[fd].fileId !in ActiveFiles(active)
  {
  }

  method ServeClose(server: Barista, call: Call) returns (ghost e: Outcome)
    requires server.Valid() && call.CloseCall? && Proper(call.client)
    modifies server.volatile`fileCursors, server.locks
    ensures server.Valid() && Served(call, old(ViewOf(server)), ViewOf(server), e)
  {
    hide Barista.Valid, LocksMatch, LivePaired, OrderStep, AllConsistent, Numbered, Served, Separated, Released,
         IsQuiet;
    ghost var v := ViewOf(server);
    ServerFacts(server);
    var r := server.CloseFile(call.fd, call.client);
    e := Nothing;
    CloseServed(v, ViewOf(server), call);
  }

  lemma CloseServed(v: View, v': View, call: Call)
    requires Separated(v.io) && call.CloseCall? && CloseFits(v, v', call.fd, call.client, Nothing)
    requires forall f :: f in v.files ==> f in v.flats
    requires InOrder(v) ==> LocksMatch(v'.cursors, v'.files, v'.locks, v'.deletes)
    ensures Served(call, v, v', Nothing)
  {
    hide LocksMatch, LivePaired, OrderStep, Released;
    if InOrder(v) {
      CloseOrder(v, v', call.fd, call.client);
    }
    QuietIsServed(call, v, v');
  }

  lemma CloseOrder(v: View, v': View, fd: nat, client: Client)
    requires InOrder(v) && CloseFits(v, v', fd, client, Nothing)
    requires LocksMatch(v'.cursors, v'.files, v'.locks, v'.deletes)
    ensures OrderStep(v, v', Nothing)
  {
    if v' != v {
      OpenedExists(v.cursors, v.files, v.locks, v.deletes, fd);
      assert forall f :: 0 < f && f in v'.locks ==> f in v.locks || f in v'.files;
    }
    hide LocksMatch, Released, LivePaired;
    UntouchedOrder(v, v');
  }

  method ServeSeek(server: Barista, call: Call) returns (ghost e: Outcome)
    requires server.Valid() && call.SeekCall? && call.offset <= MAX_OFFSET
    modifies server.volatile`fileCursors
    ensures server.Valid() && Served(call, old(ViewOf(server)), ViewOf(server), e)
  {
    hide Barista.Valid, LocksMatch, LivePaired, OrderStep, Served, SoughtOffset, SameOpen, Numbered, Separated;
    ghost var v := ViewOf(server);
    ServerFacts(server);
    var r := server.FileSeek(call.fd, call.offset, call.whence, call.client);
    e := Nothing;
    SeekServed(v, ViewOf(server), call);
  }

  lemma SeekServed(v: View, v': View, call: Call)
    requires Separated(v.io) && call.SeekCall?
    requires SeekFits(v, v', call.fd, call.offset, call.whence, call.client, Nothing)
    requires forall f :: f in v.files ==> f in v.flats
    requires InOrder(v) ==> LocksMatch(v'.cursors, v'.files, v'.locks, v'.deletes)
    ensures Served(call, v, v', Nothing)
  {
    hide LocksMatch, LivePaired, SoughtOffset;
    if InOrder(v) {
      UntouchedOrder(v, v');
    }
    hide OrderStep;
    QuietIsServed(call, v, v');
  }

  lemma CanServeWrite(server: Barista, call: Call)
    requires call.WriteCall? && CanServe(server, call)
    ensures var inst := server.GetFileInfo(call.fd);
            WritePasses(server.locks.fileLocks, server.files.metadata, server.volatile.fileCursors, call.fd, call.buf,
                        call.client) ==>
              inst.fileId in server.files.metadata
              && server.io.Writable(inst.fileId, RangeOf(server.files.metadata[inst.fileId], inst.offset, |call.buf|))
  {
    hide Holds, RangeOf, IoManagerTable.Writable;
  }

  method ServeWrite(server: Barista, call: Call) returns (ghost e: Outcome)
    requires server.Valid() && call.WriteCall? && Proper(call.client) && 0 < call.fd && CanServe(server, call)
    modifies server`flats, server.io`chunkToNode, server.io`chunkToReplicaNode, server.io`stale, server.net`sent
    modifies server.files`metadata, server.volatile`fileCursors, server.volatile`upNodes, server.volatile`requestId
    modifies server.writeTable
    ensures server.Valid() && Served(call, old(ViewOf(server)), ViewOf(server), e)
  {
    hide Barista.Valid, LocksMatch, LivePaired, OrderStep, AfterWrite, FlatWrite, Holds, Dense, IsStep, Served;
    hide IoManagerTable.Writable, RangeOf, Numbered, Separated, Open, MutuallyInverse, WritePasses, WriteFits,
         BufferWritten, Offends, InstanceOf, CanServe;
    CanServeWrite(server, call);
    ghost var v, before := ViewOf(server), server.Snap();
    ServerFacts(server);
    var reply := server.WriteFile(call.fd, call.buf, call.client);
    e := WriteFitsNow(v, ViewOf(server), call, before, server.Snap(), reply.Accepted?);
    WriteServed(v, ViewOf(server), call, e);
  }

  /** What the server did is what the call was to do. */
  lemma WriteFitsNow(v: View, v': View, call: Call, s: Snapshot, s': Snapshot, accepted: bool) returns (e: Outcome)
    requires call.WriteCall? && (accepted <==> WritePasses(v.locks, v.files, v.cursors, call.fd, call.buf, call.client))
    requires s == Snapshot(v.io, v.writeLedger, v.files, v.cursors)
    requires s' == Snapshot(v'.io, v'.writeLedger, v'.files, v'.cursors)
    requires v' == v.(lastId := v.lastId + 2, writeLedger := v'.writeLedger, files := v'.files, io := v'.io,
                      cursors := v'.cursors, flats := v'.flats)
    requires !accepted ==> s' == s && v'.flats == v.flats
    requires accepted ==> BufferWritten(s, s', v.flats, v'.flats, v.lastId, call.fd, call.buf, call.client)
    ensures WriteFits(v, v', call.fd, call.buf, call.client, e)
  {
    hide AfterWrite, FlatWrite, Holds, Open, Dense;
    if accepted {
      var request := WriteRequest(v.lastId + 1, v.lastId + 2);
      e := Wrote(request, v.cursors[call.fd].fileId, v.cursors[call.fd].offset, call.buf, call.client, call.fd,
                 s'.ledger[request].lost);
    } else {
      e := Nothing;
    }
  }

  /** A call was refused, or changed only the network or which nodes are up. */
  lemma RefusedServed(call: Call, v: View, v': View)
    requires Separated(v.io) && Fits(call, v, v', Nothing)
    requires v' == v.(lastId := v'.lastId, io := v'.io) && v.lastId <= v'.lastId
    requires v'.io.nodes == v.io.nodes && v'.io.replicas == v.io.replicas
    requires forall f :: f in v.files ==> f in v.flats
    ensures Served(call, v, v', Nothing)
  {
    hide LocksMatch, LivePaired, Fits;
    if InOrder(v) {
      UntouchedOrder(v, v');
    }
    QuietIsServed(call, v, v');
  }

  /** A write was accepted or refused. */
  lemma WriteServed(v: View, v': View, call: Call, e: Outcome)
    requires Separated(v.io) && call.WriteCall? && WriteFits(v, v', call.fd, call.buf, call.client, e)
    requires forall f :: f in v.files ==> f in v.flats
    ensures Served(call, v, v', e)
  {
    hide LocksMatch, LivePaired, OrderStep, IsStep, AfterWrite, FlatWrite, Holds, InOrder;
    if WritePasses(v.locks, v.files, v.cursors, call.fd, call.buf, call.client) {
      var f, at := v.cursors[call.fd].fileId, v.cursors[call.fd].offset;
      var before, z := Snapshot(v.io, v.writeLedger, v.files, v.cursors), SizesOf(v.files[f]);
      var w := Writing(call.fd, call.client, WriteContext(f, WriteRequest(v.lastId + 1, v.lastId + 2), call.buf));
      WriteIsStep(v, v', before, w, at, z, e);
      if InOrder(v) {
        WriteInOrder(v, v', before, w, at, z);
        AsOrdered(v, v', e);
      }
    } else {
      RefusedServed(call, v, v');
    }
  }

  lemma WriteIsStep(v: View, v': View, before: Snapshot, w: Writing, at: nat, z: Sizes, e: Outcome)
    requires Open(before, w) && Positive(z) && w.ctx.buf != [] && at == before.cursors[w.fd].offset
    requires before == Snapshot(v.io, v.writeLedger, v.files, v.cursors)
    requires var s := AfterWrite(before, w, at, z);
             && v' == v.(files := s.files, cursors := s.cursors, writeLedger := s.ledger, io := s.io,
                         lastId := v.lastId + 2, flats := v'.flats)
             && e == Wrote(w.ctx.request, w.ctx.fileId, at, w.ctx.buf, w.client, w.fd, s.ledger[w.ctx.request].lost)
    requires w.ctx.request == WriteRequest(v.lastId + 1, v.lastId + 2)
    requires w.ctx.fileId in v.flats && (forall f :: f in v.files ==> f in v.flats)
    requires v'.flats == v.flats[w.ctx.fileId := FlatWrite(v.flats[w.ctx.fileId], at, w.ctx.buf)]
    ensures IsStep(v, v', e)
  {
    hide Fragments, IssueWrites, FlatWrite, Advanced, LostCopies;
  }

  lemma WriteInOrder(v: View, v': View, before: Snapshot, w: Writing, at: nat, z: Sizes)
    requires Open(before, w) && Positive(z) && InOrder(v)
    requires before == Snapshot(v.io, v.writeLedger, v.files, v.cursors)
    requires var s := AfterWrite(before, w, at, z);
             v'.files == s.files && v'.cursors == s.cursors && v'.io == s.io
    requires v'.deletes == v.deletes && v'.locks == v.locks && v'.nextFileId == v.nextFileId
    ensures OrderStep(v, v', Nothing)
  {
    hide LocksMatch, LivePaired, Fragments, IssueWrites, TouchesOnly, Paired, LostCopies;
    OpenedExists(v.cursors, v.files, v.locks, v.deletes, w.fd);
    WriteOnlyMoves(before, w, at, z);
    OnlyMoved(v.cursors, v'.cursors, v.files, v'.files, v.locks, v.deletes);
    FragmentsInBuffer(at, w.ctx.buf, z);
    WritesTouchOnly(v.io, Fragments(at, |w.ctx.buf|, z.stripeSize, z.chunkSize), w.ctx);
    if Paired(v.io, w.ctx.fileId) {
      WritesPair(v.io, Fragments(at, |w.ctx.buf|, z.stripeSize, z.chunkSize), w.ctx, w.ctx.fileId);
    }
    assert v'.files.Keys == v.files.Keys;
    hide AfterWrite, Advanced, Longer;
    WriteOrder(v, v', w.ctx.fileId);
  }

  lemma AsOrdered(v: View, v': View, e: Outcome)
    requires OrderStep(v, v', Nothing) && !e.Removed?
    ensures OrderStep(v, v', e)
  {
  }

  method ServeRead(server: Barista, call: Call) returns (ghost e: Outcome)
    requires server.Valid() && call.ReadCall? && Proper(call.client) && 0 < call.fd && CanServe(server, call)
    modifies server.net`sent, server.volatile`upNodes, server.volatile`fileCursors, server.volatile`requestId,
             server.readTable
    ensures server.Valid() && Served(call, old(ViewOf(server)), ViewOf(server), e)
  {
    hide Barista.Valid, LocksMatch, LivePaired, OrderStep, IsStep, Served, ReadSent, KnownIsRead, Clamped, RangeOf;
    hide IoManagerTable.Readable, Holds, Asked, AllFresh, MutuallyInverse, Separated, Numbered, ReadPasses, ReadFits;
    hide OnlyReads;
    ghost var v := ViewOf(server);
    ServerFacts(server);
    var reply := server.ReadFile(call.fd, call.count, call.client);
    e := ReadFitsNow(v, ViewOf(server), call, reply.Accepted?);
    ReadServed(v, ViewOf(server), call, e);
  }

  /** What the server did is what the call was to do. */
  lemma ReadFitsNow(v: View, v': View, call: Call, accepted: bool) returns (e: Outcome)
    requires call.ReadCall? && (accepted <==> ReadPasses(v.locks, v.files, v.cursors, call.fd, call.count, call.client))
    requires v' == v.(lastId := v.lastId + 1, readLedger := v'.readLedger, cursors := v'.cursors, io := v'.io)
    requires !accepted ==> v'.io == v.io && v'.cursors == v.cursors && v'.readLedger == v.readLedger
    requires OnlyReads(v.io, v'.io)
    requires accepted ==>
               var inst := InstanceOf(v.cursors, call.fd);
               inst.fileId in v.files &&
               var info := v.files[inst.fileId];
               && inst.fileId in v.flats && Positive(SizesOf(info))
               && v'.cursors == Clamped(v.cursors, call.fd, call.client, call.count, info.size)
               && ReadSent(v.io, v.readLedger, v'.readLedger, v'.lastId, call.fd, call.client, inst.fileId,
                           Asked(v.io.nodes, inst.fileId, inst.offset, call.count, SizesOf(info)))
               && (AllFresh(v.io, inst.fileId, RangeOf(info, inst.offset, call.count)) ==>
                     KnownIsRead(v.flats[inst.fileId], info.size, inst.offset, call.count, v'.readLedger, v'.lastId))
    ensures ReadFits(v, v', call.fd, call.count, call.client, e)
    ensures e.AskedFor? && e.current ==>
              && e.fileId in v.flats && e.fileId in v.files
              && KnownIsRead(v.flats[e.fileId], v.files[e.fileId].size, e.at, e.count, v'.readLedger, e.requestId)
  {
    hide Holds, AllFresh, ReadSent, KnownIsRead, Asked, RangeOf, OnlyReads;
    if accepted {
      var f, at := v.cursors[call.fd].fileId, v.cursors[call.fd].offset;
      e := AskedFor(v.lastId + 1, f, at, call.count, call.client, call.fd,
                    AllFresh(v.io, f, RangeOf(v.files[f], at, call.count)));
    } else {
      e := Nothing;
    }
  }

  /** A read was accepted or refused. */
  lemma ReadServed(v: View, v': View, call: Call, e: Outcome)
    requires Separated(v.io) && call.ReadCall? && ReadFits(v, v', call.fd, call.count, call.client, e)
    requires forall f :: f in v.files ==> f in v.flats
    requires e.AskedFor? && e.current ==>
               && e.fileId in v.files
               && KnownIsRead(v.flats[e.fileId], v.files[e.fileId].size, e.at, e.count, v'.readLedger, e.requestId)
    ensures Served(call, v, v', e)
  {
    hide ServesAll, KnownIsRead, LocksMatch, LivePaired, OrderStep, Holds, AllFresh, Asked, RangeOf;
    if ReadPasses(v.locks, v.files, v.cursors, call.fd, call.count, call.client) {
      if InOrder(v) {
        ReadInOrder(v, v', call, e);
      }
    } else {
      RefusedServed(call, v, v');
    }
  }

  lemma ReadInOrder(v: View, v': View, call: Call, e: Outcome)
    requires call.ReadCall? && ReadFits(v, v', call.fd, call.count, call.client, e) && InOrder(v)
    requires ReadPasses(v.locks, v.files, v.cursors, call.fd, call.count, call.client)
    ensures OrderStep(v, v', e)
  {
    hide ReadSent, LocksMatch, LivePaired, OrderStep, Holds, AllFresh, Asked, RangeOf, OnlyReadsSince;
    ReadOnlyMoves(v.cursors, call.fd, call.client, call.count, v.files[e.fileId].size);
    OnlyMoved(v.cursors, v'.cursors, v.files, v'.files, v.locks, v.deletes);
    hide Clamped, SameOpen;
    UntouchedOrder(v, v');
    AsOrdered(v, v', e);
  }

  method ServeDelete(server: Barista, call: Call) returns (ghost e: Outcome)
    requires server.Valid() && call.DeleteCall? && Proper(call.client)
    modifies server`flats, server.volatile`requestId, server.io`chunkToNode, server.io`chunkToReplicaNode,
             server.net`sent
    modifies server.deleteTable, server.files`metadata, server.files`pathnameToFileId, server.locks
    ensures server.Valid() && Served(call, old(ViewOf(server)), ViewOf(server), e)
  {
    hide Barista.Valid, LocksMatch, LivePaired, OrderStep, IsStep, Served, ChunksOfFile, DeleteChunks, OnlyDeletesSince;
    hide DeleteEntryFor, CopiesOf, Unheld, Granted, DeleteInv, Numbered, MutuallyInverse, Separated, DeleteFits;
    hide UpCopiesGone;
    ghost var v, t := ViewOf(server), server.deleteTable.TablesNow();
    ServerFacts(server);
    var reply, chunks := server.DeleteFile(call.pathname, call.client);
    ServerFacts(server);
    e := DeleteServed(v, ViewOf(server), call, reply.Accepted?, t, server.deleteTable.TablesNow(), chunks);
  }

  /** A delete was accepted or refused. */
  lemma DeleteServed(v: View, v': View, call: Call, accepted: bool, t: DeleteTables, t': DeleteTables,
                     chunks: seq<FileChunk>) returns (e: Outcome)
    requires call.DeleteCall? && Proper(call.client) && Separated(v.io)
    requires accepted <==> call.pathname in v.names && Unheld(v.locks, v.names[call.pathname])
    requires v' == v.(lastId := v.lastId + 1, names := v'.names, files := v'.files, locks := v'.locks,
                      flats := v'.flats, deletes := v'.deletes, io := v'.io, deleteLedger := v'.deleteLedger)
    requires !accepted ==>
               && v'.names == v.names && v'.files == v.files && v'.locks == v.locks && v'.flats == v.flats
               && v'.deletes == v.deletes && v'.io == v.io && v'.deleteLedger == v.deleteLedger
    requires (forall f :: f in v.files ==> f in v.flats) && Numbered(v') && MutuallyInverse(v'.names, v'.files)
    requires forall id :: id in v.deletes ==> id <= v.lastId
    requires t.active == v.deletes && t'.active == v'.deletes
    requires accepted ==>
               var f, id := v.names[call.pathname], v.lastId + 1;
               && f in v.files && v'.flats == v.flats[f := map[]]
               && v'.deleteLedger == v.deleteLedger[id := DeleteEntryFor(v.io, call.client, f)]
               && ChunksOfFile(chunks, v.io.nodes, f) && v'.io == DeleteChunks(v.io, chunks, id)
               && OnlyDeletesSince(DeleteTables(t.active[id := RequestInfo(0, 0, f, call.client)], t.results), t',
                                   v.files, v'.files, Granted(v.locks, f, call.client, Exclusive), v'.locks)
    requires InOrder(v) ==> LocksMatch(v'.cursors, v'.files, v'.locks, v'.deletes)
    ensures Served(call, v, v', e)
  {
    hide DeleteChunks, CopiesOf, Granted, InOrder, OrderStep, ChunksOfFile, Unheld, IsStep, LocksMatch;
    hide Numbered, MutuallyInverse;
    e := Nothing;
    if accepted {
      var f, id := v.names[call.pathname], v.lastId + 1;
      e := Removed(id, f, call.client, CopiesOf(v.io, f), v.io.up, v.io.reachable);
      var begun := DeleteTables(t.active[id := RequestInfo(0, 0, f, call.client)], t.results);
      AnsweredSince(begun, t', v, v', Granted(v.locks, f, call.client, Exclusive));
      assert ChunksDeleted(v.io, v'.io, f, id);
      var gone := FilesGone(begun, t', v.files, v'.files, Granted(v.locks, f, call.client, Exclusive), v'.locks);
      hide OnlyDeletesSince, SomeAnswered;
      DeleteIsStep(v, v', e, gone);
      hide DeleteEntryFor;
      if InOrder(v) {
        DeleteServedInOrder(v, v', e, begun, t', chunks);
      }
    } else {
      RefusedServed(call, v, v');
    }
  }

  lemma AnsweredSince(t: DeleteTables, t': DeleteTables, v: View, v': View, locks: map<int, FileLock>)
    requires t'.active == v'.deletes && MutuallyInverse(v'.names, v'.files)
    requires OnlyDeletesSince(t, t', v.files, v'.files, locks, v'.locks)
    ensures SomeAnswered(t.active, v, v')
  {
    hide MutuallyInverse;
    var gone, files := FilesOf(t'.results[|t.results|..]), v.files.Keys - v'.files.Keys;
    assert files <= gone;
    assert v'.files == v.files - files;
  }

  lemma DeleteIsStep(v: View, v': View, e: Outcome, gone: set<int>)
    requires e.Removed? && e.requestId == v.lastId + 1 && e.copies == CopiesOf(v.io, e.fileId)
    requires e.up == v.io.up && e.reachable == v.io.reachable
    requires v' == v.(lastId := v.lastId + 1, names := v'.names, files := v.files - gone, locks := v'.locks,
                      flats := v.flats[e.fileId := map[]], deletes := v'.deletes, io := v'.io,
                      deleteLedger := v.deleteLedger[e.requestId := DeleteEntryFor(v.io, e.client, e.fileId)])
    requires e.fileId in v.files && (forall f :: f in v.files ==> f in v.flats)
    ensures IsStep(v, v', e)
  {
    hide CopiesOf, CopiesOn;
  }

  lemma DeleteServedInOrder(v: View, v': View, e: Outcome, t: DeleteTables, t': DeleteTables, chunks: seq<FileChunk>)
    requires e.Removed? && e.copies == CopiesOf(v.io, e.fileId) && Proper(e.client) && e.requestId !in v.deletes
    requires e.up == v.io.up
    requires InOrder(v) && LocksMatch(v'.cursors, v'.files, v'.locks, v'.deletes) && v'.nextFileId == v.nextFileId
    requires e.fileId in v.files && Unheld(v.locks, e.fileId)
    requires t.active == v.deletes[e.requestId := RequestInfo(0, 0, e.fileId, e.client)] && t'.active == v'.deletes
    requires OnlyDeletesSince(t, t', v.files, v'.files, Granted(v.locks, e.fileId, e.client, Exclusive), v'.locks)
    requires ChunksOfFile(chunks, v.io.nodes, e.fileId)
    requires v'.io == DeleteChunks(v.io, chunks, e.requestId)
    ensures OrderStep(v, v', e)
  {
    hide LocksMatch, LivePaired, DeleteChunks, CopiesOf, TouchesOnly, Granted, Paired, IsBuried, OrderKept,
         OnlyDeletesSince;
    UnheldNotDeleted(v, e.fileId);
    hide Unheld;
    FilesOfChunks(chunks, v.io.nodes, e.fileId);
    DeletesTouchOnly(v.io, chunks, e.requestId, e.fileId);
    if Paired(v.io, e.fileId) {
      DeleteLeavesBehind(v.io, chunks, e.requestId, e.fileId);
    }
    DeleteOrder(v, v', e.requestId, e.fileId, e.client, t, t', e.up);
  }

  lemma UnheldNotDeleted(v: View, f: int)
    requires InOrder(v) && Unheld(v.locks, f)
    ensures f !in ActiveFiles(v.deletes)
  {
    forall id | id in v.deletes ensures v.deletes[id].fileId != f {
      UnheldIsFree(v.locks, f, v.deletes[id].client);
    }
  }

  /** Any responses arrive. */
  method SomeResponses(server: Barista)
    requires server.Valid()
    modifies server.writeTable`inFlight, server.writeTable`arrived, server.writeTable`lookups, server.writeTable`active
    modifies server.writeTable`results, server.writeTable`answers, server.readTable`inFlight, server.readTable`active
    modifies server.readTable`results, server.readTable`answers, server.readTable`ledger
    modifies server.deleteTable`inFlight, server.deleteTable`active, server.deleteTable`results,
             server.deleteTable`answers
    modifies server.files`metadata, server.files`pathnameToFileId, server.locks
    ensures server.Valid() && IsResponses(old(ViewOf(server)), ViewOf(server))
  {
    hide Barista.Valid, OnlyDeletesSince, ByArrivals, ArrivedOnly, LocksMatch, LivePaired, IsResponses, MutuallyInverse;
    ServerFacts(server);
    ghost var v, t := ViewOf(server), server.deleteTable.TablesNow();
    server.WriteResponses();
    server.ReadResponses();
    server.DeleteResponses();
    ServerFacts(server);
    Responded(v, ViewOf(server), t, server.deleteTable.TablesNow());
  }

  /** Nothing but responses: no event, and everything stays in order. */
  ghost predicate IsResponses(v: View, v': View) {
    ResponsesFit(v, v') && IsQuiet(v, v') && (InOrder(v) ==> OrderStep(v, v', Nothing))
  }

  lemma Responded(v: View, v': View, t: DeleteTables, t': DeleteTables)
    requires v' == v.(names := v'.names, files := v'.files, locks := v'.locks, deletes := v'.deletes,
                      readLedger := v'.readLedger)
    requires (forall f :: f in v.files ==> f in v.flats) && ArrivedOnly(v.readLedger, v'.readLedger)
    requires t.active == v.deletes && t'.active == v'.deletes && MutuallyInverse(v'.names, v'.files)
    requires OnlyDeletesSince(t, t', v.files, v'.files, v.locks, v'.locks)
    requires InOrder(v) ==> LocksMatch(v'.cursors, v'.files, v'.locks, v'.deletes)
    ensures IsResponses(v, v')
  {
    hide LocksMatch, LivePaired, OrderStep, MutuallyInverse;
    AnsweredSince(t, t', v, v', v.locks);
    var gone := FilesGone(t, t', v.files, v'.files, v.locks, v'.locks);
    hide OnlyDeletesSince, SomeAnswered;
    if InOrder(v) {
      ResponsesOrder(v, v', t, t');
    }
  }

  /** One call that the server can get to the end of. */
  method Serve(server: Barista, call: Call) returns (ghost e: Outcome)
    requires server.Valid() && Sensible(call) && CanServe(server, call)
    modifies server, server.files, server.volatile, server.locks, server.net, server.writeTable, server.readTable
    modifies server.deleteTable, server.io
    ensures server.Valid() && Served(call, old(ViewOf(server)), ViewOf(server), e)
  {
    hide Barista.Valid, Served, InOrder, OrderStep, IoManagerTable.Readable, RangeOf, CanServe;
    ServerFacts(server);
    ghost var v := ViewOf(server);
    match call {
      case OpenCall(_, _, _, _) => e := ServeOpen(server, call);
      case CloseCall(_, _) => e := ServeClose(server, call);
      case SeekCall(_, _, _, _) => e := ServeSeek(server, call);
      case WriteCall(_, _, _) => e := ServeWrite(server, call);
      case ReadCall(_, _, _) => e := ServeRead(server, call);
      case DeleteCall(_, _) => e := ServeDelete(server, call);
      case NodeDownCall(node) =>
        server.NodeDown(node);
        RefusedServed(call, v, ViewOf(server));
        e := Nothing;
      case NodeUpCall(node) =>
        server.NodeUp(node);
        RefusedServed(call, v, ViewOf(server));
        e := Nothing;
      case NetworkCall(reachable) =>
        server.NetworkChanges(reachable);
        RefusedServed(call, v, ViewOf(server));
        e := Nothing;
    }
  }

  // ---------------------------------------------------------------------------
  // Whole runs
  // ---------------------------------------------------------------------------

  /** What was seen of a run: the server before and after each call, and the event. */
  datatype Trace = Trace(before: seq<View>, after: seq<View>, log: seq<Outcome>)

  ghost predicate TraceStep(first: View, calls: seq<Call>, t: Trace, k: nat)
    requires |t.before| == |t.after| == |t.log| <= |calls| && k < |t.log|
  {
    && IsResponses(if k == 0 then first else t.after[k - 1], t.before[k])
    && Served(calls[k], t.before[k], t.after[k], t.log[k])
  }

  /** Calls are served one after the other, and responses arrive in between. */
  ghost predicate IsTrace(first: View, calls: seq<Call>, t: Trace, last: View) {
    && |t.before| == |t.after| == |t.log| <= |calls|
    && (forall k: nat :: k < |t.log| ==> TraceStep(first, calls, t, k))
    && IsResponses(if t.log == [] then first else t.after[|t.log| - 1], last)
  }

  function Extended(t: Trace, before: View, after: View, e: Outcome): Trace {
    Trace(t.before + [before], t.after + [after], t.log + [e])
  }

  lemma TraceGrows(first: View, calls: seq<Call>, t: Trace, before: View, after: View, e: Outcome, last: View)
    requires IsTrace(first, calls, t, before) && |t.log| < |calls|
    requires Served(calls[|t.log|], before, after, e) && IsResponses(after, last)
    ensures IsTrace(first, calls, Extended(t, before, after, e), last)
  {
    hide Served, IsResponses;
    var t' := Extended(t, before, after, e);
    forall k: nat | k < |t'.log| ensures TraceStep(first, calls, t', k) {
      if k < |t.log| {
        assert TraceStep(first, calls, t, k);
      }
    }
  }

  /** In the run nobody shares a file that a process of its own user holds exclusively. */
  predicate Obedient(calls: seq<Call>, t: Trace) {
    |t.before| <= |calls| && forall k :: 0 <= k < |t.before| ==> !CallOffends(t.before[k], calls[k])
  }

  /** Such an open is one to read only, of a file whose lock names its own user and an exclusive process. So a run
      in which files are only opened for writing has none. */
  lemma ObedientUnlessShared(calls: seq<Call>, t: Trace)
    requires |t.before| <= |calls|
    requires forall k :: 0 <= k < |t.before| && calls[k].OpenCall? && !calls[k].readWrite ==>
               var names, locks, c := t.before[k].names, t.before[k].locks, calls[k].client;
               calls[k].pathname in names && names[calls[k].pathname] in locks ==>
                 var lock := locks[names[calls[k].pathname]];
                 lock.exProc == NULL || lock.ownerUid != c.userId || lock.ownerIp != c.ip
    ensures Obedient(calls, t)
  {
  }

  /** The server agrees with the log, and as long as nobody shares what its own user holds exclusively,
      everything is in order. */
  ghost predicate Sound(v: View, calls: seq<Call>, t: Trace) {
    Agrees(v, t.log) && (Obedient(calls, t) ==> Orderly(v, t.log))
  }

  lemma ServedSound(v: View, v': View, calls: seq<Call>, t: Trace, e: Outcome)
    requires Sound(v, calls, t) && |t.before| == |t.log| < |calls| && Served(calls[|t.log|], v, v', e)
    ensures Sound(v', calls, Extended(t, v, v', e))
  {
    hide Agrees, IsStep, OrderStep, InOrder, Fits, CallOffends;
    var t' := Extended(t, v, v', e);
    StepAgrees(v, v', t.log, e);
    if Obedient(calls, t') {
      assert t'.before[|t.before|] == v;
      assert Obedient(calls, t) by {
        assert forall k :: 0 <= k < |t.before| ==> t'.before[k] == t.before[k];
      }
      StepOrderly(v, v', t.log, e);
    }
  }

  lemma ResponsesSound(v: View, v': View, calls: seq<Call>, t: Trace)
    requires Sound(v, calls, t) && IsResponses(v, v')
    ensures Sound(v', calls, t)
  {
    hide Agrees, IsQuiet, OrderStep, InOrder, ResponsesFit, CallOffends;
    QuietAgrees(v, v', t.log);
    if Obedient(calls, t) {
      QuietOrderly(v, v', t.log);
    }
  }

  /** The next call of a run, and responses after it. */
  method ServeNext(server: Barista, calls: seq<Call>, ghost first: View, ghost t: Trace, k: nat)
      returns (ghost t': Trace)
    requires server.Valid() && IsTrace(first, calls, t, ViewOf(server)) && Sound(ViewOf(server), calls, t)
    requires k == |t.log| < |calls| && Sensible(calls[k]) && CanServe(server, calls[k])
    modifies server, server.files, server.volatile, server.locks, server.net, server.writeTable, server.readTable
    modifies server.deleteTable, server.io
    ensures server.Valid() && IsTrace(first, calls, t', ViewOf(server)) && Sound(ViewOf(server), calls, t')
    ensures |t'.log| == |t.log| + 1
  {
    hide Barista.Valid, TraceStep, Sound, Served, IsResponses, CanServe, ViewOf, Sensible;
    ghost var before := ViewOf(server);
    ghost var e := Serve(server, calls[k]);
    ghost var after := ViewOf(server);
    SomeResponses(server);
    TraceGrows(first, calls, t, before, after, e, ViewOf(server));
    ServedSound(before, after, calls, t, e);
    t' := Extended(t, before, after, e);
    ResponsesSound(after, ViewOf(server), calls, t');
  }

  /** Everything that can be said of the server after a run that has begun in `first`. */
  ghost predicate AfterRun(server: Barista, first: View, calls: seq<Call>, t: Trace)
    reads server, server.files, server.volatile, server.locks, server.io, server.net
    reads server.io.net, server.io.volatile`upNodes, server.writeTable, server.readTable, server.deleteTable
  {
    server.Valid() && IsTrace(first, calls, t, ViewOf(server)) && Sound(ViewOf(server), calls, t)
  }

  /** Every run, with responses arriving at any time and in any order. It ends early only at a call that
      the server does not get to the end of. */
  method Run(server: Barista, calls: seq<Call>) returns (ghost t: Trace)
    requires server.Valid() && server.Disciplined()
    requires server.files.metadata == map[] && server.io.chunkToNode == map[] && server.io.chunkToReplicaNode == map[]
    requires forall i :: 0 <= i < |calls| ==> Sensible(calls[i])
    modifies server, server.files, server.volatile, server.locks, server.net, server.writeTable, server.readTable
    modifies server.deleteTable, server.io
    ensures AfterRun(server, old(ViewOf(server)), calls, t)
    ensures |t.log| < |calls| ==> !CanServe(server, calls[|t.log|])
  {
    hide Barista.Valid, IsTrace, Sound, CanServe, ViewOf, Sensible;
    t := Trace([], [], []);
    ghost var first := ViewOf(server);
    RunBegins(server, calls);
    var k := 0;
    while k < |calls| && CanServe(server, calls[k])
      invariant 0 <= k == |t.log| <= |calls|
      invariant server.Valid() && IsTrace(first, calls, t, ViewOf(server)) && Sound(ViewOf(server), calls, t)
    {
      t := ServeNext(server, calls, first, t, k);
      k := k + 1;
    }
  }

  lemma NoFilesNoDeletes(v: View)
    requires LocksMatch(v.cursors, v.files, v.locks, v.deletes)
    requires v.files == map[] && v.io.nodes == map[] && v.io.replicas == map[]
    ensures MappedKnown(v, RemovedFiles([]))
  {
    assert forall id :: id in v.deletes ==> v.deletes[id].fileId in v.files;
  }

  lemma RunBegins(server: Barista, calls: seq<Call>)
    requires server.Valid() && server.Disciplined()
    requires server.files.metadata == map[] && server.io.chunkToNode == map[] && server.io.chunkToReplicaNode == map[]
    ensures IsTrace(ViewOf(server), calls, Trace([], [], []), ViewOf(server))
    ensures Sound(ViewOf(server), calls, Trace([], [], []))
  {
    hide Barista.Valid, LocksMatch;
    ServerFacts(server);
    UntouchedOrder(ViewOf(server), ViewOf(server));
    NoFilesNoDeletes(ViewOf(server));
  }
}
