/** What clients can rely on after any run of the server. */
module ServerPromises {
  import opened EspressoStorage
  import opened EspressoRuns
  import opened Nodes
  import opened Striping
  import opened FileChunks
  import opened PersistentMetadata
  import opened VolatileMetadata
  import opened LockingStrategy
  import opened Requests
  import opened WriteRequests
  import opened ReadRequests
  import opened DeleteRequests
  import opened OpenFiles
  import opened Acknowledgements
  import opened IoManager
  import opened FlatFile
  import opened FlatReads
  import opened BaristaState
  import opened BaristaCore
  import opened RunLog
  import opened RunOrder
  import opened ServerRuns

  // ---------------------------------------------------------------------------
  // Reads and writes
  // ---------------------------------------------------------------------------

  /** The event of a call, and what the server looked like before it. */
  lemma StepOf(server: Barista, first: View, calls: seq<Call>, t: Trace, i: nat)
    requires AfterRun(server, first, calls, t) && i < |t.log|
    ensures |t.before| == |t.after| == |t.log| <= |calls|
    ensures Served(calls[i], t.before[i], t.after[i], t.log[i])
    ensures server.Valid() && Agrees(ViewOf(server), t.log) && Remembered(ViewOf(server), t.log, i)
  {
    hide Barista.Valid, Served, ViewOf;
    assert TraceStep(first, calls, t, i);
  }

  /** A read that passes all checks, of a range that had been written up to where the request or the file ends,
      and for which no copy is asked that missed a write. */
  ghost predicate ReadsKnown(v: View, log: seq<Outcome>, call: Call) {
    && call.ReadCall? && ReadPasses(v.locks, v.files, v.cursors, call.fd, call.count, call.client)
    && var f, at := v.cursors[call.fd].fileId, v.cursors[call.fd].offset;
       && RangeKnown(Contents(log, f), at, Min(at + call.count, SizeOf(log, f)))
       && AllFresh(v.io, f, RangeOf(v.files[f], at, call.count))
  }

  /** What a client learns of such a read: it is answered when and only when all its pieces have arrived, once,
      and with the bytes last written to the range before it. */
  ghost predicate ReadAnswered(s: ReadState, v: View, log: seq<Outcome>, call: Call)
    requires ReadsKnown(v, log, call)
  {
    var f, at, id := v.cursors[call.fd].fileId, v.cursors[call.fd].offset, v.lastId + 1;
    var end := Min(at + call.count, SizeOf(log, f));
    && at < end && id in s.inFlight && (id in s.answers <==> s.inFlight[id] == [])
    && (id in s.answers ==>
          && ReadAnsweredOnce(s, id)
          && ReadResult(call.client, call.fd, end - at, FlatBytes(Contents(log, f), at, end)) in s.tables.results)
  }

  lemma ReadsReturnLastWrites(server: Barista, first: View, calls: seq<Call>, t: Trace, i: nat)
    requires AfterRun(server, first, calls, t) && i < |t.log| <= |t.before| && |t.log| <= |calls|
    requires ReadsKnown(t.before[i], t.log[..i], calls[i])
    ensures ReadAnswered(server.readTable.StateNow(), t.before[i], t.log[..i], calls[i])
  {
    hide KnownIsRead, Contents, SizeOf, Barista.Valid, AfterRun, AllFresh, IsStep, OrderStep, ReadSent, OnlyReads,
         Holds, Agrees, InOrder;
    StepOf(server, first, calls, t, i);
    var e := t.log[i];
    ReadAnsweredWithBytes(server, Contents(t.log[..i], e.fileId), SizeOf(t.log[..i], e.fileId), e.at, e.count,
                          e.requestId);
  }

  /** A file to which all writes appended has been written from its beginning to its end. */
  lemma AppendedIsKnown(log: seq<Outcome>, f: int, at: nat, count: nat)
    requires WritesInside(log) && NeverRemoved(log, f) && AppendedOnly(log, f)
    ensures RangeKnown(Contents(log, f), at, Min(at + count, SizeOf(log, f)))
  {
    hide Contents, SizeOf, AppendedOnly, WritesInside;
    LogSizeExact(log, f);
  }

  /** So the ordinary read that runs past the end of such a file gets exactly the bytes there are. */
  lemma AppendedFilesReadToTheEnd(server: Barista, first: View, calls: seq<Call>, t: Trace, i: nat)
    requires AfterRun(server, first, calls, t) && i < |t.log| <= |t.before| && |t.log| <= |calls|
    requires var v, call := t.before[i], calls[i];
             && call.ReadCall? && ReadPasses(v.locks, v.files, v.cursors, call.fd, call.count, call.client)
             && var f, at := v.cursors[call.fd].fileId, v.cursors[call.fd].offset;
                && NeverRemoved(t.log[..i], f) && AppendedOnly(t.log[..i], f)
                && AllFresh(v.io, f, RangeOf(v.files[f], at, call.count))
    ensures ReadsKnown(t.before[i], t.log[..i], calls[i])
  {
    hide Contents, SizeOf, AppendedOnly, AllFresh, Barista.Valid, NeverRemoved;
    StepOf(server, first, calls, t, i);
    hide AfterRun;
    WritesInsidePrefix(t.log, i);
    hide WritesInside;
    var v, call := t.before[i], calls[i];
    AppendedIsKnown(t.log[..i], v.cursors[call.fd].fileId, v.cursors[call.fd].offset, call.count);
  }

  lemma WritesInsidePrefix(log: seq<Outcome>, i: nat)
    requires WritesInside(log) && i <= |log|
    ensures WritesInside(log[..i])
  {
    forall j: nat ensures WriteInside(log[..i], j) {
      assert WriteInside(log, j);
      assert j <= i ==> log[..i][..j] == log[..j];
    }
  }

  /** The fragments that a write is cut into. */
  function FragmentsOf(v: View, call: Call): seq<Fragment>
    requires call.WriteCall? && WritePasses(v.locks, v.files, v.cursors, call.fd, call.buf, call.client)
  {
    RangeOf(v.files[v.cursors[call.fd].fileId], v.cursors[call.fd].offset, |call.buf|)
  }

  /** What a client learns of a write: it is answered when and only when for each fragment the replica node or
      the other one could be reached and both copies of all fragments are acknowledged, once, and with the
      length of its buffer. */
  ghost predicate WriteAnswered(s: State, v: View, call: Call)
    requires call.WriteCall? && WritePasses(v.locks, v.files, v.cursors, call.fd, call.buf, call.client)
  {
    var f, request := v.cursors[call.fd].fileId, WriteRequest(v.lastId + 1, v.lastId + 2);
    && (Answered(s, request) <==>
        && AllArrived(s, request)
        && forall x :: x in FragmentsOf(v, call) ==> !ReplicaLost(v.io, ChunkOfFragment(f, x)))
    && (Answered(s, request) ==>
          AnsweredOnce(s, request) && WriteResult(call.client, call.fd, |call.buf|) in s.tables.results)
  }

  lemma WritesAnsweredInFull(server: Barista, first: View, calls: seq<Call>, t: Trace, i: nat)
    requires AfterRun(server, first, calls, t) && i < |t.log| <= |t.before| && |t.log| <= |calls|
    requires calls[i].WriteCall?
    requires WritePasses(t.before[i].locks, t.before[i].files, t.before[i].cursors, calls[i].fd, calls[i].buf,
                         calls[i].client)
    ensures WriteAnswered(server.writeTable.StateNow(), t.before[i], calls[i])
  {
    hide AfterRun, Agrees, InOrder, IsStep, OrderStep, ReplicaLost, Inv, Holds, Barista.Valid, WriteFits, WritePasses,
         FragmentsOf, Answered, AnsweredOnce, AllArrived;
    StepOf(server, first, calls, t, i);
    LostNow(t.before[i], t.after[i], calls[i], t.log[i]);
    AnsweredNow(server, t.log[i].request);
  }

  lemma AnsweredNow(server: Barista, r: WriteRequest)
    requires server.Valid() && r in server.writeTable.ledger
    ensures var s := server.writeTable.StateNow();
            && (Answered(s, r) <==> s.ledger[r].finished && s.ledger[r].lost == 0 && AllArrived(s, r))
            && (Answered(s, r) ==>
                  && AnsweredOnce(s, r)
                  && WriteResult(s.ledger[r].client, s.ledger[r].fd, s.ledger[r].total) in s.tables.results)
  {
    hide Inv, AllStored, CursorsInside, ReadInv, DeleteInv;
    AnsweredByInv(server.writeTable.StateNow(), r);
  }

  lemma LostNow(v: View, v': View, call: Call, e: Outcome)
    requires call.WriteCall? && WritePasses(v.locks, v.files, v.cursors, call.fd, call.buf, call.client)
    requires WriteFits(v, v', call.fd, call.buf, call.client, e) && Separated(v.io)
    ensures e.Wrote? && e.client == call.client && e.fd == call.fd && e.buf == call.buf
    ensures e.request == WriteRequest(v.lastId + 1, v.lastId + 2)
    ensures e.lost == 0 <==>
              var f := v.cursors[call.fd].fileId;
              forall x :: x in FragmentsOf(v, call) ==> !ReplicaLost(v.io, ChunkOfFragment(f, x))
  {
    hide Fragments, ReplicaLost, IssueWrites, Holds, FlatWrite;
    var f, at := v.cursors[call.fd].fileId, v.cursors[call.fd].offset;
    FragmentsInBuffer(at, call.buf, SizesOf(v.files[f]));
    NoneLost(v.io, FragmentsOf(v, call), WriteContext(f, e.request, call.buf));
  }

  /** Which packets there were for a write: those to primary nodes under its first id, with all bytes of the buffer
      in all; and to replica nodes as many under its second id, but for those that were lost. Each of them is
      acknowledged once, or will be, under its id and with the number of its bytes, and nothing else is. */
  lemma PacketsAcknowledged(server: Barista, first: View, calls: seq<Call>, t: Trace, i: nat)
    requires AfterRun(server, first, calls, t) && i < |t.log| && t.log[i].Wrote?
    ensures var r, s, sent := t.log[i].request, server.writeTable.StateNow(), server.net.sent;
            && (forall id :: id in {r.requestId, r.replicaRequestId} ==>
                  && id in s.inFlight && id in s.arrived
                  && multiset(s.arrived[id]) + multiset(s.inFlight[id]) == multiset(LengthsUnder(sent, id)))
            && Sum(LengthsUnder(sent, r.requestId)) == |t.log[i].buf|
            && |LengthsUnder(sent, r.replicaRequestId)| + t.log[i].lost == |LengthsUnder(sent, r.requestId)|
            && (forall p :: p in sent && p.body.WriteBody? && p.id == r.requestId ==> p.node in {FIRST, SECOND})
            && (forall p :: p in sent && p.body.WriteBody? && p.id == r.replicaRequestId ==>
                  p.node !in {FIRST, SECOND})
  {
    hide LengthsUnder, AfterRun, Barista.Valid, Agrees, Served, Inv, Accounted;
    StepOf(server, first, calls, t, i);
    AcknowledgedNow(server);
    var s, r := server.writeTable.StateNow(), t.log[i].request;
    PacketsOfRequest(server.net.sent, s, r);
    IdsOfRequest(s, r);
  }

  lemma AcknowledgedNow(server: Barista)
    requires server.Valid()
    ensures Inv(server.writeTable.StateNow()) && Acknowledged(server.net.sent, server.writeTable.StateNow())
  {
    hide AllStored, CursorsInside, ReadInv, DeleteInv, MutuallyInverse, SentBefore, Acknowledged, Inv;
  }

  /** The last byte written to each position of a file that exists is held by the primary node of its chunk,
      and by a different node as well unless the replica has missed a write to the chunk. */
  lemma LastWritesAreStored(server: Barista, log: seq<Outcome>, f: int, p: nat)
    requires server.Valid() && Agrees(ViewOf(server), log) && f in server.files.metadata && p in Contents(log, f)
    ensures var info := server.files.metadata[f];
            && Positive(SizesOf(info)) && p < info.size
            && var place := Locate(p, info.stripeSize, info.chunkSize);
               var c, io := FileChunk(f, place.stripeId, place.chunkId), server.io.Io();
               && c in io.nodes && c in io.replicas && io.nodes[c] != io.replicas[c]
               && KnownAt(io.nodes, io.sent, c, place.offset) == Some(Contents(log, f)[p])
               && (c in io.stale || KnownAt(io.replicas, io.sent, c, place.offset) == Some(Contents(log, f)[p]))
  {
    hide StoresFile, Contents, Inv, ReadInv, DeleteInv, CursorsInside, Locate, KnownAt, SentInside, Held, SentBefore;
    var info := server.files.metadata[f];
    assert FileStored(server.io.Io(), f, info, server.flats[f]);
    CopiesAgree(server.io.Io(), f, server.flats[f], SizesOf(info), p);
  }

  /** The replica of a chunk misses a write when its node cannot be reached, and only then. */
  ghost predicate MissesWrite(v: View, v': View, call: Call, c: FileChunk) {
    && call.WriteCall? && WritePasses(v.locks, v.files, v.cursors, call.fd, call.buf, call.client)
    && IsWritten(FragmentsOf(v, call), v.cursors[call.fd].fileId, c)
    && c in v'.io.replicas && v'.io.replicas[c] !in v.io.reachable
  }

  ghost predicate IsWritten(fs: seq<Fragment>, fileId: int, c: FileChunk) {
    exists x :: x in fs && ChunkOfFragment(fileId, x) == c
  }

  lemma WrittenSnoc(fs: seq<Fragment>, fileId: int, c: FileChunk)
    requires fs != []
    ensures IsWritten(fs, fileId, c) <==>
              IsWritten(fs[..|fs| - 1], fileId, c) || ChunkOfFragment(fileId, fs[|fs| - 1]) == c
  {
    var n := |fs| - 1;
    assert fs == fs[..n] + [fs[n]];
    if IsWritten(fs[..n], fileId, c) {
      var x :| x in fs[..n] && ChunkOfFragment(fileId, x) == c;
      assert x in fs;
    }
    assert fs[n] in fs;
  }

  lemma StaleIfMissedOne(io: IoState, f: Fragment, ctx: WriteContext, c: FileChunk)
    requires InBuffer(f, ctx.buf)
    ensures var io' := IssueWrite(io, f, ctx);
            && io'.reachable == io.reachable
            && (c in io.replicas || c == ChunkOfFragment(ctx.fileId, f) ==> c in io'.replicas)
            && (c in io.replicas ==> io'.replicas[c] == io.replicas[c])
            && (c in io'.stale <==>
                c in io.stale || (c == ChunkOfFragment(ctx.fileId, f) && io'.replicas[c] !in io.reachable))
  {
    hide PutChunk, PutReplica, Without;
  }

  lemma {:induction false} StaleIfMissed(io: IoState, fs: seq<Fragment>, ctx: WriteContext, c: FileChunk)
    requires AllInBuffer(fs, ctx.buf)
    ensures var io' := IssueWrites(io, fs, ctx);
            && io'.reachable == io.reachable
            && (c in io.replicas || IsWritten(fs, ctx.fileId, c) ==> c in io'.replicas)
            && (c in io.replicas ==> io'.replicas[c] == io.replicas[c])
            && (c in io'.stale <==>
                c in io.stale || (IsWritten(fs, ctx.fileId, c) && io'.replicas[c] !in io.reachable))
  {
    hide IssueWrite, IsWritten;
    if fs != [] {
      var n := |fs| - 1;
      StaleIfMissed(io, fs[..n], ctx, c);
      WrittenSnoc(fs, ctx.fileId, c);
      StaleIfMissedOne(IssueWrites(io, fs[..n], ctx), fs[n], ctx, c);
    } else {
      NoneWritten(ctx.fileId, c);
    }
  }

  lemma NoneWritten(fileId: int, c: FileChunk)
    ensures !IsWritten([], fileId, c)
  {
  }

  /** A write leaves exactly those replicas behind, besides the ones that were behind before. */
  lemma StaleAfterWrite(v: View, v': View, call: Call, e: Outcome, c: FileChunk)
    requires call.WriteCall? && WriteFits(v, v', call.fd, call.buf, call.client, e) && Separated(v.io)
    ensures c in v'.io.stale <==> c in v.io.stale || MissesWrite(v, v', call, c)
  {
    hide Fragments, IssueWrites, Holds, FlatWrite, LostCopies, IsWritten;
    if WritePasses(v.locks, v.files, v.cursors, call.fd, call.buf, call.client) {
      var f, at := v.cursors[call.fd].fileId, v.cursors[call.fd].offset;
      FragmentsInBuffer(at, call.buf, SizesOf(v.files[f]));
      var ctx := WriteContext(f, WriteRequest(v.lastId + 1, v.lastId + 2), call.buf);
      StaleIfMissed(v.io, FragmentsOf(v, call), ctx, c);
    }
  }

  /** No other step does. */
  lemma StaleAfterStep(v: View, v': View, call: Call, e: Outcome, c: FileChunk)
    requires Fits(call, v, v', e) && Separated(v.io)
    ensures c in v'.io.stale <==> c in v.io.stale || MissesWrite(v, v', call, c)
  {
    if call.WriteCall? {
      StaleAfterWrite(v, v', call, e, c);
    }
    hide WriteFits, MissesWrite, ReadSent, SomeAnswered, FoundOrMade, FilesKept, ChunksOfFile, DeletePackets;
    assert !call.WriteCall? ==> !MissesWrite(v, v', call, c) by {
      NoWriteNoMiss(v, v', call, c);
    }
  }

  lemma NoWriteNoMiss(v: View, v': View, call: Call, c: FileChunk)
    ensures !call.WriteCall? ==> !MissesWrite(v, v', call, c)
  {
  }

  lemma ResponsesKeepNodes(v: View, v': View)
    requires IsResponses(v, v')
    ensures v'.io == v.io
  {
  }

  lemma StaleAfterServed(v: View, v': View, call: Call, e: Outcome, c: FileChunk)
    requires Served(call, v, v', e)
    ensures c in v'.io.stale <==> c in v.io.stale || MissesWrite(v, v', call, c)
  {
    hide Fits, IsStep, OrderStep, InOrder, CallOffends, Separated, MissesWrite;
    StaleAfterStep(v, v', call, e, c);
  }

  /** The run without its last call. */
  function Shorter(t: Trace): Trace
    requires |t.before| == |t.after| == |t.log| > 0
  {
    var n := |t.log| - 1;
    Trace(t.before[..n], t.after[..n], t.log[..n])
  }

  lemma ShorterIsTrace(first: View, calls: seq<Call>, t: Trace, last: View)
    requires IsTrace(first, calls, t, last) && t.log != []
    ensures var n := |t.log| - 1;
            && IsTrace(first, calls, Shorter(t), t.before[n])
            && Served(calls[n], t.before[n], t.after[n], t.log[n]) && IsResponses(t.after[n], last)
  {
    hide Served, IsResponses;
    var n := |t.log| - 1;
    forall k: nat | k < n ensures TraceStep(first, calls, Shorter(t), k) {
      assert TraceStep(first, calls, t, k);
    }
    assert TraceStep(first, calls, t, n);
  }

  /** In the run the replica of the chunk missed a write. */
  ghost predicate EverMissed(calls: seq<Call>, t: Trace, c: FileChunk)
    requires |t.before| == |t.after| == |t.log| <= |calls|
  {
    exists k :: 0 <= k < |t.log| && MissesWrite(t.before[k], t.after[k], calls[k], c)
  }

  lemma EverMissedShorter(calls: seq<Call>, t: Trace, c: FileChunk)
    requires |t.before| == |t.after| == |t.log| <= |calls| && t.log != []
    ensures var n := |t.log| - 1;
            EverMissed(calls, t, c) <==>
              EverMissed(calls, Shorter(t), c) || MissesWrite(t.before[n], t.after[n], calls[n], c)
  {
    hide MissesWrite;
    var n, t0 := |t.log| - 1, Shorter(t);
    if EverMissed(calls, t0, c) {
      var k :| 0 <= k < |t0.log| && MissesWrite(t0.before[k], t0.after[k], calls[k], c);
      assert MissesWrite(t.before[k], t.after[k], calls[k], c);
    }
    if EverMissed(calls, t, c) {
      var k :| 0 <= k < |t.log| && MissesWrite(t.before[k], t.after[k], calls[k], c);
      assert k < n ==> MissesWrite(t0.before[k], t0.after[k], calls[k], c);
    }
  }

  /** After a run, the replica of a chunk is behind if and only if it missed some write in the run. */
  lemma {:induction false} StaleBecauseMissed(first: View, calls: seq<Call>, t: Trace, last: View, c: FileChunk)
    requires IsTrace(first, calls, t, last) && first.io.stale == {}
    ensures c in last.io.stale <==> EverMissed(calls, t, c)
    decreases |t.log|
  {
    hide MissesWrite, Served, IsResponses, TraceStep;
    if t.log == [] {
      ResponsesKeepNodes(first, last);
    } else {
      var n := |t.log| - 1;
      ShorterIsTrace(first, calls, t, last);
      EverMissedShorter(calls, t, c);
      hide EverMissed;
      StaleBecauseMissed(first, calls, Shorter(t), t.before[n], c);
      StaleAfterServed(t.before[n], t.after[n], calls[n], t.log[n], c);
      ResponsesKeepNodes(t.after[n], last);
    }
  }

  /** The first `i` calls of a run. */
  function Prefix(t: Trace, i: nat): Trace
    requires i <= |t.before| == |t.after| == |t.log|
  {
    Trace(t.before[..i], t.after[..i], t.log[..i])
  }

  lemma PrefixIsTrace(first: View, calls: seq<Call>, t: Trace, last: View, i: nat)
    requires IsTrace(first, calls, t, last) && i < |t.log|
    ensures |t.before| == |t.after| == |t.log| <= |calls|
    ensures IsTrace(first, calls, Prefix(t, i), t.before[i])
    ensures Served(calls[i], t.before[i], t.after[i], t.log[i])
  {
    hide Served, IsResponses;
    forall k: nat | k < i ensures TraceStep(first, calls, Prefix(t, i), k) {
      assert TraceStep(first, calls, t, k);
    }
    assert TraceStep(first, calls, t, i);
  }

  /** When a read is sure to get the last bytes written: if and only if for every chunk of its range either the
      replica missed no write in the run so far, or the primary is up and can be reached. */
  lemma CurrentIffNotMissed(first: View, calls: seq<Call>, t: Trace, last: View, i: nat)
    requires IsTrace(first, calls, t, last) && first.io.stale == {} && i < |t.log| && t.log[i].AskedFor?
    ensures var e, v := t.log[i], t.before[i];
            && e.fileId in v.files
            && (e.current <==>
                forall x :: x in RangeOf(v.files[e.fileId], e.at, e.count) ==>
                  var c := ChunkOfFragment(e.fileId, x);
                  || !EverMissed(calls, Prefix(t, i), c)
                  || (c in v.io.nodes && v.io.nodes[c] in v.io.up && v.io.nodes[c] in v.io.reachable))
  {
    hide IsTrace, Served, EverMissed, RangeOf;
    PrefixIsTrace(first, calls, t, last, i);
    var e, v := t.log[i], t.before[i];
    CurrentIsFresh(v, t.after[i], calls[i], e);
    forall x | x in RangeOf(v.files[e.fileId], e.at, e.count) {
      StaleBecauseMissed(first, calls, Prefix(t, i), v, ChunkOfFragment(e.fileId, x));
    }
  }

  lemma CurrentIsFresh(v: View, v': View, call: Call, e: Outcome)
    requires Served(call, v, v', e) && e.AskedFor?
    ensures e.fileId in v.files
    ensures e.current <==>
              forall x :: x in RangeOf(v.files[e.fileId], e.at, e.count) ==>
                var c := ChunkOfFragment(e.fileId, x); c !in v.io.stale || FromPrimary(v.io, c)
  {
    hide IsStep, OrderStep, InOrder, CallOffends, Separated, RangeOf, ReadSent, SomeAnswered, FoundOrMade, FilesKept,
         ChunksDeleted, AfterWrite, Holds;
  }

  /** What a data file with these chunks has at the place of position `p` of a file. */
  ghost predicate OnDisk(contents: map<Descriptor, seq<byte>>, c: FileChunk, offset: nat, b: byte) {
    && DescriptorOf(c) in contents
    && offset < |contents[DescriptorOf(c)]|
    && contents[DescriptorOf(c)][offset] == b
  }

  /** The nodes run real chunk stores: after any run, one that was given the packets of its node and had
      room for them holds the last byte written to each position whose chunk is on that node, primary or a
      replica that missed no write, at its place in its data file. */
  method LastWritesAreOnDisk(server: Barista, ghost log: seq<Outcome>, store: EspressoStore, node: int)
    returns (storeLog: seq<Event>)
    requires server.Valid() && Agrees(ViewOf(server), log)
    requires store.Valid() && store.metadata == map[]
    modifies store
    ensures store.Valid()
    ensures AllRoom(storeLog) ==>
              forall f, p :: f in server.files.metadata && p in Contents(log, f) ==>
                ByteOnDisk(server, log, store.Contents(), node, f, p)
  {
    hide Agrees, AllRoom, Refines, ByteOnDisk, Contents, AllStored, CursorsInside, Inv, ReadInv, DeleteInv, ViewOf;
    NothingHarmfulSent(server);
    ghost var v := ViewOf(server);
    storeLog := Feed(store, server.net.sent, node);
    if AllRoom(storeLog) {
      forall f, p | f in server.files.metadata && p in Contents(log, f)
        ensures ByteOnDisk(server, log, store.Contents(), node, f, p) {
        ByteIsOnDisk(server, log, store.Contents(), node, f, p);
      }
    }
  }

  ghost predicate ByteOnDisk(server: Barista, log: seq<Outcome>, contents: map<Descriptor, seq<byte>>, node: int,
                             f: int, p: nat)
    requires f in server.files.metadata && p in Contents(log, f)
    reads server.files, server.io
  {
    var info := server.files.metadata[f];
    && Positive(SizesOf(info))
    && var place := Locate(p, info.stripeSize, info.chunkSize);
       var c := FileChunk(f, place.stripeId, place.chunkId);
       && c in server.io.chunkToNode && c in server.io.chunkToReplicaNode
       && (node == server.io.chunkToNode[c] || (node == server.io.chunkToReplicaNode[c] && c !in server.io.stale) ==>
             OnDisk(contents, c, place.offset, Contents(log, f)[p]))
  }

  lemma NothingHarmfulSent(server: Barista)
    requires server.Valid()
    ensures HarmlessLog(server.net.sent)
  {
    hide StoresFile, CursorsInside, Inv, ReadInv, DeleteInv;
  }

  lemma ByteIsOnDisk(server: Barista, log: seq<Outcome>, contents: map<Descriptor, seq<byte>>, node: int, f: int,
                     p: nat)
    requires server.Valid() && Agrees(ViewOf(server), log) && f in server.files.metadata && p in Contents(log, f)
    requires Refines(contents, NodeState(server.net.sent, node))
    ensures ByteOnDisk(server, log, contents, node, f, p)
  {
    LastWritesAreStored(server, log, f, p);
    hide Agrees, Barista.Valid, Contents, NodeState, Locate;
    var info := server.files.metadata[f];
    var place := Locate(p, info.stripeSize, info.chunkSize);
    var d := DescriptorOf(FileChunk(f, place.stripeId, place.chunkId));
    var s := NodeState(server.net.sent, node);
    if d in s {
      assert RefinesChunk(contents[d], s[d]);
    }
  }

  // ---------------------------------------------------------------------------
  // Sizes
  // ---------------------------------------------------------------------------

  /** The size of a file is the number of its bytes, and they are all written, if and only if every write
      to it was made at its end. */
  lemma SizesExactIffAppended(server: Barista, log: seq<Outcome>, f: int)
    requires server.Valid() && Agrees(ViewOf(server), log) && f in server.files.metadata && NeverRemoved(log, f)
    ensures f in server.flats
    ensures Dense(server.flats[f], server.files.metadata[f].size) <==> AppendedOnly(log, f)
  {
    hide Contents, SizeOf, Barista.Valid, Dense;
    LogSizeExact(log, f);
  }

  /** In a run in which nobody shares what its own user holds exclusively, a file that exists and is not being
      deleted was never deleted. */
  lemma NotDeletedNeverRemoved(server: Barista, first: View, calls: seq<Call>, t: Trace, f: int)
    requires AfterRun(server, first, calls, t) && Obedient(calls, t)
    requires f in server.files.metadata && f !in ActiveFiles(server.deleteTable.active)
    ensures NeverRemoved(t.log, f)
  {
    hide Barista.Valid, IsTrace, Agrees, InOrder;
    var v, log := ViewOf(server), t.log;
    forall i | 0 <= i < |log| ensures !(log[i].Removed? && log[i].fileId == f) {
      assert Buried(v, log, i);
    }
  }

  // ---------------------------------------------------------------------------
  // Deletes
  // ---------------------------------------------------------------------------

  /** A delete that is not refused. */
  predicate Deletes(v: View, call: Call) {
    call.DeleteCall? && call.pathname in v.names && Unheld(v.locks, v.names[call.pathname])
  }

  /** What a client learns of a delete: it is answered when and only when some copy of the file was on a node
      that was up, none was on a node that was up and could not be reached, and all acknowledgements are in;
      and it is answered once. */
  ghost predicate DeleteAnswered(s: DeleteState, v: View, call: Call)
    requires Deletes(v, call)
  {
    var f, id, up := v.names[call.pathname], v.lastId + 1, NodesUp(v.io.up);
    && id in s.ledger && id in s.inFlight
    && (id in s.answers <==>
        s.inFlight[id] == 0 && !NoneOn(CopiesOf(v.io, f), up) && NoneOn(CopiesOf(v.io, f), up - v.io.reachable))
    && (id in s.answers ==>
          DeleteAnsweredOnce(s, id) && s.ledger[id].client == call.client && s.ledger[id].fileId == f)
  }

  lemma DeletesAnsweredOnce(server: Barista, first: View, calls: seq<Call>, t: Trace, i: nat)
    requires AfterRun(server, first, calls, t) && i < |t.log| <= |t.before| && |t.log| <= |calls|
    requires Deletes(t.before[i], calls[i])
    ensures DeleteAnswered(server.deleteTable.StateNow(), t.before[i], calls[i])
  {
    hide AfterRun, IsStep, OrderStep, CopiesOn, NoneOn, SomeAnswered, Agrees, InOrder, ChunksDeleted, CopiesOf,
         Barista.Valid, DeleteAnsweredOnce;
    StepOf(server, first, calls, t, i);
    var v, e := t.before[i], t.log[i];
    RemovedAnswered(server, e.requestId);
    CopiesOnNone(e.copies, NodesUp(v.io.up));
    CopiesOnNone(e.copies, NodesUp(v.io.up) - v.io.reachable);
  }

  lemma RemovedAnswered(server: Barista, id: nat)
    requires server.Valid() && id in server.deleteTable.ledger
    ensures var s := server.deleteTable.StateNow();
            && id in s.inFlight
            && (id in s.answers <==> s.ledger[id].finished && s.inFlight[id] == 0 && s.ledger[id].lost == 0)
            && (id in s.answers ==> DeleteAnsweredOnce(s, id))
  {
    hide Inv, AllStored, CursorsInside, ReadInv, DeleteInv, IoManagerTable.Valid;
    DeleteAnsweredByInv(server.deleteTable.StateNow(), id);
  }

  /** In a run in which nobody shares what its own user holds exclusively, a deleted file exists until
      its delete is answered and never again. No descriptor names it. When the delete is answered it is
      in neither index and not locked. And of its copies the tables list, from the moment of the delete
      on and for ever, just those that were on nodes that were down. */
  ghost predicate FileIsGone(server: Barista, id: nat, f: int, left: Copies)
    reads server.files, server.volatile, server.locks, server.io, server.io.net, server.io.volatile`upNodes
    reads server.deleteTable
  {
    && (id in server.deleteTable.answers <==> f !in server.files.metadata)
    && (forall fd :: fd in server.volatile.fileCursors ==> server.volatile.fileCursors[fd].fileId != f)
    && (id in server.deleteTable.answers ==>
          && f !in server.locks.fileLocks
          && forall n :: n in server.files.pathnameToFileId ==> server.files.pathnameToFileId[n] != f)
    && CopiesOf(server.io.Io(), f) == left
  }

  lemma DeletesAreFinal(server: Barista, first: View, calls: seq<Call>, t: Trace, i: nat)
    requires AfterRun(server, first, calls, t) && Obedient(calls, t)
    requires i < |t.log| <= |t.before| && |t.log| <= |calls| && Deletes(t.before[i], calls[i])
    ensures var v, f := t.before[i], t.before[i].names[calls[i].pathname];
            FileIsGone(server, v.lastId + 1, f, OnNodesDown(CopiesOf(v.io, f), v.io.up))
  {
    hide AfterRun, IsStep, OrderStep, SomeAnswered, ChunksDeleted, Barista.Valid, Agrees, Orderly, FileIsGone,
         OnNodesDown, CopiesOf, Obedient;
    StepOf(server, first, calls, t, i);
    OrderlyNow(server, first, calls, t);
    RemovedIsFinal(server, t.log, i);
  }

  lemma OrderlyNow(server: Barista, first: View, calls: seq<Call>, t: Trace)
    requires AfterRun(server, first, calls, t) && Obedient(calls, t)
    ensures Orderly(ViewOf(server), t.log)
  {
    hide Barista.Valid, IsTrace, Agrees, Orderly, Obedient;
  }

  lemma RemovedIsFinal(server: Barista, log: seq<Outcome>, i: nat)
    requires server.Valid() && Agrees(ViewOf(server), log) && Orderly(ViewOf(server), log)
    requires i < |log| && log[i].Removed?
    ensures FileIsGone(server, log[i].requestId, log[i].fileId, OnNodesDown(log[i].copies, log[i].up))
  {
    hide AllStored, CursorsInside, Inv, ReadInv, CopiesOf, OnNodesDown, LivePaired, IoManagerTable.Valid, CopiesOn;
    var v, e, s := ViewOf(server), log[i], server.deleteTable.StateNow();
    assert Remembered(v, log, i) && Buried(v, log, i);
    assert DeleteRequestInv(s, e.requestId);
    DeleteAnsweredByInv(s, e.requestId);
    if e.requestId in v.deletes {
      assert v.deletes[e.requestId].fileId == e.fileId;
    }
    NoCursorOnDeleted(v, e.requestId, e.fileId, OnNodesDown(e.copies, e.up));
  }

  lemma NoCursorOnDeleted(v: View, id: nat, f: int, left: Copies)
    requires InOrder(v) && IsBuried(v, id, f, left)
    ensures forall fd :: fd in v.cursors ==> v.cursors[fd].fileId != f
  {
    hide LivePaired, CopiesOf;
    assert f in v.files ==> f in ActiveFiles(v.deletes);
  }

  /** When all copies were on nodes that were up, nothing is left of the file in the tables. */
  lemma DeletedWithAllNodesUp(server: Barista, first: View, calls: seq<Call>, t: Trace, i: nat)
    requires AfterRun(server, first, calls, t) && Obedient(calls, t)
    requires i < |t.log| <= |t.before| && |t.log| <= |calls| && Deletes(t.before[i], calls[i])
    requires var v := t.before[i];
             forall c: FileChunk :: c.fileId == v.names[calls[i].pathname] ==>
               (c in v.io.nodes ==> v.io.nodes[c] in v.io.up) && (c in v.io.replicas ==> v.io.replicas[c] in v.io.up)
    ensures NoMappings(server.io.Io(), t.before[i].names[calls[i].pathname])
  {
    hide Barista.Valid, AfterRun, NoMappings, Obedient;
    var v, f := t.before[i], t.before[i].names[calls[i].pathname];
    DeletesAreFinal(server, first, calls, t, i);
    assert OnNodesDown(CopiesOf(v.io, f), v.io.up) == NO_COPIES;
    NoCopiesNoMappings(server.io.Io(), f);
  }

  /** In such a run every chunk in the tables belongs to a file that exists and is not being deleted, or
      else it is left of a file that was deleted, on a node that was down at that moment. */
  lemma NoStrayChunks(server: Barista, first: View, calls: seq<Call>, t: Trace, c: FileChunk) returns (i: nat)
    requires AfterRun(server, first, calls, t) && Obedient(calls, t)
    requires c in server.io.chunkToNode || c in server.io.chunkToReplicaNode
    ensures (c.fileId in server.files.metadata && c.fileId !in ActiveFiles(server.deleteTable.active))
            || (i < |t.log| <= |t.before| && |t.log| <= |calls| && Deletes(t.before[i], calls[i])
                && t.before[i].names[calls[i].pathname] == c.fileId
                && var left := OnNodesDown(CopiesOf(t.before[i].io, c.fileId), t.before[i].io.up);
                   c in left.nodes || c in left.replicas)
  {
    hide Barista.Valid, Agrees, InOrder, OnNodesDown, TraceStep;
    var v, log := ViewOf(server), t.log;
    i := 0;
    if !(c.fileId in v.files && c.fileId !in ActiveFiles(v.deletes)) {
      assert c.fileId in RemovedFiles(log);
      i :| i < |log| && log[i].Removed? && log[i].fileId == c.fileId;
      assert Buried(v, log, i);
      assert c in CopiesOf(v.io, c.fileId).nodes || c in CopiesOf(v.io, c.fileId).replicas;
      StepOf(server, first, calls, t, i);
      RemovedByDelete(calls[i], t.before[i], t.after[i], log[i]);
    }
  }

  /** Only deletes remove. */
  lemma RemovedByDelete(call: Call, v: View, v': View, e: Outcome)
    requires Fits(call, v, v', e) && e.Removed?
    ensures Deletes(v, call) && e.fileId == v.names[call.pathname]
    ensures e.copies == CopiesOf(v.io, e.fileId) && e.up == v.io.up
  {
    hide SomeAnswered, ChunksDeleted, FoundOrMade, FilesKept, ReadSent, OnlyReads, AfterWrite;
  }

  // ---------------------------------------------------------------------------
  // When a run comes to a halt
  // ---------------------------------------------------------------------------

  /** In order, the server gets to the end of every call as long as all nodes can be reached. For writes the
      two primary nodes are enough. */
  lemma OnlyLostNodesStop(server: Barista, call: Call)
    requires server.Valid() && InOrder(ViewOf(server)) && {FIRST, SECOND} <= server.net.reachable
    requires call.ReadCall? ==> {FIRST_REPLICA, SECOND_REPLICA} <= server.net.reachable
    ensures CanServe(server, call)
  {
    hide AllStored, CursorsInside, Inv, ReadInv, DeleteInv, MutuallyInverse, RangeOf, Asked, Holds, LocksMatch;
    var v, io := ViewOf(server), server.io;
    if call.ReadCall? && ReadPasses(v.locks, v.files, v.cursors, call.fd, call.count, call.client) {
      var f := v.cursors[call.fd].fileId;
      OpenIsLive(v, call.fd);
      assert Paired(v.io, f);
      hide LivePaired;
      forall c: FileChunk | c.fileId == f ensures io.CanRead(c) {
        assert c in v.io.nodes <==> c in v.io.replicas;
      }
    }
  }

  lemma OpenIsLive(v: View, fd: nat)
    requires InOrder(v) && fd in v.cursors && v.cursors[fd].fileId in v.files
    ensures Live(v, v.cursors[fd].fileId)
  {
  }

  /** One of the primary nodes is lost, and known to be down: a write is served all the same when its file has
      no chunk there. */
  lemma WritesGoAround(server: Barista, call: Call, lost: int, other: int)
    requires server.Valid() && call.WriteCall? && {lost, other} == {FIRST, SECOND}
    requires lost !in server.volatile.upNodes && other in server.volatile.upNodes && other in server.net.reachable
    requires call.fd in server.volatile.fileCursors ==>
               forall c :: c in server.io.chunkToNode && c.fileId == server.volatile.fileCursors[call.fd].fileId ==>
                 server.io.chunkToNode[c] != lost
    ensures CanServe(server, call)
  {
    hide AllStored, CursorsInside, Inv, ReadInv, DeleteInv, MutuallyInverse, RangeOf, Holds;
  }

  // ---------------------------------------------------------------------------
  // What goes wrong when a client shares what its own user holds exclusively
  // ---------------------------------------------------------------------------

  /** Whoever is deleting a file may open it to read all the same, and may then even write it. */
  lemma DeleterMayWrite(locks: map<int, FileLock>, active: map<nat, RequestInfo>, id: nat)
    requires AllConsistent(locks) && DeletesHold(active, locks) && id in active && Proper(active[id].client)
    ensures var client, f := active[id].client, active[id].fileId;
            && HeldExclusivelyByUser(locks, client, f) && Grantable(locks, f, client, Shared)
            && Holds(Granted(locks, f, client, Shared), client, f, Exclusive)
  {
    var f := active[id].fileId;
    assert Consistent(locks[f]);
  }

  lemma {:induction false} WritesPlace(io: IoState, fs: seq<Fragment>, ctx: WriteContext)
    requires AllInBuffer(fs, ctx.buf) && fs != []
    ensures ChunkOfFragment(ctx.fileId, fs[0]) in IssueWrites(io, fs, ctx).nodes
  {
    if |fs| > 1 {
      WritesPlace(io, fs[..|fs| - 1], ctx);
    }
  }

  /** From any state with a pending delete, a run that leaves a chunk of a file that does not exist any
      more: the client that is deleting the file opens it once more, to read it, and writes a byte. Then
      the rest of the acknowledgements arrive. */
  method DeletedFileKeepsChunk(server: Barista, id: nat, pathname: string) returns (ghost c: FileChunk)
    requires server.Valid() && server.Disciplined() && {FIRST, SECOND} <= server.net.reachable
    requires id in server.deleteTable.active && id in server.deleteTable.ledger
    requires server.deleteTable.ledger[id].finished && server.deleteTable.ledger[id].lost == 0
    requires pathname in server.files.pathnameToFileId
    requires server.files.pathnameToFileId[pathname] == server.deleteTable.active[id].fileId
    modifies server, server.files, server.volatile, server.locks, server.net, server.writeTable, server.deleteTable,
             server.io
    ensures server.Valid() && c.fileId == old(server.deleteTable.active)[id].fileId
    ensures c.fileId !in server.files.metadata && c in server.io.chunkToNode
  {
    hide Barista.Valid, AfterWrite, Granted, Grantable, Holds, Dense, DeleteInv, OnlyDeletesSince, FilesKept;
    var client, f := server.deleteTable.active[id].client, server.deleteTable.active[id].fileId;
    DeleterMayWrite(server.locks.fileLocks, server.deleteTable.active, id);
    hide AllConsistent, DeletesHold;
    ServerFacts(server);
    var fd: nat := server.OpenFile(pathname, false, false, client);
    KeptFile(old(server.files.metadata), server.files.metadata, old(server.flats), server.flats, f);
    ghost var before, inst := server.Snap(), server.GetFileInfo(fd);
    var reply := server.WriteFile(fd, [0], client);
    ghost var w := Writing(fd, client, WriteContext(f, WriteRequest(server.volatile.requestId - 1,
                                                                    server.volatile.requestId), [0]));
    c := FirstChunkWritten(before, w, inst.offset, SizesOf(before.files[f]));
    FinishDelete(server, id);
  }

  lemma KeptFile(files: map<int, FileInfo>, files': map<int, FileInfo>, flats: Flats, flats': Flats, f: int)
    requires FilesKept(files, files', flats, flats') && f in files
    ensures f in files'
  {
  }

  lemma FirstChunkWritten(s: Snapshot, w: Writing, at: nat, z: Sizes) returns (c: FileChunk)
    requires Open(s, w) && Positive(z) && w.ctx.buf != []
    ensures c.fileId == w.ctx.fileId && c in AfterWrite(s, w, at, z).io.nodes
  {
    hide Fragments, IssueWrites;
    var fs := Fragments(at, |w.ctx.buf|, z.stripeSize, z.chunkSize);
    FragmentsInBuffer(at, w.ctx.buf, z);
    FragmentsTotal(at, |w.ctx.buf|, z);
    WritesPlace(s.io, fs, w.ctx);
    c := ChunkOfFragment(w.ctx.fileId, fs[0]);
  }

  /** All acknowledgements of a delete arrive, and its file is gone. */
  method FinishDelete(server: Barista, id: nat)
    requires server.Valid() && id in server.deleteTable.active && id in server.deleteTable.ledger
    requires server.deleteTable.ledger[id].finished && server.deleteTable.ledger[id].lost == 0
    modifies server.deleteTable`inFlight, server.deleteTable`active, server.deleteTable`results,
             server.deleteTable`answers
    modifies server.files`metadata, server.files`pathnameToFileId, server.locks
    ensures server.Valid() && id !in server.deleteTable.active
    ensures old(server.deleteTable.active)[id].fileId !in server.files.metadata
  {
    hide Barista.Valid, DeleteInv, OnlyDeletesSince;
    ghost var f := server.deleteTable.active[id].fileId;
    while id in server.deleteTable.active
      invariant server.Valid()
      invariant if id in server.deleteTable.active then server.deleteTable.active[id].fileId == f
                else f !in server.files.metadata
      decreases if id in server.deleteTable.inFlight then server.deleteTable.inFlight[id] else 0
    {
      MoreToCome(server, id);
      ghost var t, metadata, locks := server.deleteTable.TablesNow(), server.files.metadata, server.locks.fileLocks;
      server.DeleteResponse(id);
      GoneWithDelete(t, server.deleteTable.TablesNow(), metadata, server.files.metadata, locks,
                     server.locks.fileLocks, id);
    }
  }

  lemma MoreToCome(server: Barista, id: nat)
    requires server.Valid() && id in server.deleteTable.active && id in server.deleteTable.ledger
    requires server.deleteTable.ledger[id].finished && server.deleteTable.ledger[id].lost == 0
    ensures DeleteEnabled(server.deleteTable.StateNow(), DeleteDeliver(id))
  {
    hide AllStored, CursorsInside, Inv, ReadInv, MutuallyInverse;
    assert DeleteRequestInv(server.deleteTable.StateNow(), id);
  }

  lemma GoneWithDelete(t: DeleteTables, t': DeleteTables, files: map<int, FileInfo>, files': map<int, FileInfo>,
                       locks: map<int, FileLock>, locks': map<int, FileLock>, id: nat)
    requires OnlyDeletesSince(t, t', files, files', locks, locks') && id in t.active
    ensures if id in t'.active then t'.active[id].fileId == t.active[id].fileId else t.active[id].fileId !in files'
  {
  }
}
