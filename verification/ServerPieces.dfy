/** Files that are written and read piece by piece: the pieces written make up the file, and the pieces read make up
    what was written. */
module ServerPieces {
  import opened EspressoStorage
  import opened Striping
  import opened FileChunks
  import opened PersistentMetadata
  import opened VolatileMetadata
  import opened LockingStrategy
  import opened ReadRequests
  import opened DeleteRequests
  import opened OpenFiles
  import opened IoManager
  import opened FlatFile
  import opened FlatReads
  import opened BaristaState
  import opened BaristaCore
  import opened RunLog
  import opened RunOrder
  import opened ServerRuns
  import opened ServerPromises
  import opened ServerCursors

  /** The file consists of these bytes. */
  ghost predicate IsBytes(flat: Flat, bytes: seq<byte>) {
    && (forall p: nat :: p in flat <==> p < |bytes|)
    && (forall p: nat :: p < |bytes| ==> flat[p] == bytes[p])
  }

  lemma AppendedBytes(flat: Flat, bytes: seq<byte>, buf: seq<byte>)
    requires IsBytes(flat, bytes)
    ensures IsBytes(FlatWrite(flat, |bytes|, buf), bytes + buf)
  {
    FlatWriteFacts(flat, |bytes|, buf);
    hide FlatWrite;
  }

  lemma BytesBack(flat: Flat, bytes: seq<byte>)
    requires IsBytes(flat, bytes)
    ensures RangeKnown(flat, 0, |bytes|) && FlatBytes(flat, 0, |bytes|) == bytes
  {
  }

  // ---------------------------------------------------------------------------
  // Writing
  // ---------------------------------------------------------------------------

  /** The buffers written through a descriptor since the call `from`, one after the other. */
  function Pieces(log: seq<Outcome>, from: nat, fd: int): seq<byte> {
    if |log| <= from then []
    else
      var before, e := log[..|log| - 1], log[|log| - 1];
      Pieces(before, from, fd) + if e.Wrote? && e.fd == fd then e.buf else []
  }

  /** The event makes or removes the file, or writes it. */
  predicate Concerns(e: Outcome, f: int) {
    match e
    case Made(created) => f in created
    case Wrote(_, fileId, _, _, _, _, _) => fileId == f
    case Removed(_, fileId, _, _, _, _) => fileId == f
    case AskedFor(_, _, _, _, _, _, _) => false
    case Nothing => false
  }

  /** The call `k` has nothing to do with the descriptor or with the file. */
  predicate Aside(calls: seq<Call>, t: Trace, k: nat, fd: nat, f: int) {
    k < |calls| && k < |t.before| && k < |t.log| && !Uses(t.before[k], calls[k], fd) && !Concerns(t.log[k], f)
  }

  predicate WritesThrough(call: Call, fd: nat, client: Client) {
    call.WriteCall? && call.fd == fd && call.client == client
  }

  /** In these calls the descriptor is used only to write, and the file is changed only through it. */
  ghost predicate OnlyWritten(calls: seq<Call>, t: Trace, from: nat, to: nat, fd: nat, client: Client, f: int) {
    forall k: nat :: from <= k < to && k < |calls| ==>
      WritesThrough(calls[k], fd, client) || Aside(calls, t, k, fd, f)
  }

  /** After the call `o` the descriptor is at offset `at` of the file. */
  ghost predicate CursorIs(t: Trace, o: nat, fd: nat, client: Client, f: int, at: nat) {
    o < |t.after| && fd in t.after[o].cursors && t.after[o].cursors[fd] == FileInstance(client, f, at)
  }

  lemma LogSnoc(log: seq<Outcome>, k: nat, f: int, from: nat, fd: int)
    requires k < |log|
    ensures Contents(log[..k + 1], f) == AfterOutcome(Contents(log[..k], f), log[k], f)
    ensures SizeOf(log[..k + 1], f) == SizeAfter(SizeOf(log[..k], f), log[k], f)
    ensures from <= k ==>
              Pieces(log[..k + 1], from, fd)
              == Pieces(log[..k], from, fd) + if log[k].Wrote? && log[k].fd == fd then log[k].buf else []
  {
    assert log[..k + 1][..k] == log[..k];
  }

  lemma NoPieces(log: seq<Outcome>, from: nat, fd: int)
    requires |log| <= from
    ensures Pieces(log, from, fd) == []
  {
  }

  lemma AsideIsAside(v: View, v': View, call: Call, e: Outcome, fd: nat, f: int, flat: Flat, size: nat)
    requires Fits(call, v, v', e) && !Uses(v, call, fd) && !Concerns(e, f)
    ensures !Through(e, fd)
    ensures AfterOutcome(flat, e, f) == flat && SizeAfter(size, e, f) == size
  {
    hide FoundOrMade, FilesKept, Grantable, Granted, Released, WritePasses, ReadPasses, AfterWrite, ReadSent,
         SomeAnswered, ChunksDeleted, LandsAt;
  }

  /** A piece is written where the cursor is, or refused. */
  lemma PieceWritten(v: View, v': View, call: Call, e: Outcome, fd: nat, client: Client, f: int, at: nat)
    requires Fits(call, v, v', e) && WritesThrough(call, fd, client)
    requires fd in v.cursors && v.cursors[fd] == FileInstance(client, f, at)
    ensures e == Nothing
            || (e.Wrote? && e.fd == fd && e.fileId == f && e.at == at && e.buf == call.buf)
    ensures var n := if e.Wrote? then |e.buf| else 0;
            fd in v'.cursors && v'.cursors[fd] == FileInstance(client, f, at + n)
  {
    hide FoundOrMade, FilesKept, Grantable, Granted, Released, AfterWrite, ReadSent, SomeAnswered, ChunksDeleted,
         LandsAt, Holds;
  }

  /** Pieces that are written one after the other through a descriptor at the beginning of an empty file make up
      the file. */
  lemma {:induction false} WrittenInPieces(first: View, calls: seq<Call>, t: Trace, last: View, o: nat, b: nat,
                                           fd: nat, client: Client, f: int)
    requires IsTrace(first, calls, t, last) && o < b <= |t.log| && CursorIs(t, o, fd, client, f, 0)
    requires Contents(t.log[..o + 1], f) == map[] && SizeOf(t.log[..o + 1], f) == 0
    requires OnlyWritten(calls, t, o + 1, b, fd, client, f)
    ensures var bytes := Pieces(t.log[..b], o + 1, fd);
            && IsBytes(Contents(t.log[..b], f), bytes) && SizeOf(t.log[..b], f) == |bytes|
            && CursorIs(t, b - 1, fd, client, f, |bytes|)
    decreases b
  {
    hide IsTrace, Fits, Served, IsResponses, Uses, Contents, SizeOf, Pieces, IsBytes;
    StepAt(first, calls, t, last, b - 1);
    if b == o + 1 {
      NoPieces(t.log[..b], o + 1, fd);
      assert IsBytes(map[], []) by { NothingIsBytes(); }
    } else {
      var k := b - 1;
      WrittenInPieces(first, calls, t, last, o, k, fd, client, f);
      OnePiece(first, calls, t, last, o, k, fd, client, f);
    }
  }

  lemma NothingIsBytes()
    ensures IsBytes(map[], [])
  {
  }

  lemma OnePiece(first: View, calls: seq<Call>, t: Trace, last: View, o: nat, k: nat, fd: nat, client: Client, f: int)
    requires IsTrace(first, calls, t, last) && o < k < |t.log|
    requires k < |calls| && (WritesThrough(calls[k], fd, client) || Aside(calls, t, k, fd, f))
    requires var bytes := Pieces(t.log[..k], o + 1, fd);
             && IsBytes(Contents(t.log[..k], f), bytes) && SizeOf(t.log[..k], f) == |bytes|
             && CursorIs(t, k - 1, fd, client, f, |bytes|)
    ensures var bytes := Pieces(t.log[..k + 1], o + 1, fd);
            && IsBytes(Contents(t.log[..k + 1], f), bytes) && SizeOf(t.log[..k + 1], f) == |bytes|
            && CursorIs(t, k, fd, client, f, |bytes|)
  {
    hide IsTrace, Fits, Served, IsResponses, Uses, Contents, SizeOf, Pieces, IsBytes, Concerns, FlatWrite;
    StepAt(first, calls, t, last, k);
    var v, v', e, bytes := t.before[k], t.after[k], t.log[k], Pieces(t.log[..k], o + 1, fd);
    LogSnoc(t.log, k, f, o + 1, fd);
    assert bytes + [] == bytes;
    if WritesThrough(calls[k], fd, client) {
      PieceWritten(v, v', calls[k], e, fd, client, f, |bytes|);
      if e.Wrote? {
        AppendedBytes(Contents(t.log[..k], f), bytes, e.buf);
      }
    } else {
      AsideIsAside(v, v', calls[k], e, fd, f, Contents(t.log[..k], f), SizeOf(t.log[..k], f));
      CursorStays(v, v', calls[k], e, fd);
    }
  }

  /** An open that makes a file and gives its client a descriptor puts that at the beginning of an empty file. */
  lemma OpenedEmpty(first: View, calls: seq<Call>, t: Trace, last: View, o: nat)
    requires IsTrace(first, calls, t, last) && o < |t.log| <= |t.before| && |t.log| <= |t.after|
    requires calls[o].OpenCall? && calls[o].readWrite && calls[o].pathname !in t.before[o].names
    requires |calls[o].pathname| <= MAX_FILENAME_LENGTH && t.after[o].lastFd != t.before[o].lastFd
    ensures calls[o].pathname in t.after[o].names
    ensures var f, fd := t.after[o].names[calls[o].pathname], t.after[o].lastFd;
            && f in t.after[o].files && CursorIs(t, o, fd, calls[o].client, f, 0)
            && Contents(t.log[..o + 1], f) == map[] && SizeOf(t.log[..o + 1], f) == 0
  {
    hide IsTrace, Served, IsResponses, Contents, SizeOf;
    StepAt(first, calls, t, last, o);
    MadeEmpty(t.before[o], t.after[o], calls[o], t.log[o]);
    var f := t.after[o].names[calls[o].pathname];
    LogSnoc(t.log, o, f, 0, 0);
  }

  lemma MadeEmpty(v: View, v': View, call: Call, e: Outcome)
    requires call.OpenCall? && OpenFits(v, v', call.pathname, call.readWrite, call.append, call.client, e)
    requires call.readWrite && call.pathname !in v.names && |call.pathname| <= MAX_FILENAME_LENGTH
    requires v'.lastFd != v.lastFd
    ensures call.pathname in v'.names
    ensures var f, fd := v'.names[call.pathname], v'.lastFd;
            && f in v'.files && e.Made? && f in e.created && fd in v'.cursors
            && v'.cursors[fd] == FileInstance(call.client, f, 0)
  {
    hide Grantable, Granted, FilesKept;
  }

  // ---------------------------------------------------------------------------
  // Reading
  // ---------------------------------------------------------------------------

  /** What the read of the log is answered, if the range was written: the bytes up to where the request or the
      file ended. */
  ghost function BytesOf(log: seq<Outcome>, k: nat): seq<byte>
    requires k < |log| && log[k].AskedFor?
  {
    var e, flat, size := log[k], Contents(log[..k], log[k].fileId), SizeOf(log[..k], log[k].fileId);
    if e.at <= size && RangeKnown(flat, e.at, Min(e.at + e.count, size)) then
      FlatBytes(flat, e.at, Min(e.at + e.count, size))
    else []
  }

  /** The answers to the reads through a descriptor since the call `from`, one after the other. */
  ghost function Answers(log: seq<Outcome>, from: nat, fd: int): seq<byte> {
    if |log| <= from then []
    else
      var k := |log| - 1;
      Answers(log[..k], from, fd) + if log[k].AskedFor? && log[k].fd == fd then BytesOf(log, k) else []
  }

  /** How many bytes these reads have asked for. */
  function AskedCount(log: seq<Outcome>, from: nat, fd: int): nat {
    if |log| <= from then 0
    else
      var k := |log| - 1;
      AskedCount(log[..k], from, fd) + if log[k].AskedFor? && log[k].fd == fd then log[k].count else 0
  }

  predicate ReadsThrough(call: Call, fd: nat, client: Client) {
    call.ReadCall? && call.fd == fd && call.client == client
  }

  /** In these calls the descriptor is used only to read, and the file is not changed. */
  ghost predicate OnlyRead(calls: seq<Call>, t: Trace, from: nat, to: nat, fd: nat, client: Client, f: int) {
    forall k: nat :: from <= k < to && k < |calls| ==>
      ReadsThrough(calls[k], fd, client) || Aside(calls, t, k, fd, f)
  }

  lemma NothingRead(log: seq<Outcome>, from: nat, fd: int)
    requires |log| <= from
    ensures Answers(log, from, fd) == [] && AskedCount(log, from, fd) == 0
  {
  }

  lemma AnswersSnoc(log: seq<Outcome>, k: nat, from: nat, fd: int)
    requires from <= k < |log|
    ensures Answers(log[..k + 1], from, fd)
            == Answers(log[..k], from, fd) + if log[k].AskedFor? && log[k].fd == fd then BytesOf(log, k) else []
    ensures AskedCount(log[..k + 1], from, fd)
            == AskedCount(log[..k], from, fd) + if log[k].AskedFor? && log[k].fd == fd then log[k].count else 0
  {
    var log' := log[..k + 1];
    assert log'[..k] == log[..k] && log'[k] == log[k];
  }

  /** At every moment of a run the server agrees with the log so far. */
  lemma {:induction false} PrefixAgrees(first: View, calls: seq<Call>, t: Trace, last: View, k: nat)
    requires IsTrace(first, calls, t, last) && first.files == map[] && k < |t.log|
    ensures |t.before| == |t.log| && Agrees(t.before[k], t.log[..k])
  {
    hide Agrees, IsTrace, Fits, IsStep, IsQuiet, ResponsesFit, OrderStep, InOrder, CallOffends, Separated;
    StepAt(first, calls, t, last, k);
    if k == 0 {
      NothingAgrees(first);
      QuietAgrees(first, t.before[0], []);
    } else {
      StepAt(first, calls, t, last, k - 1);
      PrefixAgrees(first, calls, t, last, k - 1);
      StepAgrees(t.before[k - 1], t.after[k - 1], t.log[..k - 1], t.log[k - 1]);
      assert t.log[..k] == t.log[..k - 1] + [t.log[k - 1]];
      QuietAgrees(t.after[k - 1], t.before[k], t.log[..k]);
    }
  }

  lemma NothingAgrees(v: View)
    requires v.files == map[]
    ensures Agrees(v, [])
  {
  }

  /** A piece is read where the cursor is, or there is nothing to read. */
  lemma PieceRead(v: View, v': View, call: Call, e: Outcome, fd: nat, client: Client, f: int, at: nat, size: nat)
    requires Fits(call, v, v', e) && ReadsThrough(call, fd, client)
    requires fd in v.cursors && v.cursors[fd] == FileInstance(client, f, at)
    requires f in v.files ==> v.files[f].size == size
    ensures e == Nothing || (e.AskedFor? && e.fd == fd && e.fileId == f && e.at == at < size)
    ensures fd in v'.cursors
    ensures v'.cursors[fd] == FileInstance(client, f, if e.AskedFor? then Min(at + e.count, size) else at)
  {
    hide FoundOrMade, FilesKept, Grantable, Granted, Released, AfterWrite, ReadSent, SomeAnswered, ChunksDeleted,
         LandsAt, Holds, AllFresh, RangeOf, OnlyReads, Asked;
  }

  /** How far the reads through a descriptor have come, of a file with these contents and of this size. */
  ghost predicate ReadSoFar(t: Trace, o: nat, b: nat, fd: nat, client: Client, f: int, flat: Flat, size: nat) {
    && o < b <= |t.log| && RangeKnown(flat, 0, size)
    && Contents(t.log[..b], f) == flat && SizeOf(t.log[..b], f) == size
    && var end := Min(AskedCount(t.log[..b], o + 1, fd), size);
       Answers(t.log[..b], o + 1, fd) == FlatBytes(flat, 0, end) && CursorIs(t, b - 1, fd, client, f, end)
  }

  /** The answers to reads one after the other through a descriptor at the beginning of a file that was written
      from its beginning to its end, and is not written meanwhile, make up the file, as far as was asked for. */
  lemma {:induction false} ReadInPieces(first: View, calls: seq<Call>, t: Trace, last: View, o: nat, b: nat, fd: nat,
                                        client: Client, f: int)
    requires IsTrace(first, calls, t, last) && first.files == map[]
    requires o < b <= |t.log| && CursorIs(t, o, fd, client, f, 0) && OnlyRead(calls, t, o + 1, b, fd, client, f)
    requires RangeKnown(Contents(t.log[..o + 1], f), 0, SizeOf(t.log[..o + 1], f))
    ensures ReadSoFar(t, o, b, fd, client, f, Contents(t.log[..o + 1], f), SizeOf(t.log[..o + 1], f))
    decreases b
  {
    hide IsTrace, Fits, Served, IsResponses, Uses, Contents, SizeOf, Answers, AskedCount, RangeKnown;
    StepAt(first, calls, t, last, b - 1);
    if b == o + 1 {
      NothingRead(t.log[..b], o + 1, fd);
    } else {
      ReadInPieces(first, calls, t, last, o, b - 1, fd, client, f);
      hide ReadSoFar;
      OneRead(first, calls, t, last, o, b - 1, fd, client, f, Contents(t.log[..o + 1], f), SizeOf(t.log[..o + 1], f));
    }
  }

  lemma OneRead(first: View, calls: seq<Call>, t: Trace, last: View, o: nat, k: nat, fd: nat, client: Client, f: int,
                flat: Flat, size: nat)
    requires IsTrace(first, calls, t, last) && first.files == map[] && o < k < |t.log|
    requires k < |calls| && (ReadsThrough(calls[k], fd, client) || Aside(calls, t, k, fd, f))
    requires ReadSoFar(t, o, k, fd, client, f, flat, size)
    ensures ReadSoFar(t, o, k + 1, fd, client, f, flat, size)
  {
    hide IsTrace, Fits, Served, IsResponses, Uses, Contents, SizeOf, Answers, AskedCount, Concerns, FlatWrite;
    StepAt(first, calls, t, last, k);
    PrefixAgrees(first, calls, t, last, k);
    var v, v', e, asked := t.before[k], t.after[k], t.log[k], AskedCount(t.log[..k], o + 1, fd);
    var at, answers := Min(asked, size), Answers(t.log[..k], o + 1, fd);
    LogSnoc(t.log, k, f, o + 1, fd);
    AnswersSnoc(t.log, k, o + 1, fd);
    assert f in v.files ==> v.files[f].size == size;
    hide Agrees;
    assert answers + [] == answers;
    if ReadsThrough(calls[k], fd, client) {
      PieceRead(v, v', calls[k], e, fd, client, f, at, size);
      if e.AskedFor? {
        FlatBytesConcat(flat, 0, at, Min(at + e.count, size));
      }
    } else {
      AsideIsAside(v, v', calls[k], e, fd, f, flat, size);
      CursorStays(v, v', calls[k], e, fd);
    }
  }

  // ---------------------------------------------------------------------------
  // What clients see
  // ---------------------------------------------------------------------------

  /** The client is told these bytes: when and only when all pieces have arrived, and once. */
  ghost predicate Told(s: ReadState, requestId: nat, client: Client, fd: int, bytes: seq<byte>) {
    && requestId in s.inFlight && (requestId in s.answers <==> s.inFlight[requestId] == [])
    && (requestId in s.answers ==>
          ReadAnsweredOnce(s, requestId) && ReadResult(client, fd, |bytes|, bytes) in s.tables.results)
  }

  /** Every read through the descriptor is answered with its bytes. */
  ghost predicate AllTold(s: ReadState, log: seq<Outcome>, from: nat, to: nat, fd: int) {
    forall k: nat :: from <= k < to && k < |log| && log[k].AskedFor? && log[k].fd == fd ==>
      Told(s, log[k].requestId, log[k].client, fd, BytesOf(log, k))
  }

  lemma ReadIsTold(server: Barista, first: View, calls: seq<Call>, t: Trace, k: nat)
    requires AfterRun(server, first, calls, t) && k < |t.log| && t.log[k].AskedFor? && t.log[k].current
    requires var e := t.log[k];
             RangeKnown(Contents(t.log[..k], e.fileId), e.at, Min(e.at + e.count, SizeOf(t.log[..k], e.fileId)))
    ensures var e := t.log[k]; Told(server.readTable.StateNow(), e.requestId, e.client, e.fd, BytesOf(t.log, k))
  {
    hide KnownIsRead, Contents, SizeOf, Barista.Valid, AfterRun, Agrees, InOrder, RangeKnown, Served;
    StepOf(server, first, calls, t, k);
    var e := t.log[k];
    ReadAnsweredWithBytes(server, Contents(t.log[..k], e.fileId), SizeOf(t.log[..k], e.fileId), e.at, e.count,
                          e.requestId);
  }

  /** The same for one of the reads that make up a file. */
  lemma PieceIsTold(server: Barista, first: View, calls: seq<Call>, t: Trace, o: nat, k: nat, fd: nat, client: Client,
                    f: int)
    requires AfterRun(server, first, calls, t) && first.files == map[]
    requires o < k < |t.log| && CursorIs(t, o, fd, client, f, 0) && OnlyRead(calls, t, o + 1, k, fd, client, f)
    requires RangeKnown(Contents(t.log[..o + 1], f), 0, SizeOf(t.log[..o + 1], f))
    requires t.log[k].AskedFor? && t.log[k].fd == fd && t.log[k].current
    ensures Told(server.readTable.StateNow(), t.log[k].requestId, t.log[k].client, fd, BytesOf(t.log, k))
  {
    hide Contents, SizeOf, Barista.Valid, Agrees, InOrder, IsTrace, Answers, AskedCount, OnlyRead, Told, BytesOf,
         Served, Fits;
    var last := ViewOf(server);
    ReadInPieces(first, calls, t, last, o, k, fd, client, f);
    StepAt(first, calls, t, last, k);
    BeginsAtCursor(t.before[k], t.after[k], calls[k], t.log[k], fd);
    ReadIsTold(server, first, calls, t, k);
  }

  lemma ReadSoFarIs(t: Trace, o: nat, b: nat, fd: nat, client: Client, f: int, flat: Flat, size: nat)
    requires ReadSoFar(t, o, b, fd, client, f, flat, size)
    ensures b <= |t.log| && flat == Contents(t.log[..b], f) && size == SizeOf(t.log[..b], f)
    ensures var asked := AskedCount(t.log[..b], o + 1, fd);
            && RangeKnown(flat, 0, size) && Answers(t.log[..b], o + 1, fd) == FlatBytes(flat, 0, Min(asked, size))
  {
    hide Contents, SizeOf, Answers, AskedCount;
  }

  /** All reads that begin with the call `from` are sure to ask no copy that has missed a write. */
  ghost predicate AllCurrent(log: seq<Outcome>, from: nat, to: nat, fd: int) {
    forall k: nat :: from <= k < to && k < |log| && log[k].AskedFor? && log[k].fd == fd ==> log[k].current
  }

  /** A file to which all writes appended is read piece by piece, by reads that ask no copy that missed a write:
      the answers make up the file, as far as was asked for, and the whole file when that was enough. */
  lemma FileIsReadInPieces(server: Barista, first: View, calls: seq<Call>, t: Trace, o: nat, b: nat, fd: nat,
                           client: Client, f: int)
    requires AfterRun(server, first, calls, t) && first.files == map[]
    requires o < b <= |t.log| && CursorIs(t, o, fd, client, f, 0) && OnlyRead(calls, t, o + 1, b, fd, client, f)
    requires NeverRemoved(t.log[..o + 1], f) && AppendedOnly(t.log[..o + 1], f) && AllCurrent(t.log, o + 1, b, fd)
    ensures AllTold(server.readTable.StateNow(), t.log, o + 1, b, fd)
    ensures var flat, size, asked := Contents(t.log[..b], f), SizeOf(t.log[..b], f), AskedCount(t.log[..b], o + 1, fd);
            && RangeKnown(flat, 0, size) && Answers(t.log[..b], o + 1, fd) == FlatBytes(flat, 0, Min(asked, size))
            && (size <= asked ==> Answers(t.log[..b], o + 1, fd) == FlatBytes(flat, 0, size))
            && CursorIs(t, b - 1, fd, client, f, Min(asked, size))
  {
    hide Contents, SizeOf, Barista.Valid, RangeKnown, IsTrace, Answers, AskedCount, NeverRemoved, AppendedOnly, Told,
         BytesOf;
    AppendedNow(server, first, calls, t, o + 1, f);
    hide AfterRun;
    ReadInPieces(first, calls, t, ViewOf(server), o, b, fd, client, f);
    ReadSoFarIs(t, o, b, fd, client, f, Contents(t.log[..o + 1], f), SizeOf(t.log[..o + 1], f));
    forall k: nat | o + 1 <= k < b && t.log[k].AskedFor? && t.log[k].fd == fd
      ensures Told(server.readTable.StateNow(), t.log[k].requestId, t.log[k].client, fd, BytesOf(t.log, k)) {
      PieceIsTold(server, first, calls, t, o, k, fd, client, f);
    }
  }

  lemma AppendedNow(server: Barista, first: View, calls: seq<Call>, t: Trace, k: nat, f: int)
    requires AfterRun(server, first, calls, t) && k <= |t.log|
    requires NeverRemoved(t.log[..k], f) && AppendedOnly(t.log[..k], f)
    ensures IsTrace(first, calls, t, ViewOf(server))
    ensures RangeKnown(Contents(t.log[..k], f), 0, SizeOf(t.log[..k], f))
  {
    hide Contents, SizeOf, Barista.Valid, IsTrace, NeverRemoved, AppendedOnly;
    WritesInsidePrefix(t.log, k);
    hide WritesInside;
    AppendedIsKnown(t.log[..k], f, 0, SizeOf(t.log[..k], f));
  }

  /** Once all of the file was asked for, the client that reads on is told at once that there is nothing left. */
  method ReadAtTheEnd(server: Barista, ghost first: View, ghost calls: seq<Call>, ghost t: Trace, ghost o: nat, fd: nat,
                      count: nat, client: Client, ghost f: int) returns (reply: Reply)
    requires AfterRun(server, first, calls, t) && first.files == map[] && Obedient(calls, t)
    requires o < |t.log| && CursorIs(t, o, fd, client, f, 0) && OnlyRead(calls, t, o + 1, |t.log|, fd, client, f)
    requires NeverRemoved(t.log[..o + 1], f) && AppendedOnly(t.log[..o + 1], f)
    requires SizeOf(t.log, f) <= AskedCount(t.log, o + 1, fd) && 0 < fd && 0 < f && Proper(client)
    modifies server.net`sent, server.volatile`upNodes, server.volatile`fileCursors, server.volatile`requestId,
             server.readTable
    ensures server.Valid() && reply == Replied(fd, 0)
  {
    hide Barista.Valid, AfterRun, IsTrace, Contents, SizeOf, AskedCount, NeverRemoved, AppendedOnly, OnlyRead, Holds,
         OnlyReads, ReadSent, KnownIsRead, AllFresh, RangeOf, Asked, CursorIs;
    CursorAtTheEnd(server, first, calls, t, o, fd, client, f);
    reply := server.ReadFile(fd, count, client);
  }

  lemma CursorsAtTheEnd(first: View, calls: seq<Call>, t: Trace, last: View)
    requires IsTrace(first, calls, t, last) && t.log != []
    ensures |t.after| == |t.log| && last.cursors == t.after[|t.log| - 1].cursors
  {
    hide IsResponses, TraceStep;
    ResponsesKeepCursors(t.after[|t.log| - 1], last);
  }

  lemma CursorAtTheEnd(server: Barista, first: View, calls: seq<Call>, t: Trace, o: nat, fd: nat, client: Client,
                       f: int)
    requires AfterRun(server, first, calls, t) && first.files == map[] && Obedient(calls, t)
    requires o < |t.log| && CursorIs(t, o, fd, client, f, 0) && OnlyRead(calls, t, o + 1, |t.log|, fd, client, f)
    requires NeverRemoved(t.log[..o + 1], f) && AppendedOnly(t.log[..o + 1], f)
    requires SizeOf(t.log, f) <= AskedCount(t.log, o + 1, fd) && 0 < f
    ensures server.Valid() && f in server.files.metadata && HoldsSome(server.locks.fileLocks, client, f)
    ensures fd in server.volatile.fileCursors
    ensures server.volatile.fileCursors[fd] == FileInstance(client, f, server.files.metadata[f].size)
  {
    hide Contents, SizeOf, Barista.Valid, RangeKnown, Answers, AskedCount, NeverRemoved, AppendedOnly, OnlyRead, Holds,
         Obedient, LivePaired, Numbered, MappedKnown, IsResponses, IsTrace;
    var b := |t.log|;
    assert t.log[..b] == t.log;
    AppendedNow(server, first, calls, t, o + 1, f);
    OrderlyNow(server, first, calls, t);
    ReadInPieces(first, calls, t, ViewOf(server), o, b, fd, client, f);
    CursorsAtTheEnd(first, calls, t, ViewOf(server));
    OwnDescriptorWorks(server.volatile.fileCursors, server.files.metadata, server.locks.fileLocks,
                       server.deleteTable.active, fd);
  }

  /** In these calls the file is not changed. */
  ghost predicate Unchanged(log: seq<Outcome>, from: nat, to: nat, f: int) {
    forall k: nat :: from <= k < to && k < |log| ==> !Concerns(log[k], f)
  }

  lemma {:induction false} ContentsKept(log: seq<Outcome>, from: nat, to: nat, f: int)
    requires from <= to <= |log| && Unchanged(log, from, to, f)
    ensures Contents(log[..to], f) == Contents(log[..from], f) && SizeOf(log[..to], f) == SizeOf(log[..from], f)
  {
    if from < to {
      ContentsKept(log, from, to - 1, f);
      LogSnoc(log, to - 1, f, 0, 0);
      hide Contents, SizeOf;
    }
  }

  /** What was written to a new file in pieces, through one descriptor, is what is read of it in pieces, through
      any other or the same one: the answers, put together, are the buffers, put together. */
  lemma WrittenIsReadBack(first: View, calls: seq<Call>, t: Trace, last: View, o: nat, m: nat, fd: nat, client: Client,
                          o': nat, b: nat, fd': nat, client': Client, f: int)
    requires IsTrace(first, calls, t, last) && first.files == map[] && o < m <= o' + 1 && o' < b <= |t.log|
    requires CursorIs(t, o, fd, client, f, 0) && Contents(t.log[..o + 1], f) == map[] && SizeOf(t.log[..o + 1], f) == 0
    requires OnlyWritten(calls, t, o + 1, m, fd, client, f) && Unchanged(t.log, m, o' + 1, f)
    requires CursorIs(t, o', fd', client', f, 0) && OnlyRead(calls, t, o' + 1, b, fd', client', f)
    requires |Pieces(t.log[..m], o + 1, fd)| <= AskedCount(t.log[..b], o' + 1, fd')
    ensures Answers(t.log[..b], o' + 1, fd') == Pieces(t.log[..m], o + 1, fd)
  {
    hide IsTrace, Contents, SizeOf, RangeKnown, Answers, AskedCount, OnlyRead, OnlyWritten, Pieces, IsBytes, CursorIs;
    WrittenInPieces(first, calls, t, last, o, m, fd, client, f);
    ContentsKept(t.log, m, o' + 1, f);
    BytesBack(Contents(t.log[..m], f), Pieces(t.log[..m], o + 1, fd));
    ReadInPieces(first, calls, t, last, o', b, fd', client', f);
  }
}
