/** What the Barista server promises about its files, and what reads, writes and deletes do to it. */
module BaristaState {
  import opened EspressoStorage
  import opened Nodes
  import opened Striping
  import opened FileChunks
  import opened PersistentMetadata
  import opened VolatileMetadata
  import opened LockingStrategy
  import opened WriteRequests
  import opened ReadRequests
  import opened DeleteRequests
  import opened Acknowledgements
  import opened IoManager
  import opened FlatFile
  import opened FlatReads

  // ---------------------------------------------------------------------------
  // What the server keeps
  // ---------------------------------------------------------------------------

  type Flats = map<int, Flat>

  function SizesOf(info: FileInfo): Sizes {
    Sizes(info.stripeSize, info.chunkSize)
  }

  /** No byte was written past the size. */
  ghost predicate Below(flat: Flat, size: nat) {
    forall p :: p in flat ==> p < size
  }

  /** The nodes store the bytes of the file, the file is large enough for them, and nothing was sent to a
      node that belongs past its end. */
  ghost predicate FileStored(io: IoState, id: int, info: FileInfo, flat: Flat) {
    && Positive(SizesOf(info))
    && Below(flat, info.size)
    && StoresFile(io, id, flat, SizesOf(info))
    && SentInside(io.sent, id, info.size, SizesOf(info))
  }

  ghost predicate AllStored(io: IoState, files: map<int, FileInfo>, flats: Flats) {
    && Separated(io) && HarmlessLog(io.sent) && Held(io)
    && (forall id :: id in files ==> id in flats && FileStored(io, id, files[id], flats[id]))
  }

  /** The cursors after `client` has moved `n` bytes through descriptor `fd`. */
  function Advanced(cursors: map<nat, FileInstance>, fd: nat, client: Client, n: nat): map<nat, FileInstance> {
    if fd in cursors && cursors[fd].client == client then cursors[fd := cursors[fd].(offset := cursors[fd].offset + n)]
    else cursors
  }

  function Longer(files: map<int, FileInfo>, id: int, n: nat): map<int, FileInfo>
    requires id in files
  {
    files[id := files[id].(size := files[id].size + n)]
  }

  // ---------------------------------------------------------------------------
  // What a write does to all files
  // ---------------------------------------------------------------------------

  /** Of the fragments `fs` of a request for `count` bytes, the first ones are `done`; they cover
      `start` bytes, and the next stripe is `stripeId`. */
  ghost predicate DoneUpTo(fs: seq<Fragment>, done: seq<Fragment>, stripeId: nat, stripeOffset: nat, start: nat,
                           count: nat, z: Sizes) {
    && Positive(z) && stripeOffset <= z.stripeSize && start <= count
    && fs == done + FileFragments(stripeId, stripeOffset, start, count - start, z.stripeSize, z.chunkSize)
  }

  lemma NothingDone(offset: nat, count: nat, z: Sizes, stripeId: nat, stripeOffset: nat)
    requires Positive(z) && (stripeId, stripeOffset) == FirstUnit(offset, z.stripeSize)
    ensures DoneUpTo(Fragments(offset, count, z.stripeSize, z.chunkSize), [], stripeId, stripeOffset, 0, count, z)
  {
  }

  lemma OneStripeDone(fs: seq<Fragment>, done: seq<Fragment>, stripeId: nat, stripeOffset: nat, start: nat,
                      count: nat, z: Sizes, size: nat)
    requires DoneUpTo(fs, done, stripeId, stripeOffset, start, count, z) && start < count
    requires size == if count - start > z.stripeSize - stripeOffset then z.stripeSize - stripeOffset else count - start
    ensures DoneUpTo(fs, done + StripeFragments(stripeId, stripeOffset, start, size, z.chunkSize),
                     stripeId + 1, 0, start + size, count, z)
  {
  }

  lemma DoneAreIn(fs: seq<Fragment>, done: seq<Fragment>, stripeId: nat, stripeOffset: nat, start: nat, count: nat,
                  z: Sizes)
    requires DoneUpTo(fs, done, stripeId, stripeOffset, start, count, z)
    ensures forall f :: f in done ==> f in fs
  {
    hide FileFragments;
  }

  lemma AllDone(fs: seq<Fragment>, done: seq<Fragment>, stripeId: nat, stripeOffset: nat, count: nat, z: Sizes)
    requires DoneUpTo(fs, done, stripeId, stripeOffset, count, count, z)
    ensures fs == done
  {
  }

  lemma {:induction false} TotalBytesConcat(a: seq<Fragment>, b: seq<Fragment>)
    ensures TotalBytes(a + b) == TotalBytes(a) + TotalBytes(b)
  {
    if b == [] {
      assert a + b == a;
    } else {
      var n := |b| - 1;
      TotalBytesConcat(a, b[..n]);
      assert (a + b)[..|a| + n] == a + b[..n];
    }
  }

  lemma CountFragmentsConcat(ledger: map<WriteRequest, Entry>, r: WriteRequest, a: seq<Fragment>, lost: nat,
                             b: seq<Fragment>, more: nat)
    requires r in ledger
    ensures CountFragments(ledger, r, a + b, lost + more)
            == CountFragments(CountFragments(ledger, r, a, lost), r, b, more)
  {
    TotalBytesConcat(a, b);
    var mid := CountFragments(ledger, r, a, lost);
    assert CountFragments(ledger, r, a + b, lost + more) == mid[r := CountFragments(ledger, r, a + b, lost + more)[r]];
  }

  /** The fragments of a request have together as many bytes as the request. */
  lemma {:induction false} TilesTotal(fs: seq<Fragment>, start: nat, end: nat)
    requires Tiles(fs, start, end)
    ensures start + TotalBytes(fs) == end
  {
    if fs != [] {
      TilesTotal(fs[1..], start + fs[0].size, end);
      assert fs == [fs[0]] + fs[1..];
      TotalBytesConcat([fs[0]], fs[1..]);
      assert [fs[0]][..0] == [];
    }
  }

  /** A write keeps every file stored: its own with the bytes written, the others as they were. */
  lemma WriteKeepsAll(io: IoState, files: map<int, FileInfo>, flats: Flats, at: nat, ctx: WriteContext,
                      fs: seq<Fragment>)
    requires AllStored(io, files, flats) && ctx.fileId in files && at <= files[ctx.fileId].size
    requires Positive(SizesOf(files[ctx.fileId]))
    requires fs == Fragments(at, |ctx.buf|, files[ctx.fileId].stripeSize, files[ctx.fileId].chunkSize)
    requires AllInBuffer(fs, ctx.buf)
    ensures AllStored(IssueWrites(io, fs, ctx), Longer(files, ctx.fileId, |ctx.buf|),
                      flats[ctx.fileId := FlatWrite(flats[ctx.fileId], at, ctx.buf)])
  {
    hide Fragments, StoresFile, IssueWrites, Separated, HarmlessLog, FlatWrite, Held, SentInside, WellPlaced;
    var id, z := ctx.fileId, SizesOf(files[ctx.fileId]);
    FragmentsCut(at, |ctx.buf|, files[id].stripeSize, files[id].chunkSize);
    assert forall f :: f in fs ==> WellPlaced(f, at, z.stripeSize, z.chunkSize);
    EndsAfterStart(fs, at, z);
    WritesHarmless(io, fs, ctx);
    WritesHeld(io, fs, ctx);
    var flat, flat' := flats[id], FlatWrite(flats[id], at, ctx.buf);
    var files' := Longer(files, id, |ctx.buf|);
    assert FileStored(io, id, files[id], flat);
    WriteRefinesFlat(io, fs, ctx, flat, at, SizesOf(files[id]));
    FlatWriteFacts(flat, at, ctx.buf);
    SentInsideMore(io.sent, id, files[id].size, files'[id].size, z);
    InsideTiles(fs, 0, |ctx.buf|);
    WritesSentInside(io, fs, ctx, at, files'[id].size, z);
    forall x | x in files'
      ensures FileStored(IssueWrites(io, fs, ctx), x, files'[x], flats[id := flat'][x])
    {
      if x != id {
        assert FileStored(io, x, files[x], flats[x]);
        OtherFilesKept(io, fs, ctx, x, flats[x], SizesOf(files[x]));
        WritesKeepInside(io, fs, ctx, x, files[x].size, SizesOf(files[x]));
      }
    }
  }

  lemma EndsAfterStart(fs: seq<Fragment>, base: nat, z: Sizes)
    requires Positive(z) && forall f :: f in fs ==> WellPlaced(f, base, z.stripeSize, z.chunkSize)
    ensures forall f :: f in fs ==> 0 < f.offset + f.size
  {
  }

  lemma InsideTiles(fs: seq<Fragment>, start: nat, end: nat)
    requires Tiles(fs, start, end)
    ensures forall f :: f in fs ==> f.start + f.size <= end
  {
    forall f | f in fs ensures f.start + f.size <= end {
      var i :| 0 <= i < |fs| && fs[i] == f;
      TilesBounds(fs, start, end, i);
    }
  }

  /** Every byte of the file was written, and its size is its length. */
  ghost predicate Dense(flat: Flat, size: nat) {
    forall p: nat :: p in flat <==> p < size
  }

  /** A size is only an upper bound, because overwriting counts twice: after a write it is exact if
      and only if it was before, and the write was made at the end of the file. */
  lemma SizeExactIffAppended(flat: Flat, size: nat, at: nat, buf: seq<byte>)
    requires Below(flat, size) && at <= size && buf != []
    ensures Dense(FlatWrite(flat, at, buf), size + |buf|) <==> Dense(flat, size) && at == size
  {
    FlatWriteFacts(flat, at, buf);
    var flat', size' := FlatWrite(flat, at, buf), size + |buf|;
    hide FlatWrite;
    if Dense(flat', size') {
      assert size' - 1 in flat';
      forall p: nat ensures p in flat <==> p < size {
        assert p in flat' <==> p < size';
      }
    }
  }

  lemma NothingStored(up: seq<int>, reachable: set<int>, nextFileId: nat)
    ensures AllStored(IoState(map[], map[], {}, up, [], reachable), map[], map[])
    ensures CursorsInside(map[], map[], nextFileId)
  {
  }

  /** The fragments of a range of a file. */
  function RangeOf(info: FileInfo, offset: nat, count: nat): seq<Fragment> {
    if 0 < info.stripeSize && 0 < info.chunkSize then Fragments(offset, count, info.stripeSize, info.chunkSize) else []
  }

  /** What is remembered of a delete once it was issued: to how many copies, on nodes that are up, and how many
      of these were lost because their nodes cannot be reached. */
  function DeleteEntryFor(io: IoState, client: Client, fileId: int): DeleteEntry {
    var copies, up := CopiesOf(io, fileId), NodesUp(io.up);
    DeleteEntry(client, fileId, CopiesOn(copies, up), CopiesOn(copies, up - io.reachable), 0 < CopiesOn(copies, up))
  }

  lemma DeletesCounted(io: IoState, l: map<nat, DeleteEntry>, id: nat, client: Client, fileId: int,
                       chunks: seq<FileChunk>)
    requires ChunksOfFile(chunks, io.nodes, fileId)
    ensures var packets := DeletePackets(io, chunks, id);
            var l' := CountDeletes(l[id := DeleteEntry(client, fileId, 0, 0, false)], id, packets, io.reachable);
            && id in l' && !l'[id].finished && l'[id].issued == |packets|
            && (if packets == [] then l' else l'[id := l'[id].(finished := true)])
               == l[id := DeleteEntryFor(io, client, fileId)]
  {
    hide ChunksOfFile, CopiesOn, CopiesOf, DeletePackets, Reaching;
    ReachingAre(DeletePackets(io, chunks, id), io.reachable);
    FileDeletesCount(io, chunks, id, fileId);
  }

  // ---------------------------------------------------------------------------
  // Which calls are refused
  // ---------------------------------------------------------------------------

  /** What is known of a descriptor. One that is not open stands for file 0, which no file is. */
  function InstanceOf(cursors: map<nat, FileInstance>, fd: nat): FileInstance {
    if fd in cursors then cursors[fd] else FileInstance(Client("", 0, NULL), 0, 0)
  }

  /** Whether a write passes all checks. */
  predicate WritePasses(locks: map<int, FileLock>, files: map<int, FileInfo>, cursors: map<nat, FileInstance>,
                        fd: nat, buf: seq<byte>, client: Client) {
    && Holds(locks, client, InstanceOf(cursors, fd).fileId, Exclusive)
    && InstanceOf(cursors, fd).fileId in files && fd in cursors && buf != []
  }

  /** Whether a read passes all checks. */
  predicate ReadPasses(locks: map<int, FileLock>, files: map<int, FileInfo>, cursors: map<nat, FileInstance>,
                       fd: nat, count: nat, client: Client) {
    var inst := InstanceOf(cursors, fd);
    && (Holds(locks, client, inst.fileId, Exclusive) || Holds(locks, client, inst.fileId, Shared))
    && inst.fileId in files && fd in cursors && inst.offset < files[inst.fileId].size && count != 0
  }

  /** An open is an offence when it shares a file that a process of the same user holds exclusively. */
  predicate Offends(locks: map<int, FileLock>, names: map<string, int>, pathname: string, readWrite: bool,
                    client: Client) {
    !readWrite && pathname in names && HeldExclusivelyByUser(locks, client, names[pathname])
  }

  /** The file `f` that an open is about: one that exists, or a new and empty one. A name that is too long stands
      for no file, and nothing is made to be only read. */
  predicate FoundOrMade(names: map<string, int>, names': map<string, int>, files: map<int, FileInfo>,
                        files': map<int, FileInfo>, nextFileId: nat, nextFileId': nat, pathname: string,
                        readWrite: bool, z: Sizes, f: int) {
    if pathname in names then
      f == names[pathname] && names' == names && files' == files && nextFileId' == nextFileId
    else if readWrite && |pathname| <= MAX_FILENAME_LENGTH then
      && nextFileId < f == nextFileId' && f !in files && names' == names[pathname := f]
      && files' == files[f := FileInfo(f, 0, z.stripeSize, z.chunkSize, z.chunkSize, pathname)]
    else
      f == FILENAME_INVALID && names' == names && files' == files && nextFileId' == nextFileId
  }

  lemma StoredBelow(io: IoState, files: map<int, FileInfo>, flats: Flats, id: int)
    requires AllStored(io, files, flats) && id in files
    ensures id in flats && Below(flats[id], files[id].size)
  {
    hide StoresFile;
    assert FileStored(io, id, files[id], flats[id]);
  }

  lemma StoredSizes(io: IoState, files: map<int, FileInfo>, flats: Flats, id: int)
    requires AllStored(io, files, flats) && id in files
    ensures id in flats && Positive(SizesOf(files[id]))
  {
  }

  lemma FragmentsTotal(at: nat, count: nat, z: Sizes)
    requires Positive(z)
    ensures TotalBytes(Fragments(at, count, z.stripeSize, z.chunkSize)) == count
    ensures 0 < count ==> Fragments(at, count, z.stripeSize, z.chunkSize) != []
  {
    hide Fragments;
    FragmentsCut(at, count, z.stripeSize, z.chunkSize);
    TilesTotal(Fragments(at, count, z.stripeSize, z.chunkSize), 0, count);
  }

  lemma LongerKeepsCursors(cursors: map<nat, FileInstance>, files: map<int, FileInfo>, nextFileId: nat,
                          fd: nat, client: Client, n: nat)
    requires CursorsInside(cursors, files, nextFileId) && fd in cursors && cursors[fd].fileId in files
    ensures CursorsInside(Advanced(cursors, fd, client, n), Longer(files, cursors[fd].fileId, n), nextFileId)
  {
  }

  // ---------------------------------------------------------------------------
  // The stripes of a write
  // ---------------------------------------------------------------------------

  /** What the stripes of a write change. */
  datatype Snapshot = Snapshot(io: IoState, ledger: map<WriteRequest, Entry>, files: map<int, FileInfo>,
                               cursors: map<nat, FileInstance>)

  /** A write, through which descriptor and for whom. */
  datatype Writing = Writing(fd: nat, client: Client, ctx: WriteContext)

  ghost predicate MayWrite(s: Snapshot, w: Writing) {
    Open(s, w) && w.ctx.request in s.ledger && !s.ledger[w.ctx.request].finished
  }

  /** The fragments `fs`, of `n` bytes, were sent; the file is taken to be `n` bytes longer and the
      cursor is moved `n` bytes. */
  ghost function AfterFragments(s: Snapshot, w: Writing, fs: seq<Fragment>, n: nat): Snapshot
    requires MayWrite(s, w) && AllInBuffer(fs, w.ctx.buf)
  {
    Snapshot(IssueWrites(s.io, fs, w.ctx), CountFragments(s.ledger, w.ctx.request, fs, LostCopies(s.io, fs, w.ctx)),
             Longer(s.files, w.ctx.fileId, n), Advanced(s.cursors, w.fd, w.client, n))
  }

  ghost predicate Open(s: Snapshot, w: Writing) {
    && w.ctx.fileId in s.files
    && w.fd in s.cursors && s.cursors[w.fd].fileId == w.ctx.fileId
    && s.cursors[w.fd].offset <= s.files[w.ctx.fileId].size
  }

  /** All of a write was sent: its fragments went out, the file is taken to be that much longer,
      the cursor has moved along, and the request only waits for the acknowledgements. */
  ghost function AfterWrite(s: Snapshot, w: Writing, at: nat, z: Sizes): (s': Snapshot)
    requires Open(s, w) && Positive(z)
    ensures w.ctx.request in s'.ledger
  {
    var fs := Fragments(at, |w.ctx.buf|, z.stripeSize, z.chunkSize);
    FragmentsInBuffer(at, w.ctx.buf, z);
    Snapshot(IssueWrites(s.io, fs, w.ctx),
             s.ledger[w.ctx.request :=
               Entry(w.client, w.fd, |fs|, |fs|, LostCopies(s.io, fs, w.ctx), |w.ctx.buf|, true)],
             Longer(s.files, w.ctx.fileId, |w.ctx.buf|), Advanced(s.cursors, w.fd, w.client, |w.ctx.buf|))
  }

  /** What a write that passes all checks does: it overwrites the file from the cursor on, its fragments are
      sent, the file is taken to be that much longer, and the cursor of its own client moves behind what was
      written. The size stays exact if and only if it was and the write is made at the end. */
  ghost predicate BufferWritten(s: Snapshot, s': Snapshot, flats: Flats, flats': Flats, lastId: nat, fd: nat,
                                buf: seq<byte>, client: Client) {
    var inst := InstanceOf(s.cursors, fd);
    && inst.fileId in s.files && inst.fileId in flats
    && var stat, request := s.files[inst.fileId], WriteRequest(lastId + 1, lastId + 2);
       var w := Writing(fd, client, WriteContext(inst.fileId, request, buf));
       && Positive(SizesOf(stat)) && Open(s, w) && s' == AfterWrite(s, w, inst.offset, SizesOf(stat))
       && flats' == flats[inst.fileId := FlatWrite(flats[inst.fileId], inst.offset, buf)]
       && (Dense(flats'[inst.fileId], stat.size + |buf|) <==>
             Dense(flats[inst.fileId], stat.size) && inst.offset == stat.size)
       && s'.files == s.files[inst.fileId := stat.(size := stat.size + |buf|)]
       && s'.cursors == if inst.client == client then s.cursors[fd := inst.(offset := inst.offset + |buf|)]
                        else s.cursors
  }

  lemma FragmentsInBuffer(at: nat, buf: seq<byte>, z: Sizes)
    requires Positive(z)
    ensures AllInBuffer(Fragments(at, |buf|, z.stripeSize, z.chunkSize), buf)
  {
    hide Fragments;
    FragmentsCut(at, |buf|, z.stripeSize, z.chunkSize);
    TilesInBuffer(Fragments(at, |buf|, z.stripeSize, z.chunkSize), 0, |buf|, buf);
  }

  lemma AfterFinish(before: Snapshot, begun: Snapshot, w: Writing, at: nat, z: Sizes, sent: Snapshot)
    requires Open(before, w) && Positive(z) && w.ctx.buf != []
    requires var fs := Fragments(at, |w.ctx.buf|, z.stripeSize, z.chunkSize);
             && begun == before.(ledger := before.ledger[w.ctx.request := Entry(w.client, w.fd, 0, 0, 0, 0, false)])
             && AllInBuffer(fs, w.ctx.buf)
             && sent == AfterFragments(begun, w, fs, |w.ctx.buf|)
    ensures var r, n := w.ctx.request, |Fragments(at, |w.ctx.buf|, z.stripeSize, z.chunkSize)|;
            && r in sent.ledger && !sent.ledger[r].finished
            && sent.ledger[r].issued == sent.ledger[r].replicasIssued == n > 0
            && sent.(ledger := sent.ledger[r := sent.ledger[r].(finished := true)]) == AfterWrite(before, w, at, z)
  {
    hide Fragments, IssueWrites, FirstUnit;
    FragmentsTotal(at, |w.ctx.buf|, z);
  }

  /** A write keeps what the server promises, and says when it keeps the size exact. */
  lemma WriteKeepsPromises(s: Snapshot, w: Writing, at: nat, flats: Flats, nextFileId: nat)
    requires AllStored(s.io, s.files, flats) && CursorsInside(s.cursors, s.files, nextFileId) && w.ctx.buf != []
    requires SentBefore(s.io.sent, nextFileId)
    requires Open(s, w) && s.cursors[w.fd].offset == at
    ensures var id := w.ctx.fileId;
            && id in flats && Positive(SizesOf(s.files[id]))
            && var s', flat' := AfterWrite(s, w, at, SizesOf(s.files[id])), FlatWrite(flats[id], at, w.ctx.buf);
               && AllStored(s'.io, s'.files, flats[id := flat'])
               && CursorsInside(s'.cursors, s'.files, nextFileId) && SentBefore(s'.io.sent, nextFileId)
               && (Dense(flat', s.files[id].size + |w.ctx.buf|) <==>
                   Dense(flats[id], s.files[id].size) && at == s.files[id].size)
  {
    hide AllStored, IssueWrites, Fragments, FlatWrite, Dense, Below, Advanced, Longer, LostCopies, SentBefore;
    var id := w.ctx.fileId;
    assert id <= nextFileId;
    hide CursorsInside;
    var z := SizesOf(s.files[id]);
    StoredSizes(s.io, s.files, flats, id);
    StoredBelow(s.io, s.files, flats, id);
    SizeExactIffAppended(flats[id], s.files[id].size, at, w.ctx.buf);
    FragmentsInBuffer(at, w.ctx.buf, z);
    WriteKeepsAll(s.io, s.files, flats, at, w.ctx, Fragments(at, |w.ctx.buf|, z.stripeSize, z.chunkSize));
    WritesSentBefore(s.io, Fragments(at, |w.ctx.buf|, z.stripeSize, z.chunkSize), w.ctx, nextFileId);
    LongerKeepsCursors(s.cursors, s.files, nextFileId, w.fd, w.client, |w.ctx.buf|);
  }

  lemma NoFragmentsYet(s: Snapshot, w: Writing)
    requires MayWrite(s, w)
    ensures AllInBuffer([], w.ctx.buf) && AfterFragments(s, w, [], 0) == s
  {
  }

  lemma StillMayWrite(s: Snapshot, w: Writing, fs: seq<Fragment>, n: nat)
    requires MayWrite(s, w) && AllInBuffer(fs, w.ctx.buf)
    ensures MayWrite(AfterFragments(s, w, fs, n), w)
  {
  }

  lemma MoreFragments(s: Snapshot, w: Writing, fs: seq<Fragment>, n: nat, more: seq<Fragment>, m: nat)
    requires MayWrite(s, w) && AllInBuffer(fs, w.ctx.buf) && AllInBuffer(more, w.ctx.buf)
    ensures AllInBuffer(fs + more, w.ctx.buf)
    ensures MayWrite(AfterFragments(s, w, fs, n), w)
    ensures AfterFragments(AfterFragments(s, w, fs, n), w, more, m) == AfterFragments(s, w, fs + more, n + m)
  {
    hide IssueWrites, CountFragments, LostCopies;
    StillMayWrite(s, w, fs, n);
    IssueWritesConcat(s.io, fs, more, w.ctx);
    LostCopiesConcat(s.io, fs, more, w.ctx);
    CountFragmentsConcat(s.ledger, w.ctx.request, fs, LostCopies(s.io, fs, w.ctx), more,
                         LostCopies(IssueWrites(s.io, fs, w.ctx), more, w.ctx));
  }

  // ---------------------------------------------------------------------------
  // The stripes of a read
  // ---------------------------------------------------------------------------

  /** The cursors after `client` has moved `n` bytes through descriptor `fd`, but not past the end
      of the file, which is at `size`. */
  function Clamped(cursors: map<nat, FileInstance>, fd: nat, client: Client, n: nat, size: nat)
      : map<nat, FileInstance> {
    if fd in cursors && cursors[fd].client == client then
      var offset := cursors[fd].offset + n;
      cursors[fd := cursors[fd].(offset := if offset > size then size else offset)]
    else cursors
  }

  lemma ClampedTwice(cursors: map<nat, FileInstance>, fd: nat, client: Client, n: nat, m: nat, size: nat)
    ensures Clamped(Clamped(cursors, fd, client, n, size), fd, client, m, size)
            == Clamped(cursors, fd, client, n + m, size)
  {
  }

  lemma ClampedOpen(cursors: map<nat, FileInstance>, fd: nat, client: Client, n: nat, size: nat)
    requires fd in cursors
    ensures var cursors' := Clamped(cursors, fd, client, n, size);
            fd in cursors' && cursors'[fd].fileId == cursors[fd].fileId
  {
  }

  lemma ClampedNone(cursors: map<nat, FileInstance>, fd: nat, client: Client, size: nat)
    requires fd in cursors && cursors[fd].offset <= size
    ensures Clamped(cursors, fd, client, 0, size) == cursors
  {
  }

  lemma ClampedInside(cursors: map<nat, FileInstance>, files: map<int, FileInfo>, nextFileId: nat, fd: nat,
                      client: Client, n: nat)
    requires CursorsInside(cursors, files, nextFileId) && fd in cursors && cursors[fd].fileId in files
    ensures CursorsInside(Clamped(cursors, fd, client, n, files[cursors[fd].fileId].size), files, nextFileId)
  {
  }

  /** The read of the first `n` bytes of a request has asked for the fragments `asked`, and `pieces`
      are what the nodes answer; the next stripe is `stripeId`. */
  ghost predicate ReadUpTo(io: IoState, now: IoState, l: map<nat, ReadEntry>, l': map<nat, ReadEntry>,
                           requestId: nat, fileId: int, stripeId: nat, stripeOffset: nat, n: nat, count: nat,
                           z: Sizes, offset: nat, asked: seq<Fragment>, pieces: seq<Response>) {
    && Positive(z) && stripeOffset <= z.stripeSize && n <= count
    && ReadProgress(io, now, l, l', requestId, fileId, stripeId, 0, asked, pieces)
    && Asked(io.nodes, fileId, offset, count, z)
       == asked + AskedFrom(io.nodes, fileId, stripeId, stripeOffset, n, count - n, z)
  }

  lemma ReadStarts(io: IoState, l: map<nat, ReadEntry>, requestId: nat, fileId: int, stripeId: nat, stripeOffset: nat,
                   count: nat, z: Sizes, offset: nat)
    requires Positive(z) && (stripeId, stripeOffset) == FirstUnit(offset, z.stripeSize)
    requires requestId in l && !l[requestId].finished && l[requestId].issued == []
    ensures ReadUpTo(io, io, l, l, requestId, fileId, stripeId, stripeOffset, 0, count, z, offset, [], [])
  {
  }

  lemma StripeIdOf(stripeId: nat, stripeOffset: nat, start: nat, count: nat, chunkSize: nat)
    requires 0 < chunkSize
    ensures forall f :: f in StripeFragments(stripeId, stripeOffset, start, count, chunkSize) ==> f.stripeId == stripeId
  {
    var (chunkId, chunkOffset) := FirstUnit(stripeOffset, chunkSize);
    ChunkStripeIds(stripeId, chunkId, chunkOffset, start, count, chunkSize);
  }

  lemma {:induction false} ChunkStripeIds(stripeId: nat, chunkId: nat, chunkOffset: nat, start: nat, count: nat,
                                          chunkSize: nat)
    requires 0 < chunkSize && chunkOffset <= chunkSize
    ensures forall f :: f in ChunkFragments(stripeId, chunkId, chunkOffset, start, count, chunkSize) ==>
              f.stripeId == stripeId
    decreases count, chunkOffset
  {
    if count != 0 {
      var size := if count > chunkSize - chunkOffset then chunkSize - chunkOffset else count;
      ChunkStripeIds(stripeId, chunkId + 1, 0, start + size, count - size, chunkSize);
    }
  }

  /** The chunks come in the order of their numbers. */
  ghost predicate InChunkOrder(fs: seq<Fragment>) {
    forall i, j :: 0 <= i < j < |fs| ==> fs[i].chunkId < fs[j].chunkId
  }

  lemma {:induction false} ChunksInOrder(stripeId: nat, chunkId: nat, chunkOffset: nat, start: nat, count: nat,
                                         chunkSize: nat)
    requires 0 < chunkSize && chunkOffset <= chunkSize
    ensures var fs := ChunkFragments(stripeId, chunkId, chunkOffset, start, count, chunkSize);
            InChunkOrder(fs) && forall f :: f in fs ==> chunkId <= f.chunkId
    decreases count, chunkOffset
  {
    if count != 0 {
      var size := if count > chunkSize - chunkOffset then chunkSize - chunkOffset else count;
      ChunksInOrder(stripeId, chunkId + 1, 0, start + size, count - size, chunkSize);
    }
  }

  /** All chunks of the same stripe up to the one of the fragment exist. */
  ghost predicate AllThereUpTo(nodes: map<FileChunk, int>, fileId: int, fs: seq<Fragment>, f: Fragment) {
    forall g :: g in fs && g.stripeId == f.stripeId && g.chunkId <= f.chunkId ==>
      FileChunk(fileId, g.stripeId, g.chunkId) in nodes
  }

  lemma PresentExactly(nodes: map<FileChunk, int>, fileId: int, fs: seq<Fragment>, stripeId: nat)
    requires InChunkOrder(fs) && forall f :: f in fs ==> f.stripeId == stripeId
    ensures forall f :: f in Present(nodes, fileId, fs) <==> f in fs && AllThereUpTo(nodes, fileId, fs, f)
  {
    hide Present, AllThereUpTo;
    PresentIsPrefix(nodes, fileId, fs);
    var asked := Present(nodes, fileId, fs);
    forall i | 0 <= i < |fs| ensures i < |asked| <==> AllThereUpTo(nodes, fileId, fs, fs[i]) {
      IsThereUpTo(nodes, fileId, fs, stripeId, |asked|, i);
    }
    forall f ensures f in asked <==> f in fs && AllThereUpTo(nodes, fileId, fs, f) {
      if f in asked {
        var i :| 0 <= i < |asked| && asked[i] == f;
        assert fs[i] == f;
      }
      if f in fs && AllThereUpTo(nodes, fileId, fs, f) {
        var i :| 0 <= i < |fs| && fs[i] == f;
        assert asked[i] == f;
      }
    }
  }

  lemma IsThereUpTo(nodes: map<FileChunk, int>, fileId: int, fs: seq<Fragment>, stripeId: nat, n: nat, i: nat)
    requires InChunkOrder(fs) && (forall f :: f in fs ==> f.stripeId == stripeId) && n <= |fs| && i < |fs|
    requires forall j :: 0 <= j < n ==> FileChunk(fileId, fs[j].stripeId, fs[j].chunkId) in nodes
    requires n < |fs| ==> FileChunk(fileId, fs[n].stripeId, fs[n].chunkId) !in nodes
    ensures i < n <==> AllThereUpTo(nodes, fileId, fs, fs[i])
  {
    if i < n {
      forall g | g in fs && g.chunkId <= fs[i].chunkId ensures FileChunk(fileId, g.stripeId, g.chunkId) in nodes {
        var j :| 0 <= j < |fs| && fs[j] == g;
      }
    } else {
      assert fs[n] in fs && fs[n].chunkId <= fs[i].chunkId;
    }
  }

  lemma {:induction false} LaterStripes(stripeId: nat, stripeOffset: nat, start: nat, count: nat, z: Sizes)
    requires Positive(z) && stripeOffset <= z.stripeSize
    ensures forall f :: f in FileFragments(stripeId, stripeOffset, start, count, z.stripeSize, z.chunkSize) ==>
              stripeId <= f.stripeId
    decreases count, stripeOffset
  {
    hide StripeFragments;
    if count != 0 {
      var size := if count > z.stripeSize - stripeOffset then z.stripeSize - stripeOffset else count;
      StripeIdOf(stripeId, stripeOffset, start, size, z.chunkSize);
      LaterStripes(stripeId + 1, 0, start + size, count - size, z);
    }
  }

  lemma {:induction false} AskedFromAre(nodes: map<FileChunk, int>, fileId: int, stripeId: nat, stripeOffset: nat,
                                        start: nat, count: nat, z: Sizes)
    requires Positive(z) && stripeOffset <= z.stripeSize
    ensures var fs := FileFragments(stripeId, stripeOffset, start, count, z.stripeSize, z.chunkSize);
            forall f :: f in AskedFrom(nodes, fileId, stripeId, stripeOffset, start, count, z) <==>
              f in fs && AllThereUpTo(nodes, fileId, fs, f)
    decreases count, stripeOffset
  {
    hide StripeFragments, Present;
    FirstStripe(nodes, fileId, stripeId, stripeOffset, start, count, z);
    if count != 0 {
      var size := if count > z.stripeSize - stripeOffset then z.stripeSize - stripeOffset else count;
      var first := StripeFragments(stripeId, stripeOffset, start, size, z.chunkSize);
      var rest := FileFragments(stripeId + 1, 0, start + size, count - size, z.stripeSize, z.chunkSize);
      StripeIdOf(stripeId, stripeOffset, start, size, z.chunkSize);
      LaterStripes(stripeId + 1, 0, start + size, count - size, z);
      StripeInOrder(stripeId, stripeOffset, start, size, z.chunkSize);
      PresentExactly(nodes, fileId, first, stripeId);
      AskedFromAre(nodes, fileId, stripeId + 1, 0, start + size, count - size, z);
      hide FileFragments, AskedFrom;
      TwoStripeParts(nodes, fileId, first, rest, stripeId);
    }
  }

  lemma StripeInOrder(stripeId: nat, stripeOffset: nat, start: nat, count: nat, chunkSize: nat)
    requires 0 < chunkSize
    ensures InChunkOrder(StripeFragments(stripeId, stripeOffset, start, count, chunkSize))
  {
    var (chunkId, chunkOffset) := FirstUnit(stripeOffset, chunkSize);
    ChunksInOrder(stripeId, chunkId, chunkOffset, start, count, chunkSize);
  }

  lemma TwoStripeParts(nodes: map<FileChunk, int>, fileId: int, first: seq<Fragment>, rest: seq<Fragment>,
                       stripeId: nat)
    requires forall f :: f in first ==> f.stripeId == stripeId
    requires forall f :: f in rest ==> stripeId < f.stripeId
    ensures forall f :: f in first ==>
              (AllThereUpTo(nodes, fileId, first + rest, f) <==> AllThereUpTo(nodes, fileId, first, f))
    ensures forall f :: f in rest ==>
              (AllThereUpTo(nodes, fileId, first + rest, f) <==> AllThereUpTo(nodes, fileId, rest, f))
  {
  }

  /** What a read asks for: the fragments of its range for which all chunks of the range before them in their
      stripe, and their own, exist. */
  lemma AskedAre(nodes: map<FileChunk, int>, fileId: int, offset: nat, count: nat, z: Sizes)
    requires Positive(z)
    ensures var fs := Fragments(offset, count, z.stripeSize, z.chunkSize);
            forall f :: f in Asked(nodes, fileId, offset, count, z) <==>
              f in fs && AllThereUpTo(nodes, fileId, fs, f)
  {
    var (stripeId, stripeOffset) := FirstUnit(offset, z.stripeSize);
    AskedFromAre(nodes, fileId, stripeId, stripeOffset, 0, count, z);
  }

  lemma {:induction false} PresentAre(nodes: map<FileChunk, int>, fileId: int, fs: seq<Fragment>)
    ensures AllPresent(nodes, fileId, Present(nodes, fileId, fs))
    ensures forall f :: f in Present(nodes, fileId, fs) ==> f in fs
  {
    if fs != [] {
      PresentAre(nodes, fileId, fs[1..]);
    }
  }

  /** Answers to later fragments are answers in the state at the beginning, which reads do not change. */
  lemma ServesAllMore(io: IoState, mid: IoState, fileId: int, asked: seq<Fragment>, pieces: seq<Response>,
                      now: seq<Fragment>, more: seq<Response>)
    requires ServesAll(io, fileId, asked, pieces) && |pieces| == |asked| && OnlyReads(io, mid)
    requires ServesAll(mid, fileId, now, more) && |more| == |now|
    ensures ServesAll(io, fileId, asked + now, pieces + more)
  {
    hide Serves, OnlyReads;
    forall i | 0 <= i < |pieces + more| ensures Serves(io, fileId, (asked + now)[i], (pieces + more)[i]) {
      if |pieces| <= i {
        assert Serves(mid, fileId, now[i - |pieces|], more[i - |pieces|]);
        ServesBeforeReads(io, mid, fileId, now[i - |pieces|], more[i - |pieces|]);
      }
    }
  }

  /** Whatever was asked for up to the end of one stripe comes before the chunks of the next. */
  lemma BeforeNextStripe(issued: seq<Response>, more: seq<Response>, io: IoState, fileId: int, stripeId: nat,
                         now: seq<Fragment>, next: nat)
    requires AllBefore(issued, FileChunk(fileId, stripeId, 0))
    requires ServesAll(io, fileId, now, more) && |more| == |now| && forall f :: f in now ==> f.stripeId == stripeId
    ensures AllBefore(issued + more, FileChunk(fileId, stripeId + 1, next))
  {
  }

  lemma AllBeforeNextStripe(io: IoState, l: map<nat, ReadEntry>, l': map<nat, ReadEntry>, requestId: nat, fileId: int,
                            stripeId: nat, nextId: nat, more: seq<Response>, now: seq<Fragment>)
    requires requestId in l && requestId in l' && PiecesIssued(l, l', requestId, more) && nextId == stripeId + 1
    requires AllBefore(l[requestId].issued, FileChunk(fileId, stripeId, 0))
    requires ServesAll(io, fileId, now, more) && |more| == |now| && forall f :: f in now ==> f.stripeId == stripeId
    ensures forall next :: AllBefore(l'[requestId].issued, FileChunk(fileId, nextId, next))
  {
    hide AllBefore, ServesAll;
    forall next ensures AllBefore(l'[requestId].issued, FileChunk(fileId, nextId, next)) {
      BeforeNextStripe(l[requestId].issued, more, io, fileId, stripeId, now, next);
    }
  }

  /** One more stripe is read. */
  lemma ReadStripeStep(io: IoState, mid: IoState, end: IoState, l: map<nat, ReadEntry>,
                       l': map<nat, ReadEntry>, l'': map<nat, ReadEntry>, requestId: nat, fileId: int, stripeId: nat,
                       stripeOffset: nat, n: nat, count: nat, z: Sizes, offset: nat, asked: seq<Fragment>,
                       pieces: seq<Response>, size: nat, more: seq<Response>)
    requires ReadUpTo(io, mid, l, l', requestId, fileId, stripeId, stripeOffset, n, count, z, offset, asked, pieces)
             && n < count
    requires size == if count - n > z.stripeSize - stripeOffset then z.stripeSize - stripeOffset else count - n
    requires OnlyReads(mid, end) && PiecesIssued(l', l'', requestId, more)
    requires var now := Present(io.nodes, fileId, StripeFragments(stripeId, stripeOffset, n, size, z.chunkSize));
             |more| == |now| && ServesAll(mid, fileId, now, more)
    ensures ReadUpTo(io, end, l, l'', requestId, fileId, stripeId + 1, 0, n + size, count, z, offset,
                     asked
                     + Present(io.nodes, fileId, StripeFragments(stripeId, stripeOffset, n, size, z.chunkSize)),
                     pieces + more)
  {
    hide ServesAll, OnlyReads, AllBefore, Asked, AskedFrom, StripeFragments, Present;
    var first := StripeFragments(stripeId, stripeOffset, n, size, z.chunkSize);
    var now := Present(io.nodes, fileId, first);
    PresentAre(io.nodes, fileId, first);
    StripeIdOf(stripeId, stripeOffset, n, size, z.chunkSize);
    FirstStripe(io.nodes, fileId, stripeId, stripeOffset, n, count - n, z);
    ServesAllMore(io, mid, fileId, asked, pieces, now, more);
    OnlyReadsTrans(io, mid, end);
    PiecesIssuedTrans(l, l', l'', requestId, pieces, more);
    AllBeforeNextStripe(mid, l', l'', requestId, fileId, stripeId, stripeId + 1, more, now);
    hide PiecesIssued;
  }

  lemma ReadUpToNow(io: IoState, now: IoState, l: map<nat, ReadEntry>, l': map<nat, ReadEntry>, requestId: nat,
                    fileId: int, stripeId: nat, stripeOffset: nat, n: nat, count: nat, z: Sizes, offset: nat,
                    asked: seq<Fragment>, pieces: seq<Response>)
    requires ReadUpTo(io, now, l, l', requestId, fileId, stripeId, stripeOffset, n, count, z, offset, asked, pieces)
    ensures requestId in l' && !l'[requestId].finished
    ensures forall chunkId :: AllBefore(l'[requestId].issued, FileChunk(fileId, stripeId, chunkId))
    ensures Positive(z) && stripeOffset <= z.stripeSize
    ensures n < count ==>
              var size := if count - n > z.stripeSize - stripeOffset then z.stripeSize - stripeOffset else count - n;
              var stripe := StripeFragments(stripeId, stripeOffset, n, size, z.chunkSize);
              forall f :: f in Present(io.nodes, fileId, stripe) ==> f in Asked(io.nodes, fileId, offset, count, z)
  {
    hide StripeFragments, Present, Asked, AllBefore;
    FirstStripe(io.nodes, fileId, stripeId, stripeOffset, n, count - n, z);
  }

  lemma ReadEnds(io: IoState, now: IoState, l: map<nat, ReadEntry>, l': map<nat, ReadEntry>, requestId: nat,
                 fileId: int, stripeId: nat, stripeOffset: nat, count: nat, z: Sizes, offset: nat,
                 asked: seq<Fragment>, pieces: seq<Response>)
    requires ReadUpTo(io, now, l, l', requestId, fileId, stripeId, stripeOffset, count, count, z, offset, asked,
                      pieces)
    ensures Positive(z) && asked == Asked(io.nodes, fileId, offset, count, z)
    ensures OnlyReads(io, now) && ServesAll(io, fileId, asked, pieces)
            && PiecesIssued(l, l', requestId, pieces)
  {
  }

  lemma IdOfEntry(byName: map<string, int>, byId: map<int, FileInfo>, id: int)
    requires MutuallyInverse(byName, byId) && id in byId
    ensures byId[id].fileId == id
  {
  }

  /** A read was sent: the nodes answer the fragments `asked`, and when these are any, the request
      only waits for the answers. Of other requests at most answers have arrived. */
  ghost predicate ReadSent(io: IoState, l: map<nat, ReadEntry>, l': map<nat, ReadEntry>, requestId: nat, fd: nat,
                           client: Client, fileId: int, asked: seq<Fragment>) {
    && requestId in l'
    && l'[requestId].client == client && l'[requestId].fd == fd
    && |l'[requestId].issued| == |asked| && ServesAll(io, fileId, asked, l'[requestId].issued)
    && (l'[requestId].finished <==> asked != [])
    && (forall x :: x in l && x != requestId ==> x in l' && l'[x] == l[x].(arrived := l'[x].arrived))
  }

  lemma ReadIsSent(io: IoState, l: map<nat, ReadEntry>, l': map<nat, ReadEntry>, l'': map<nat, ReadEntry>,
                   requestId: nat, fd: nat, client: Client, fileId: int, asked: seq<Fragment>, pieces: seq<Response>)
    requires l' == l[requestId := ReadEntry(client, fd, [], [], false)]
    requires PiecesIssued(l', l'', requestId, pieces) && ServesAll(io, fileId, asked, pieces) && |pieces| == |asked|
    ensures requestId in l'' && !l''[requestId].finished && |l''[requestId].issued| == |asked|
    ensures asked == [] ==> ReadSent(io, l, l'', requestId, fd, client, fileId, asked)
    ensures asked != [] ==>
              ReadSent(io, l, l''[requestId := l''[requestId].(finished := true)], requestId, fd, client, fileId, asked)
  {
    hide ServesAll;
    assert l''[requestId].issued == pieces;
  }

  lemma ReadsKeepAll(io: IoState, io': IoState, files: map<int, FileInfo>, flats: Flats, last: int)
    requires AllStored(io, files, flats) && SentBefore(io.sent, last) && OnlyReads(io, io')
    ensures AllStored(io', files, flats) && SentBefore(io'.sent, last)
  {
    hide StoresFile, HarmlessLog, Held, SentInside, SentBefore;
    ReadsHarmless(io.sent, io'.sent);
    ReadsHeld(io, io');
    StillSentBefore(io.sent, io'.sent, last, last);
    assert NoWritesSince(io.sent, io'.sent);
    hide OnlyReads, NoWritesSince;
    forall id | id in files ensures FileStored(io', id, files[id], flats[id]) {
      assert FileStored(io, id, files[id], flats[id]);
      ReadsKeepFile(io, io', id, flats[id], SizesOf(files[id]));
      StillSentInside(io.sent, io'.sent, id, files[id].size, SizesOf(files[id]));
    }
  }

  /** It makes no difference which nodes are up or can be reached. */
  lemma AllStoredAnyway(io: IoState, io': IoState, files: map<int, FileInfo>, flats: Flats)
    requires AllStored(io, files, flats) && io' == io.(up := io'.up, reachable := io'.reachable)
    ensures AllStored(io', files, flats)
  {
    hide StoresFile, HarmlessLog, Held, SentInside;
    StoredAnyway(io, io', 0, map[], Sizes(1, 1));
    forall id | id in files ensures FileStored(io', id, files[id], flats[id]) {
      assert FileStored(io, id, files[id], flats[id]);
      StoredAnyway(io, io', id, flats[id], SizesOf(files[id]));
    }
  }

  /** If the range was written before, up to where the request or the file ends, the pieces that the request
      waits for are its bytes up to there, and when all have arrived it is answered. */
  ghost predicate KnownIsRead(flat: Flat, size: nat, offset: nat, count: nat, l: map<nat, ReadEntry>, requestId: nat) {
    offset < size && 0 < count && RangeKnown(flat, offset, Min(offset + count, size)) ==>
      && requestId in l
      && l[requestId].finished
      && Joined(l[requestId].issued) == FlatBytes(flat, offset, Min(offset + count, size))
  }

  lemma KnownRangeAnswered(io: IoState, files: map<int, FileInfo>, flats: Flats, l: map<nat, ReadEntry>,
                           l': map<nat, ReadEntry>, requestId: nat, fd: nat, client: Client, fileId: int, offset: nat,
                           count: nat)
    requires AllStored(io, files, flats) && fileId in files && Positive(SizesOf(files[fileId])) && fileId in flats
    requires ReadSent(io, l, l', requestId, fd, client, fileId,
                      Asked(io.nodes, fileId, offset, count, SizesOf(files[fileId])))
    requires AllFresh(io, fileId, RangeOf(files[fileId], offset, count))
    ensures KnownIsRead(flats[fileId], files[fileId].size, offset, count, l', requestId)
  {
    hide Asked, ServesAll, StoresFile, Joined, FlatBytes, Fragments, AllFresh, SentInside, Held;
    assert FileStored(io, fileId, files[fileId], flats[fileId]);
    var size := files[fileId].size;
    if offset < size && 0 < count && RangeKnown(flats[fileId], offset, Min(offset + count, size)) {
      KnownRangeIsRead(io, fileId, flats[fileId], offset, count, size, SizesOf(files[fileId]), l'[requestId].issued);
    }
  }

  lemma CursorInside(cursors: map<nat, FileInstance>, files: map<int, FileInfo>, nextFileId: nat, fd: nat)
    requires CursorsInside(cursors, files, nextFileId) && fd in cursors && cursors[fd].fileId in files
    ensures cursors[fd].offset <= files[cursors[fd].fileId].size
  {
  }

  // ---------------------------------------------------------------------------
  // Files that come and go
  // ---------------------------------------------------------------------------

  /** A new file has no bytes yet. */
  lemma NewFileStored(io: IoState, files: map<int, FileInfo>, flats: Flats, info: FileInfo)
    requires AllStored(io, files, flats) && Positive(SizesOf(info)) && SentBefore(io.sent, info.fileId - 1)
    ensures AllStored(io, files[info.fileId := info], flats[info.fileId := map[]])
  {
    hide Held, HarmlessLog, Separated, StoresByte;
  }

  /** These files and what is known of their bytes are kept, and new files are empty. */
  ghost predicate FilesKept(files: map<int, FileInfo>, files': map<int, FileInfo>, flats: Flats, flats': Flats) {
    && (forall id :: id in files ==>
          id in files' && files'[id] == files[id] && id in flats && id in flats' && flats'[id] == flats[id])
    && (forall id :: id in files' && id !in files ==> id in flats' && flats'[id] == map[] && files'[id].size == 0)
  }

  /** New files have ids above all that were given out. */
  ghost predicate NewIds(files: map<int, FileInfo>, files': map<int, FileInfo>, nextFileId: nat, nextFileId': nat) {
    nextFileId <= nextFileId' && forall id :: id in files' && id !in files ==> nextFileId < id <= nextFileId'
  }

  lemma NothingLost(io: IoState, files: map<int, FileInfo>, flats: Flats)
    requires AllStored(io, files, flats)
    ensures FilesKept(files, files, flats, flats)
  {
  }

  lemma NothingLostByNew(io: IoState, files: map<int, FileInfo>, flats: Flats, info: FileInfo)
    requires AllStored(io, files, flats) && info.fileId !in files && info.size == 0
    ensures FilesKept(files, files[info.fileId := info], flats, flats[info.fileId := map[]])
  {
  }

  lemma EmptyFileStored(io: IoState, id: int, z: Sizes)
    requires Positive(z)
    ensures StoresFile(io, id, map[], z)
  {
  }

  lemma NewFileCursors(cursors: map<nat, FileInstance>, files: map<int, FileInfo>, nextFileId: nat, info: FileInfo,
                       nextFileId': nat)
    requires CursorsInside(cursors, files, nextFileId) && info.fileId == nextFileId' > nextFileId
    ensures CursorsInside(cursors, files[info.fileId := info], nextFileId')
  {
  }

  /** Files that are gone are not missed. */
  lemma FewerFiles(io: IoState, files: map<int, FileInfo>, flats: Flats, cursors: map<nat, FileInstance>,
                   nextFileId: nat, gone: set<int>)
    requires AllStored(io, files, flats) && CursorsInside(cursors, files, nextFileId)
    ensures AllStored(io, files - gone, flats) && CursorsInside(cursors, files - gone, nextFileId)
  {
  }

  /** When the chunks of a file are deleted nothing is known of its bytes any more, and the bytes of
      all other files are kept. */
  lemma DeletesKeepAll(io: IoState, chunks: seq<FileChunk>, id: nat, deleted: int,
                       files: map<int, FileInfo>, flats: Flats)
    requires AllStored(io, files, flats) && forall c :: c in chunks ==> c.fileId == deleted
    ensures AllStored(DeleteChunks(io, chunks, id), files, flats[deleted := map[]])
  {
    hide StoresFile, DeleteChunks, HarmlessLog, Held, SentInside, NoWritesSince;
    PlacedAfterDelete(io, chunks, id);
    DeletesHarmless(io, chunks, id);
    DeletesHeld(io, chunks, id);
    DeletesAreNoWrites(io, chunks, id);
    hide Separated;
    var io', flats' := DeleteChunks(io, chunks, id), flats[deleted := map[]];
    forall x | x in files ensures FileStored(io', x, files[x], flats'[x]) {
      assert FileStored(io, x, files[x], flats[x]);
      StillSentInside(io.sent, io'.sent, x, files[x].size, SizesOf(files[x]));
      if x == deleted {
        EmptyFileStored(io', x, SizesOf(files[x]));
      } else {
        DeletesKeepFile(io, chunks, id, deleted, x, flats[x], SizesOf(files[x]));
      }
    }
  }

  lemma FilesOfChunks(chunks: seq<FileChunk>, table: map<FileChunk, int>, fileId: int)
    requires ChunksOfFile(chunks, table, fileId)
    ensures forall c :: c in chunks ==> c.fileId == fileId
  {
  }

  /** The tables still lead primaries to the primary nodes and replicas to the replica nodes. */
  lemma PlacedAfterDelete(io: IoState, chunks: seq<FileChunk>, id: nat)
    requires Separated(io)
    ensures Separated(DeleteChunks(io, chunks, id))
  {
  }

  lemma FilesGone(t: DeleteTables, t': DeleteTables, files: map<int, FileInfo>, files': map<int, FileInfo>,
                  locks: map<int, FileLock>, locks': map<int, FileLock>)
    returns (gone: set<int>)
    requires OnlyDeletesSince(t, t', files, files', locks, locks')
    ensures files' == files - gone
  {
    gone := FilesOf(t'.results[|t.results|..]);
  }
}
