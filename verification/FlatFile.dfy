/** A file is a flat array of bytes, however it is cut up and wherever its chunks are kept. */
module FlatFile {
  import opened EspressoStorage
  import opened EspressoRuns
  import opened Nodes
  import opened Acknowledgements
  import opened Striping
  import opened FileChunks
  import opened VolatileMetadata
  import opened ReadRequests
  import opened IoManager

  /** The bytes of a file that were ever written, by position. */
  type Flat = map<nat, byte>

  function FlatWrite(flat: Flat, base: nat, buf: seq<byte>): Flat {
    flat + map p | base <= p < base + |buf| :: ByteAt(base, buf, p)
  }

  /** Where the sizes of a file come from: they are fixed when it is created. */
  datatype Sizes = Sizes(stripeSize: nat, chunkSize: nat)

  ghost predicate Positive(z: Sizes) {
    0 < z.stripeSize && 0 < z.chunkSize
  }

  // ---------------------------------------------------------------------------
  // What it means that a file is stored
  // ---------------------------------------------------------------------------

  /** The copy of chunk `c` that `table` leads to holds byte `b` at `offset`. */
  ghost predicate CopyHas(table: map<FileChunk, int>, sent: seq<Packet>, c: FileChunk, offset: nat, b: byte) {
    && c in table
    && var s := NodeState(sent, table[c]);
       && DescriptorOf(c) in s
       && offset < s[DescriptorOf(c)].len
       && offset in s[DescriptorOf(c)].known
       && s[DescriptorOf(c)].known[offset] == b
  }

  /** The copy of chunk `c` that `table` leads to is at least `n` bytes long. */
  ghost predicate CopyReaches(table: map<FileChunk, int>, sent: seq<Packet>, c: FileChunk, n: nat) {
    && c in table
    && var s := NodeState(sent, table[c]);
       DescriptorOf(c) in s && n <= s[DescriptorOf(c)].len
  }

  /** Both copies hold the byte, unless the replica has missed a write to the chunk. */
  ghost predicate CopiesHave(io: IoState, c: FileChunk, offset: nat, b: byte) {
    && CopyHas(io.nodes, io.sent, c, offset, b)
    && c in io.replicas && (c in io.stale || CopyHas(io.replicas, io.sent, c, offset, b))
  }

  ghost predicate CopiesReach(io: IoState, c: FileChunk, n: nat) {
    && CopyReaches(io.nodes, io.sent, c, n)
    && c in io.replicas && (c in io.stale || CopyReaches(io.replicas, io.sent, c, n))
  }

  /** Byte `b` at position `p` of the file is where the layout says, on both copies. When `p` starts a chunk
      in the middle of a stripe, the chunk before it is there as well and has its full length: a
      read that begins at `p` will ask it for no bytes. */
  ghost predicate StoresByte(io: IoState, fileId: int, p: nat, b: byte, z: Sizes)
    requires Positive(z)
  {
    var place := Locate(p, z.stripeSize, z.chunkSize);
    && CopiesHave(io, FileChunk(fileId, place.stripeId, place.chunkId), place.offset, b)
    && (place.offset == 0 && 1 < place.chunkId ==>
          CopiesReach(io, FileChunk(fileId, place.stripeId, place.chunkId - 1), z.chunkSize))
  }

  ghost predicate StoresFile(io: IoState, fileId: int, flat: Flat, z: Sizes)
    requires Positive(z)
  {
    forall p :: p in flat ==> StoresByte(io, fileId, p, flat[p], z)
  }

  // ---------------------------------------------------------------------------
  // Writing one fragment
  // ---------------------------------------------------------------------------

  function WriteApplied(s: AbstractStore, d: Descriptor, offset: nat, bytes: seq<byte>): AbstractStore {
    s[d := WriteTo(if d in s then s[d] else Empty(), offset, bytes)]
  }

  /** A chunk may have been placed, and all other copies in the table are as they were. */
  ghost predicate OthersAsBefore(table: map<FileChunk, int>, table': map<FileChunk, int>, sent: seq<Packet>,
                                 sent': seq<Packet>, c: FileChunk) {
    && c in table' && table' == table[c := table'[c]] && (c in table ==> table'[c] == table[c])
    && forall x :: x in table && x != c ==>
         SameChunk(NodeState(sent, table[x]), NodeState(sent', table[x]), DescriptorOf(x))
  }

  ghost predicate SameChunk(s: AbstractStore, s': AbstractStore, d: Descriptor) {
    (d in s' <==> d in s) && (d in s ==> s'[d] == s[d])
  }

  /** A write has reached the copy of chunk `c`, and changed no other. */
  ghost predicate CopyWritten(table: map<FileChunk, int>, table': map<FileChunk, int>, sent: seq<Packet>,
                              sent': seq<Packet>, c: FileChunk, offset: nat, bytes: seq<byte>) {
    && OthersAsBefore(table, table', sent, sent', c)
    && var d, s, s' := DescriptorOf(c), NodeState(sent, table'[c]), NodeState(sent', table'[c]);
       d in s' && s'[d] == WriteTo(if d in s then s[d] else Empty(), offset, bytes)
  }

  /** The chunk holds what was written. */
  lemma CopyHoldsWritten(table: map<FileChunk, int>, table': map<FileChunk, int>, sent: seq<Packet>, sent': seq<Packet>,
                         c: FileChunk, offset: nat, bytes: seq<byte>, o: nat)
    requires CopyWritten(table, table', sent, sent', c, offset, bytes) && offset <= o < offset + |bytes|
    ensures CopyHas(table', sent', c, o, bytes[o - offset])
  {
  }

  /** The chunk reaches the end of what was written, also when that is nothing. */
  lemma CopyReachesWritten(table: map<FileChunk, int>, table': map<FileChunk, int>, sent: seq<Packet>,
                           sent': seq<Packet>, c: FileChunk, offset: nat, bytes: seq<byte>)
    requires CopyWritten(table, table', sent, sent', c, offset, bytes)
    ensures CopyReaches(table', sent', c, offset + |bytes|)
  {
  }

  /** Everything else that the copies hold is kept. */
  lemma CopyKept(table: map<FileChunk, int>, table': map<FileChunk, int>, sent: seq<Packet>, sent': seq<Packet>,
                 c: FileChunk, offset: nat, bytes: seq<byte>, x: FileChunk, o: nat, b: byte)
    requires (x != c && OthersAsBefore(table, table', sent, sent', c))
             || CopyWritten(table, table', sent, sent', c, offset, bytes)
    requires CopyHas(table, sent, x, o, b) && !(x == c && offset <= o < offset + |bytes|)
    ensures CopyHas(table', sent', x, o, b)
  {
    hide NodeState;
  }

  lemma CopyStillReaches(table: map<FileChunk, int>, table': map<FileChunk, int>, sent: seq<Packet>, sent': seq<Packet>,
                         c: FileChunk, offset: nat, bytes: seq<byte>, x: FileChunk, n: nat)
    requires (x != c && OthersAsBefore(table, table', sent, sent', c))
             || CopyWritten(table, table', sent, sent', c, offset, bytes)
    requires CopyReaches(table, sent, x, n)
    ensures CopyReaches(table', sent', x, n)
  {
    hide NodeState;
  }

  /** Two copies of a write go to different nodes. */
  lemma TwoCopies(sent: seq<Packet>, p: Packet, q: Packet, n: int)
    requires p.node != q.node && p.d == q.d && p.body == q.body && p.body.WriteBody?
    ensures NodeState(sent + [p] + [q], n)
            == if n == p.node || n == q.node then WriteApplied(NodeState(sent, n), p.d, p.body.offset, p.body.bytes)
               else NodeState(sent, n)
  {
  }

  lemma OneCopy(sent: seq<Packet>, p: Packet, n: int)
    requires p.body.WriteBody?
    ensures NodeState(sent + [p], n)
            == if n == p.node then WriteApplied(NodeState(sent, n), p.d, p.body.offset, p.body.bytes)
               else NodeState(sent, n)
  {
  }

  /** The nodes that a fragment is sent to. */
  function SentTo(io: IoState, c: FileChunk): set<int> {
    {PrimaryFor(io, c)} + if ReplicaFor(io, c) in io.reachable then {ReplicaFor(io, c)}
                          else if SubstituteFor(io, c) in io.reachable then {SubstituteFor(io, c)}
                          else {}
  }

  /** What the nodes store after a fragment write. */
  lemma NodesAfterWrite(io: IoState, f: Fragment, ctx: WriteContext, n: int)
    requires Separated(io) && InBuffer(f, ctx.buf)
    ensures var c, bytes := ChunkOfFragment(ctx.fileId, f), ctx.buf[f.start..f.start + f.size];
            NodeState(IssueWrite(io, f, ctx).sent, n)
            == if n in SentTo(io, c) then WriteApplied(NodeState(io.sent, n), DescriptorOf(c), f.offset, bytes)
               else NodeState(io.sent, n)
  {
    hide WriteTo, NodeState, WriteApplied, Apply, Without;
    var io', c := IssueWrite(io, f, ctx), ChunkOfFragment(ctx.fileId, f);
    var body := WriteBody(f.offset, ctx.buf[f.start..f.start + f.size]);
    var p := Packet(PrimaryFor(io, c), ctx.request.requestId, DescriptorOf(c), body);
    var q := Packet(ReplicaFor(io, c), ctx.request.replicaRequestId, DescriptorOf(c), body);
    if ReplicaFor(io, c) in io.reachable {
      TwoCopies(io.sent, p, q, n);
    } else if SubstituteFor(io, c) in io.reachable {
      TwoCopies(io.sent, p, q.(node := SubstituteFor(io, c)), n);
    } else {
      OneCopy(io.sent, p, n);
      assert io'.sent == io.sent + [p];
    }
  }

  /** A write of one chunk to some nodes leaves the other chunks on all nodes alone. */
  lemma AppliedKeeps(s: AbstractStore, d: Descriptor, offset: nat, bytes: seq<byte>, x: Descriptor)
    requires x != d
    ensures SameChunk(s, WriteApplied(s, d, offset, bytes), x)
  {
  }

  lemma TableAfterWrite(io: IoState, f: Fragment, ctx: WriteContext, table: map<FileChunk, int>,
                        table': map<FileChunk, int>)
    requires Separated(io) && InBuffer(f, ctx.buf)
    requires var c := ChunkOfFragment(ctx.fileId, f);
             c in table' && table' == table[c := table'[c]] && (c in table ==> table'[c] == table[c])
    ensures var c, bytes, io' := ChunkOfFragment(ctx.fileId, f), ctx.buf[f.start..f.start + f.size],
                                 IssueWrite(io, f, ctx);
            && OthersAsBefore(table, table', io.sent, io'.sent, c)
            && (table'[c] in SentTo(io, c) ==> CopyWritten(table, table', io.sent, io'.sent, c, f.offset, bytes))
  {
    hide WriteTo, NodeState, WriteApplied, SentTo, IssueWrite;
    var io', c, bytes := IssueWrite(io, f, ctx), ChunkOfFragment(ctx.fileId, f), ctx.buf[f.start..f.start + f.size];
    forall x | x in table && x != c
      ensures SameChunk(NodeState(io.sent, table[x]), NodeState(io'.sent, table[x]), DescriptorOf(x)) {
      NodesAfterWrite(io, f, ctx, table[x]);
      AppliedKeeps(NodeState(io.sent, table[x]), DescriptorOf(c), f.offset, bytes, DescriptorOf(x));
    }
    if table'[c] in SentTo(io, c) {
      NodesAfterWrite(io, f, ctx, table'[c]);
      AppliedHas(NodeState(io.sent, table'[c]), DescriptorOf(c), f.offset, bytes);
    }
  }

  lemma AppliedHas(s: AbstractStore, d: Descriptor, offset: nat, bytes: seq<byte>)
    ensures d in WriteApplied(s, d, offset, bytes)
    ensures WriteApplied(s, d, offset, bytes)[d] == WriteTo(if d in s then s[d] else Empty(), offset, bytes)
  {
  }

  /** What a fragment write does to the tables, the log and the nodes: the primary gets it, and the replica
      gets it or is stale from then on. */
  lemma IssueWriteCopies(io: IoState, f: Fragment, ctx: WriteContext)
    requires Separated(io) && InBuffer(f, ctx.buf)
    ensures var io', c, bytes := IssueWrite(io, f, ctx), ChunkOfFragment(ctx.fileId, f),
            ctx.buf[f.start..f.start + f.size];
            && Separated(io') && io.stale <= io'.stale <= io.stale + {c}
            && CopyWritten(io.nodes, io'.nodes, io.sent, io'.sent, c, f.offset, bytes)
            && OthersAsBefore(io.replicas, io'.replicas, io.sent, io'.sent, c)
            && (c in io'.stale || CopyWritten(io.replicas, io'.replicas, io.sent, io'.sent, c, f.offset, bytes))
  {
    hide CopyWritten, OthersAsBefore, PutChunk, PutReplica, Without;
    var io', c := IssueWrite(io, f, ctx), ChunkOfFragment(ctx.fileId, f);
    SameFate(io, f, ctx, c);
    TableAfterWrite(io, f, ctx, io.nodes, io'.nodes);
    TableAfterWrite(io, f, ctx, io.replicas, io'.replicas);
  }

  /** What a fragment write does to the two copies of any chunk: a byte it does not cover is kept, */
  lemma CopiesKept(io: IoState, f: Fragment, ctx: WriteContext, x: FileChunk, o: nat, b: byte)
    requires Separated(io) && InBuffer(f, ctx.buf) && CopiesHave(io, x, o, b)
    requires !(x == ChunkOfFragment(ctx.fileId, f) && f.offset <= o < f.offset + f.size)
    ensures CopiesHave(IssueWrite(io, f, ctx), x, o, b)
  {
    hide IssueWrite, CopyHas, Separated;
    var io', c, bytes := IssueWrite(io, f, ctx), ChunkOfFragment(ctx.fileId, f), ctx.buf[f.start..f.start + f.size];
    IssueWriteCopies(io, f, ctx);
    assert x in io'.replicas;
    hide CopyWritten, OthersAsBefore;
    CopyKept(io.nodes, io'.nodes, io.sent, io'.sent, c, f.offset, bytes, x, o, b);
    if x !in io'.stale {
      CopyKept(io.replicas, io'.replicas, io.sent, io'.sent, c, f.offset, bytes, x, o, b);
    }
  }

  /** no chunk gets shorter, */
  lemma CopiesStillReach(io: IoState, f: Fragment, ctx: WriteContext, x: FileChunk, n: nat)
    requires Separated(io) && InBuffer(f, ctx.buf) && CopiesReach(io, x, n)
    ensures CopiesReach(IssueWrite(io, f, ctx), x, n)
  {
    hide IssueWrite, CopyReaches, Separated;
    var io', c, bytes := IssueWrite(io, f, ctx), ChunkOfFragment(ctx.fileId, f), ctx.buf[f.start..f.start + f.size];
    IssueWriteCopies(io, f, ctx);
    assert x in io'.replicas;
    hide CopyWritten, OthersAsBefore;
    CopyStillReaches(io.nodes, io'.nodes, io.sent, io'.sent, c, f.offset, bytes, x, n);
    if x !in io'.stale {
      CopyStillReaches(io.replicas, io'.replicas, io.sent, io'.sent, c, f.offset, bytes, x, n);
    }
  }

  /** and the bytes it covers are there. */
  lemma CopiesWritten(io: IoState, f: Fragment, ctx: WriteContext, o: nat)
    requires Separated(io) && InBuffer(f, ctx.buf) && f.offset <= o < f.offset + f.size
    ensures CopiesHave(IssueWrite(io, f, ctx), ChunkOfFragment(ctx.fileId, f), o, ctx.buf[f.start + (o - f.offset)])
  {
    hide IssueWrite, CopyHas, Separated;
    var io', c, bytes := IssueWrite(io, f, ctx), ChunkOfFragment(ctx.fileId, f), ctx.buf[f.start..f.start + f.size];
    IssueWriteCopies(io, f, ctx);
    assert c in io'.replicas;
    hide CopyWritten, OthersAsBefore;
    CopyHoldsWritten(io.nodes, io'.nodes, io.sent, io'.sent, c, f.offset, bytes, o);
    if c !in io'.stale {
      CopyHoldsWritten(io.replicas, io'.replicas, io.sent, io'.sent, c, f.offset, bytes, o);
    }
  }

  /** A fragment written to one file leaves the bytes of every file alone that it does not cover. */
  lemma FragmentKeeps(io: IoState, f: Fragment, ctx: WriteContext, fileId: int, p: nat, b: byte, z: Sizes)
    requires Separated(io) && InBuffer(f, ctx.buf) && Positive(z)
    requires StoresByte(io, fileId, p, b, z)
    requires var place := Locate(p, z.stripeSize, z.chunkSize);
             !(fileId == ctx.fileId && place.stripeId == f.stripeId && place.chunkId == f.chunkId
               && f.offset <= place.offset < f.offset + f.size)
    ensures StoresByte(IssueWrite(io, f, ctx), fileId, p, b, z)
  {
    hide IssueWrite, CopiesHave, CopiesReach, Separated, Locate;
    var place := Locate(p, z.stripeSize, z.chunkSize);
    CopiesKept(io, f, ctx, FileChunk(fileId, place.stripeId, place.chunkId), place.offset, b);
    if place.offset == 0 && 1 < place.chunkId {
      CopiesStillReach(io, f, ctx, FileChunk(fileId, place.stripeId, place.chunkId - 1), z.chunkSize);
    }
  }

  /** The bytes of a fragment are stored once it is written. */
  lemma FragmentStores(io: IoState, f: Fragment, ctx: WriteContext, base: nat, p: nat, z: Sizes)
    requires Separated(io) && InBuffer(f, ctx.buf) && Positive(z)
    requires WellPlaced(f, base, z.stripeSize, z.chunkSize) && base + f.start <= p < base + f.start + f.size
    requires StartsInnerChunk(f) ==> CopiesReach(io, FileChunk(ctx.fileId, f.stripeId, f.chunkId - 1), z.chunkSize)
    ensures StoresByte(IssueWrite(io, f, ctx), ctx.fileId, p, ByteAt(base, ctx.buf, p), z)
  {
    hide IssueWrite, CopiesHave, CopiesReach, Separated, Locate;
    var place := Locate(p, z.stripeSize, z.chunkSize);
    assert place == Place(f.stripeId, f.chunkId, f.offset + (p - base - f.start));
    CopiesWritten(io, f, ctx, place.offset);
    if place.offset == 0 && 1 < place.chunkId {
      CopiesStillReach(io, f, ctx, FileChunk(ctx.fileId, place.stripeId, place.chunkId - 1), z.chunkSize);
    }
  }

  lemma FragmentReaches(io: IoState, f: Fragment, ctx: WriteContext)
    requires Separated(io) && InBuffer(f, ctx.buf)
    ensures CopiesReach(IssueWrite(io, f, ctx), ChunkOfFragment(ctx.fileId, f), f.offset + f.size)
  {
    hide IssueWrite, CopyReaches, Separated;
    var io', c, bytes := IssueWrite(io, f, ctx), ChunkOfFragment(ctx.fileId, f), ctx.buf[f.start..f.start + f.size];
    IssueWriteCopies(io, f, ctx);
    assert c in io'.replicas;
    hide CopyWritten, OthersAsBefore;
    CopyReachesWritten(io.nodes, io'.nodes, io.sent, io'.sent, c, f.offset, bytes);
    if c !in io'.stale {
      CopyReachesWritten(io.replicas, io'.replicas, io.sent, io'.sent, c, f.offset, bytes);
    }
  }

  // ---------------------------------------------------------------------------
  // Writing a whole range
  // ---------------------------------------------------------------------------

  /** The file stores `flat` and, of the range that is being written, the bytes before `start`. */
  ghost predicate PartlyWritten(io: IoState, fileId: int, flat: Flat, base: nat, buf: seq<byte>, start: nat, z: Sizes)
    requires Positive(z) && start <= |buf|
  {
    && Separated(io)
    && (forall p :: p in flat && !(base <= p < base + start) ==> StoresByte(io, fileId, p, flat[p], z))
    && (forall p :: base <= p < base + start ==> StoresByte(io, fileId, p, ByteAt(base, buf, p), z))
  }

  lemma PartlyWrittenStep(io: IoState, f: Fragment, ctx: WriteContext, flat: Flat, base: nat, z: Sizes)
    requires Positive(z) && InBuffer(f, ctx.buf) && WellPlaced(f, base, z.stripeSize, z.chunkSize)
    requires PartlyWritten(io, ctx.fileId, flat, base, ctx.buf, f.start, z)
    requires StartsInnerChunk(f) ==> CopiesReach(io, FileChunk(ctx.fileId, f.stripeId, f.chunkId - 1), z.chunkSize)
    ensures PartlyWritten(IssueWrite(io, f, ctx), ctx.fileId, flat, base, ctx.buf, f.start + f.size, z)
  {
    var io' := IssueWrite(io, f, ctx);
    IssueWriteCopies(io, f, ctx);
    hide IssueWrite, StoresByte, WellPlaced, Separated, CopyWritten;
    forall p | p in flat && !(base <= p < base + f.start + f.size)
      ensures StoresByte(io', ctx.fileId, p, flat[p], z) {
      NotInFragment(f, base, p, z);
      FragmentKeeps(io, f, ctx, ctx.fileId, p, flat[p], z);
    }
    forall p | base <= p < base + f.start + f.size
      ensures StoresByte(io', ctx.fileId, p, ByteAt(base, ctx.buf, p), z) {
      if p < base + f.start {
        NotInFragment(f, base, p, z);
        FragmentKeeps(io, f, ctx, ctx.fileId, p, ByteAt(base, ctx.buf, p), z);
      } else {
        FragmentStores(io, f, ctx, base, p, z);
      }
    }
  }

  /** A position outside the fragment's range is kept somewhere else. */
  lemma NotInFragment(f: Fragment, base: nat, p: nat, z: Sizes)
    requires Positive(z) && WellPlaced(f, base, z.stripeSize, z.chunkSize)
    requires !(base + f.start <= p < base + f.start + f.size)
    ensures var place := Locate(p, z.stripeSize, z.chunkSize);
            !(place.stripeId == f.stripeId && place.chunkId == f.chunkId
              && f.offset <= place.offset < f.offset + f.size)
  {
    var place := Locate(p, z.stripeSize, z.chunkSize);
    if place.stripeId == f.stripeId && place.chunkId == f.chunkId && f.offset <= place.offset < f.offset + f.size {
      var q := base + f.start + (place.offset - f.offset);
      assert Locate(q, z.stripeSize, z.chunkSize) == place;
      PositionOfLocate(p, z.stripeSize, z.chunkSize);
      PositionOfLocate(q, z.stripeSize, z.chunkSize);
    }
  }

  lemma TilesInBuffer(fs: seq<Fragment>, start: nat, end: nat, buf: seq<byte>)
    requires Tiles(fs, start, end) && end <= |buf|
    ensures start <= end && AllInBuffer(fs, buf)
  {
  }

  /** After the first fragment is written the chunk before the second one is as long as it must be. */
  lemma LinkedRest(io: IoState, fs: seq<Fragment>, ctx: WriteContext, z: Sizes)
    requires Separated(io) && fs != [] && InBuffer(fs[0], ctx.buf) && Linked(fs, z.chunkSize)
    ensures Linked(fs[1..], z.chunkSize)
    ensures fs[1..] != [] && StartsInnerChunk(fs[1..][0]) ==>
              CopiesReach(IssueWrite(io, fs[0], ctx),
                        FileChunk(ctx.fileId, fs[1..][0].stripeId, fs[1..][0].chunkId - 1), z.chunkSize)
  {
    hide IssueWrite, CopiesReach;
    var rest := fs[1..];
    FragmentReaches(io, fs[0], ctx);
    if rest != [] && StartsInnerChunk(rest[0]) {
      assert Follows(fs[0], fs[1], z.chunkSize);
    }
    forall i | 0 < i < |rest| && StartsInnerChunk(rest[i]) ensures Follows(rest[i - 1], rest[i], z.chunkSize) {
      assert Follows(fs[i], fs[i + 1], z.chunkSize);
    }
  }

  ghost predicate AllWellPlaced(fs: seq<Fragment>, base: nat, z: Sizes)
    requires Positive(z)
  {
    forall i :: 0 <= i < |fs| ==> WellPlaced(fs[i], base, z.stripeSize, z.chunkSize)
  }

  lemma FirstAndRest(fs: seq<Fragment>, base: nat, z: Sizes, buf: seq<byte>)
    requires Positive(z) && fs != [] && AllWellPlaced(fs, base, z) && AllInBuffer(fs, buf)
    ensures WellPlaced(fs[0], base, z.stripeSize, z.chunkSize) && InBuffer(fs[0], buf)
    ensures AllWellPlaced(fs[1..], base, z) && AllInBuffer(fs[1..], buf)
    ensures AllInBuffer([fs[0]], buf) && fs == [fs[0]] + fs[1..]
  {
    hide WellPlaced, InBuffer;
  }

  /** The fragments of a range are written one after the other. */
  lemma {:induction false} RangeWritten(io: IoState, fs: seq<Fragment>, ctx: WriteContext, flat: Flat, base: nat,
                                        start: nat, end: nat, z: Sizes)
    requires Positive(z) && end <= |ctx.buf| && AllInBuffer(fs, ctx.buf)
    requires start <= end && Tiles(fs, start, end) && Linked(fs, z.chunkSize)
    requires AllWellPlaced(fs, base, z)
    requires PartlyWritten(io, ctx.fileId, flat, base, ctx.buf, start, z)
    requires fs != [] && StartsInnerChunk(fs[0]) ==>
               CopiesReach(io, FileChunk(ctx.fileId, fs[0].stripeId, fs[0].chunkId - 1), z.chunkSize)
    ensures PartlyWritten(IssueWrites(io, fs, ctx), ctx.fileId, flat, base, ctx.buf, end, z)
    decreases |fs|
  {
    hide IssueWrite, Separated, CopiesReach, AllWellPlaced, WellPlaced, Linked, AllInBuffer, StoresByte,
         StartsInnerChunk;
    if fs != [] {
      var f, rest := fs[0], fs[1..];
      FirstAndRest(fs, base, z, ctx.buf);
      IssueOneWrite(io, f, ctx);
      IssueWritesConcat(io, [f], rest, ctx);
      hide IssueWrites;
      TilesInBuffer(rest, start + f.size, end, ctx.buf);
      PartlyWrittenSeparated(io, ctx.fileId, flat, base, ctx.buf, start, z);
      hide PartlyWritten;
      PartlyWrittenStep(io, f, ctx, flat, base, z);
      LinkedRest(io, fs, ctx, z);
      RangeWritten(IssueWrite(io, f, ctx), rest, ctx, flat, base, start + f.size, end, z);
    }
  }

  lemma PartlyWrittenSeparated(io: IoState, fileId: int, flat: Flat, base: nat, buf: seq<byte>, start: nat, z: Sizes)
    requires Positive(z) && start <= |buf| && PartlyWritten(io, fileId, flat, base, buf, start, z)
    ensures Separated(io)
  {
  }

  lemma FlatWriteFacts(flat: Flat, base: nat, buf: seq<byte>)
    ensures forall p: nat :: p in FlatWrite(flat, base, buf) <==> p in flat || base <= p < base + |buf|
    ensures forall p: nat :: p in FlatWrite(flat, base, buf) ==>
              FlatWrite(flat, base, buf)[p] == if base <= p < base + |buf| then ByteAt(base, buf, p) else flat[p]
  {
  }

  /** Writing the fragments of a range to a file that stores `flat` is writing the range to `flat`. */
  lemma WriteRefinesFlat(io: IoState, fs: seq<Fragment>, ctx: WriteContext, flat: Flat, base: nat, z: Sizes)
    requires Positive(z) && fs == Fragments(base, |ctx.buf|, z.stripeSize, z.chunkSize)
    requires Separated(io) && StoresFile(io, ctx.fileId, flat, z)
    ensures AllInBuffer(fs, ctx.buf)
    ensures Separated(IssueWrites(io, fs, ctx))
    ensures StoresFile(IssueWrites(io, fs, ctx), ctx.fileId, FlatWrite(flat, base, ctx.buf), z)
  {
    hide IssueWrites, Fragments, StoresByte, Separated, Linked, WellPlaced;
    FragmentsCut(base, |ctx.buf|, z.stripeSize, z.chunkSize);
    FragmentsLinked(base, |ctx.buf|, z.stripeSize, z.chunkSize);
    TilesInBuffer(fs, 0, |ctx.buf|, ctx.buf);
    RangeWritten(io, fs, ctx, flat, base, 0, |ctx.buf|, z);
    FlatWriteFacts(flat, base, ctx.buf);
    hide FlatWrite;
  }

  // ---------------------------------------------------------------------------
  // What leaves a file alone
  // ---------------------------------------------------------------------------

  /** Writes to other files. */
  lemma {:induction false} OtherFilesKept(io: IoState, fs: seq<Fragment>, ctx: WriteContext, fileId: int, flat: Flat,
                                          z: Sizes)
    requires Positive(z) && AllInBuffer(fs, ctx.buf) && fileId != ctx.fileId
    requires Separated(io) && StoresFile(io, fileId, flat, z)
    ensures Separated(IssueWrites(io, fs, ctx)) && StoresFile(IssueWrites(io, fs, ctx), fileId, flat, z)
  {
    if fs != [] {
      var n := |fs| - 1;
      OtherFilesKept(io, fs[..n], ctx, fileId, flat, z);
      var io' := IssueWrites(io, fs[..n], ctx);
      hide IssueWrite, StoresByte, Separated, CopyWritten, Locate;
      IssueWriteCopies(io', fs[n], ctx);
      forall p | p in flat ensures StoresByte(IssueWrite(io', fs[n], ctx), fileId, p, flat[p], z) {
        FragmentKeeps(io', fs[n], ctx, fileId, p, flat[p], z);
      }
    }
  }

  /** Reads, of this or of other files. */
  lemma ReadsKeepFile(io: IoState, io': IoState, fileId: int, flat: Flat, z: Sizes)
    requires Positive(z) && OnlyReads(io, io')
    requires StoresFile(io, fileId, flat, z)
    ensures StoresFile(io', fileId, flat, z)
  {
    forall n ensures NodeState(io'.sent, n) == NodeState(io.sent, n) {
      ReadsKeepNodes(io.sent, io'.sent, n);
    }
    hide NodeState, Locate;
    forall p | p in flat ensures StoresByte(io', fileId, p, flat[p], z) {
      assert StoresByte(io, fileId, p, flat[p], z);
    }
  }

  ghost predicate DeletesOf(packets: seq<Packet>, fileId: int) {
    forall i :: 0 <= i < |packets| ==> packets[i].body.DeleteBody? && packets[i].d.fileId == fileId
  }

  lemma {:induction false} DeletePacketsOf(io: IoState, chunks: seq<FileChunk>, id: nat, fileId: int)
    requires forall c :: c in chunks ==> c.fileId == fileId
    ensures DeletesOf(DeletePackets(io, chunks, id), fileId)
  {
    if chunks != [] {
      DeletePacketsOf(io, chunks[..|chunks| - 1], id, fileId);
    }
  }

  /** A node that is told to delete chunks of one file keeps those of the others. */
  lemma {:induction false} DeletesKeepOthers(sent: seq<Packet>, packets: seq<Packet>, fileId: int, node: int,
                                             d: Descriptor)
    requires DeletesOf(packets, fileId) && d.fileId != fileId
    ensures d in NodeState(sent + packets, node) <==> d in NodeState(sent, node)
    ensures d in NodeState(sent, node) ==> NodeState(sent + packets, node)[d] == NodeState(sent, node)[d]
  {
    if packets == [] {
      assert sent + packets == sent;
    } else {
      var n := |packets| - 1;
      DeletesKeepOthers(sent, packets[..n], fileId, node, d);
      assert sent + packets == (sent + packets[..n]) + [packets[n]];
      NodeStateSnoc(sent + packets[..n], packets[n], node);
    }
  }

  lemma ReachingOf(packets: seq<Packet>, reachable: set<int>, fileId: int)
    requires DeletesOf(packets, fileId)
    ensures DeletesOf(Reaching(packets, reachable), fileId)
  {
    ReachingAre(packets, reachable);
    hide Reaching;
    var reaching := Reaching(packets, reachable);
    forall i | 0 <= i < |reaching| ensures reaching[i].body.DeleteBody? && reaching[i].d.fileId == fileId {
      assert reaching[i] in reaching;
    }
  }

  /** Deleting the chunks of one file leaves the bytes of the others alone. */
  lemma DeletesKeepFile(io: IoState, chunks: seq<FileChunk>, id: nat, deleted: int,
                        fileId: int, flat: Flat, z: Sizes)
    requires Positive(z) && fileId != deleted && (forall c :: c in chunks ==> c.fileId == deleted)
    requires Separated(io) && StoresFile(io, fileId, flat, z)
    ensures var io' := DeleteChunks(io, chunks, id);
            Separated(io') && StoresFile(io', fileId, flat, z)
  {
    var io', packets := DeleteChunks(io, chunks, id), DeletePackets(io, chunks, id);
    DeletePacketsOf(io, chunks, id, deleted);
    ReachingOf(packets, io.reachable, deleted);
    forall node, d: Descriptor | d.fileId != deleted
      ensures d in NodeState(io'.sent, node) <==> d in NodeState(io.sent, node)
      ensures d in NodeState(io.sent, node) ==> NodeState(io'.sent, node)[d] == NodeState(io.sent, node)[d]
    {
      DeletesKeepOthers(io.sent, Reaching(packets, io.reachable), deleted, node, d);
    }
    hide NodeState, Locate, DeletePackets, Reaching;
    forall p | p in flat ensures StoresByte(io', fileId, p, flat[p], z) {
      assert StoresByte(io, fileId, p, flat[p], z);
    }
  }

  // ---------------------------------------------------------------------------
  // A deleted file is gone
  // ---------------------------------------------------------------------------

  /** Chunks of the file have a primary if and only if they have a replica. */
  ghost predicate Paired(io: IoState, fileId: int) {
    forall c: FileChunk :: c.fileId == fileId ==> (c in io.nodes <==> c in io.replicas)
  }

  /** Where the tables say the copies of the chunks of one file are. */
  datatype Copies = Copies(nodes: map<FileChunk, int>, replicas: map<FileChunk, int>)

  function CopiesOf(io: IoState, fileId: int): Copies {
    Copies(map c | c in io.nodes && c.fileId == fileId :: io.nodes[c],
           map c | c in io.replicas && c.fileId == fileId :: io.replicas[c])
  }

  /** The copies that are on nodes that are down. */
  function OnNodesDown(copies: Copies, up: seq<int>): Copies {
    Copies(map c | c in copies.nodes && copies.nodes[c] !in up :: copies.nodes[c],
           map c | c in copies.replicas && copies.replicas[c] !in up :: copies.replicas[c])
  }

  const NO_COPIES: Copies := Copies(map[], map[])

  /** The tables do not lead to any chunk of the file. */
  ghost predicate NoMappings(io: IoState, fileId: int) {
    forall c: FileChunk :: c.fileId == fileId ==> c !in io.nodes && c !in io.replicas
  }

  lemma NoCopiesNoMappings(io: IoState, fileId: int)
    requires CopiesOf(io, fileId) == NO_COPIES
    ensures NoMappings(io, fileId)
  {
    forall c: FileChunk | c.fileId == fileId ensures c !in io.nodes && c !in io.replicas {
      assert c !in CopiesOf(io, fileId).nodes && c !in CopiesOf(io, fileId).replicas;
    }
  }

  ghost predicate AreDeletes(packets: seq<Packet>) {
    forall p :: p in packets ==> p.body.DeleteBody?
  }

  /** A node that is told to delete a chunk does not have it afterwards. */
  lemma {:induction false} ToldToDelete(sent: seq<Packet>, packets: seq<Packet>, p: Packet)
    requires AreDeletes(packets) && p in packets
    ensures p.d !in NodeState(sent + packets, p.node)
  {
    var n := |packets| - 1;
    assert sent + packets == (sent + packets[..n]) + [packets[n]];
    NodeStateSnoc(sent + packets[..n], packets[n], p.node);
    if p != packets[n] {
      assert p in packets[..n];
      ToldToDelete(sent, packets[..n], p);
    }
  }

  lemma {:induction false} DeletePacketsHave(io: IoState, chunks: seq<FileChunk>, id: nat, c: FileChunk)
    requires c in chunks
    ensures AreDeletes(DeletePackets(io, chunks, id))
    ensures forall p :: p in CopyDelete(io.nodes, c, io.up, id) + CopyDelete(io.replicas, c, io.up, id) ==>
              p in DeletePackets(io, chunks, id)
  {
    var n := |chunks| - 1;
    if n > 0 {
      DeletePacketsHave(io, chunks[..n], id, if c in chunks[..n] then c else chunks[0]);
    }
  }

  /** Deleting a file leaves exactly those of its copies in the tables that are on nodes that are down. */
  lemma DeleteLeavesBehind(io: IoState, chunks: seq<FileChunk>, id: nat, fileId: int)
    requires ChunksOfFile(chunks, io.nodes, fileId) && Paired(io, fileId)
    ensures CopiesOf(DeleteChunks(io, chunks, id), fileId) == OnNodesDown(CopiesOf(io, fileId), io.up)
  {
    hide DeletePackets, Reaching;
  }

  /** The node of a copy does not have it any more, if it is up and can be reached. */
  lemma DeletedFromNode(io: IoState, chunks: seq<FileChunk>, id: nat, c: FileChunk,
                        node: int)
    requires c in chunks && node in io.up && node in io.reachable
    requires (c in io.nodes && io.nodes[c] == node) || (c in io.replicas && io.replicas[c] == node)
    ensures DescriptorOf(c) !in NodeState(DeleteChunks(io, chunks, id).sent, node)
  {
    var packets := DeletePackets(io, chunks, id);
    DeletePacketsHave(io, chunks, id, c);
    var p := Packet(node, id, DescriptorOf(c), DeleteBody);
    assert p in packets;
    ReachingAre(packets, io.reachable);
    hide Reaching, DeletePackets;
    ToldToDelete(io.sent, Reaching(packets, io.reachable), p);
  }

  // ---------------------------------------------------------------------------
  // Whose chunks are placed where
  // ---------------------------------------------------------------------------

  /** At most the chunks of one file were placed or taken away. */
  ghost predicate TouchesOnly(io: IoState, io': IoState, fileId: int) {
    forall c: FileChunk :: c.fileId != fileId ==>
      && (c in io'.nodes <==> c in io.nodes) && (c in io.nodes ==> io'.nodes[c] == io.nodes[c])
      && (c in io'.replicas <==> c in io.replicas) && (c in io.replicas ==> io'.replicas[c] == io.replicas[c])
  }

  lemma {:induction false} WritesTouchOnly(io: IoState, fs: seq<Fragment>, ctx: WriteContext)
    requires AllInBuffer(fs, ctx.buf)
    ensures TouchesOnly(io, IssueWrites(io, fs, ctx), ctx.fileId)
  {
    if fs != [] {
      WritesTouchOnly(io, fs[..|fs| - 1], ctx);
    }
  }

  /** Writes place chunks in pairs. */
  lemma {:induction false} WritesPair(io: IoState, fs: seq<Fragment>, ctx: WriteContext, fileId: int)
    requires Paired(io, fileId) && AllInBuffer(fs, ctx.buf)
    ensures Paired(IssueWrites(io, fs, ctx), fileId)
  {
    if fs != [] {
      WritesPair(io, fs[..|fs| - 1], ctx, fileId);
    }
  }

  lemma DeletesTouchOnly(io: IoState, chunks: seq<FileChunk>, id: nat, fileId: int)
    requires forall c :: c in chunks ==> c.fileId == fileId
    ensures TouchesOnly(io, DeleteChunks(io, chunks, id), fileId)
  {
    hide DeletePackets, Reaching;
  }

  lemma TouchedKeep(io: IoState, io': IoState, touched: int, fileId: int)
    requires TouchesOnly(io, io', touched) && fileId != touched
    ensures CopiesOf(io', fileId) == CopiesOf(io, fileId)
    ensures Paired(io, fileId) ==> Paired(io', fileId)
  {
  }

  // ---------------------------------------------------------------------------
  // How long chunks are
  // ---------------------------------------------------------------------------

  /** The first `end` bytes of the chunk are among the first `size` bytes of the file. */
  predicate EndsInside(d: Descriptor, end: nat, size: nat, z: Sizes) {
    && 1 <= d.stripeId && 1 <= d.chunkNum && end <= z.chunkSize
    && Position(Place(d.stripeId, d.chunkNum, end), z.stripeSize, z.chunkSize) <= size
  }

  /** Nothing was sent to a node that belongs past the end of the file. */
  ghost predicate SentInside(sent: seq<Packet>, fileId: int, size: nat, z: Sizes) {
    forall i :: 0 <= i < |sent| && sent[i].d.fileId == fileId && sent[i].body.WriteBody? ==>
      EndsInside(sent[i].d, sent[i].body.offset + |sent[i].body.bytes|, size, z)
  }

  /** So no chunk on any node reaches past the end of its file. */
  lemma {:induction false} LenInside(sent: seq<Packet>, node: int, d: Descriptor, size: nat, z: Sizes)
    requires SentInside(sent, d.fileId, size, z) && d in NodeState(sent, node)
    ensures EndsInside(d, NodeState(sent, node)[d].len, size, z)
  {
    var n := |sent| - 1;
    var before := sent[..n];
    assert forall i :: 0 <= i < n ==> before[i] == sent[i];
    if d in NodeState(before, node) {
      LenInside(before, node, d, size, z);
    }
  }

  lemma SentInsideMore(sent: seq<Packet>, fileId: int, size: nat, size': nat, z: Sizes)
    requires SentInside(sent, fileId, size, z) && size <= size'
    ensures SentInside(sent, fileId, size', z)
  {
  }

  /** What the write of one fragment sends: that fragment, to some nodes. */
  lemma SentByWrite(io: IoState, f: Fragment, ctx: WriteContext)
    requires InBuffer(f, ctx.buf)
    ensures var sent', d := IssueWrite(io, f, ctx).sent, DescriptorOf(ChunkOfFragment(ctx.fileId, f));
            && io.sent <= sent'
            && forall i :: |io.sent| <= i < |sent'| ==>
                 sent'[i].d == d && sent'[i].body == WriteBody(f.offset, ctx.buf[f.start..f.start + f.size])
  {
    hide PutChunk, PutReplica, Without;
  }

  /** Writes of fragments of a range that ends inside the file. */
  lemma {:induction false} WritesSentInside(io: IoState, fs: seq<Fragment>, ctx: WriteContext, base: nat, size: nat,
                                            z: Sizes)
    requires Positive(z) && AllInBuffer(fs, ctx.buf) && SentInside(io.sent, ctx.fileId, size, z)
    requires forall f :: f in fs ==>
               WellPlaced(f, base, z.stripeSize, z.chunkSize) && base + f.start + f.size <= size
    ensures SentInside(IssueWrites(io, fs, ctx).sent, ctx.fileId, size, z)
  {
    hide WellPlaced, IssueWrite, EndsInside;
    if fs != [] {
      var n := |fs| - 1;
      WritesSentInside(io, fs[..n], ctx, base, size, z);
      assert fs[n] in fs;
      FragmentEndsInside(fs[n], ctx.fileId, base, size, z);
      SentByWrite(IssueWrites(io, fs[..n], ctx), fs[n], ctx);
    }
  }

  lemma FragmentEndsInside(f: Fragment, fileId: int, base: nat, size: nat, z: Sizes)
    requires Positive(z) && WellPlaced(f, base, z.stripeSize, z.chunkSize) && base + f.start + f.size <= size
    ensures EndsInside(DescriptorOf(ChunkOfFragment(fileId, f)), f.offset + f.size, size, z)
  {
  }

  lemma {:induction false} WritesKeepInside(io: IoState, fs: seq<Fragment>, ctx: WriteContext, fileId: int, size: nat,
                                            z: Sizes)
    requires AllInBuffer(fs, ctx.buf) && fileId != ctx.fileId && SentInside(io.sent, fileId, size, z)
    ensures SentInside(IssueWrites(io, fs, ctx).sent, fileId, size, z)
  {
    hide IssueWrite, EndsInside;
    if fs != [] {
      WritesKeepInside(io, fs[..|fs| - 1], ctx, fileId, size, z);
      SentByWrite(IssueWrites(io, fs[..|fs| - 1], ctx), fs[|fs| - 1], ctx);
    }
  }

  lemma StillSentInside(sent: seq<Packet>, sent': seq<Packet>, fileId: int, size: nat, z: Sizes)
    requires SentInside(sent, fileId, size, z) && NoWritesSince(sent, sent')
    ensures SentInside(sent', fileId, size, z)
  {
  }

  /** Nothing was written yet to files that are still to be made. */
  ghost predicate SentBefore(sent: seq<Packet>, last: int) {
    forall i :: 0 <= i < |sent| && sent[i].body.WriteBody? ==> sent[i].d.fileId <= last
  }

  lemma {:induction false} WritesSentBefore(io: IoState, fs: seq<Fragment>, ctx: WriteContext, last: int)
    requires AllInBuffer(fs, ctx.buf) && SentBefore(io.sent, last) && ctx.fileId <= last
    ensures SentBefore(IssueWrites(io, fs, ctx).sent, last)
  {
    hide IssueWrite;
    if fs != [] {
      WritesSentBefore(io, fs[..|fs| - 1], ctx, last);
      SentByWrite(IssueWrites(io, fs[..|fs| - 1], ctx), fs[|fs| - 1], ctx);
    }
  }

  lemma StillSentBefore(sent: seq<Packet>, sent': seq<Packet>, last: int, last': int)
    requires SentBefore(sent, last) && NoWritesSince(sent, sent') && last <= last'
    ensures SentBefore(sent', last')
  {
  }

  lemma DeletesAreNoWrites(io: IoState, chunks: seq<FileChunk>, id: nat)
    ensures NoWritesSince(io.sent, DeleteChunks(io, chunks, id).sent)
  {
    var packets := DeletePackets(io, chunks, id);
    ReachingAre(packets, io.reachable);
    var reaching := Reaching(packets, io.reachable);
    hide DeletePackets, Reaching;
    forall i | 0 <= i < |reaching| ensures !reaching[i].body.WriteBody? {
      DeletePacketsAre(io, chunks, id, reaching[i]);
    }
  }

  /** The primary of every chunk in the table has at least one byte of it. */
  ghost predicate Held(io: IoState) {
    forall c :: c in io.nodes ==> CopyReaches(io.nodes, io.sent, c, 1)
  }

  lemma {:induction false} WritesHeld(io: IoState, fs: seq<Fragment>, ctx: WriteContext)
    requires Separated(io) && AllInBuffer(fs, ctx.buf) && Held(io) && forall f :: f in fs ==> 0 < f.offset + f.size
    ensures Separated(IssueWrites(io, fs, ctx)) && Held(IssueWrites(io, fs, ctx))
  {
    if fs != [] {
      var n := |fs| - 1;
      WritesHeld(io, fs[..n], ctx);
      hide IssueWrite, CopyReaches;
      var mid, io', c, bytes := IssueWrites(io, fs[..n], ctx), IssueWrites(io, fs, ctx),
        ChunkOfFragment(ctx.fileId, fs[n]), ctx.buf[fs[n].start..fs[n].start + fs[n].size];
      IssueWriteCopies(mid, fs[n], ctx);
      assert fs[n] in fs;
      assert forall x :: x in io'.nodes ==> x in mid.nodes || x == c;
      CopyReachesWritten(mid.nodes, io'.nodes, mid.sent, io'.sent, c, fs[n].offset, bytes);
      hide CopyWritten, OthersAsBefore;
      forall x | x in io'.nodes ensures CopyReaches(io'.nodes, io'.sent, x, 1) {
        if x == c {
          ReachesLess(io'.nodes, io'.sent, c, fs[n].offset + fs[n].size, 1);
        } else {
          CopyStillReaches(mid.nodes, io'.nodes, mid.sent, io'.sent, c, fs[n].offset, bytes, x, 1);
        }
      }
    }
  }

  lemma ReachesLess(table: map<FileChunk, int>, sent: seq<Packet>, c: FileChunk, n: nat, m: nat)
    requires CopyReaches(table, sent, c, n) && m <= n
    ensures CopyReaches(table, sent, c, m)
  {
  }

  /** Which nodes are up, and which can be reached, makes no difference to what is stored. */
  lemma StoredAnyway(io: IoState, io': IoState, fileId: int, flat: Flat, z: Sizes)
    requires Positive(z) && io' == io.(up := io'.up, reachable := io'.reachable)
    ensures StoresFile(io', fileId, flat, z) <==> StoresFile(io, fileId, flat, z)
    ensures Held(io') <==> Held(io)
  {
    hide Locate, CopyHas, CopyReaches;
    forall p | p in flat ensures StoresByte(io', fileId, p, flat[p], z) <==> StoresByte(io, fileId, p, flat[p], z) {
    }
    hide StoresByte;
  }

  lemma ReadsHeld(io: IoState, io': IoState)
    requires Held(io) && OnlyReads(io, io')
    ensures Held(io')
  {
    forall n ensures NodeState(io'.sent, n) == NodeState(io.sent, n) {
      ReadsKeepNodes(io.sent, io'.sent, n);
    }
    hide NodeState;
  }

  /** A copy that stays in the table when a file is deleted was not deleted on its node. */
  lemma {:induction false} NotToldToDelete(sent: seq<Packet>, packets: seq<Packet>, node: int, d: Descriptor)
    requires AreDeletes(packets) && forall p :: p in packets ==> p.node != node || p.d != d
    ensures SameChunk(NodeState(sent, node), NodeState(sent + packets, node), d)
  {
    if packets == [] {
      assert sent + packets == sent;
    } else {
      var n := |packets| - 1;
      assert packets[n] in packets && forall p :: p in packets[..n] ==> p in packets;
      NotToldToDelete(sent, packets[..n], node, d);
      assert sent + packets == (sent + packets[..n]) + [packets[n]];
      NodeStateSnoc(sent + packets[..n], packets[n], node);
    }
  }

  /** Every packet of a delete is for a copy, of one of these chunks, that is on a node that is up. */
  lemma {:induction false} DeletePacketsAre(io: IoState, chunks: seq<FileChunk>, id: nat, p: Packet)
    requires p in DeletePackets(io, chunks, id)
    ensures p.body.DeleteBody? && p.node in io.up
    ensures exists c :: c in chunks && p.d == DescriptorOf(c)
                        && ((c in io.nodes && io.nodes[c] == p.node) || (c in io.replicas && io.replicas[c] == p.node))
  {
    var n := |chunks| - 1;
    if p in DeletePackets(io, chunks[..n], id) {
      DeletePacketsAre(io, chunks[..n], id, p);
    } else {
      assert chunks[n] in chunks;
    }
  }

  lemma DeletesHeld(io: IoState, chunks: seq<FileChunk>, id: nat)
    requires Separated(io) && Held(io)
    ensures Held(DeleteChunks(io, chunks, id))
  {
    var io', packets := DeleteChunks(io, chunks, id), DeletePackets(io, chunks, id);
    ReachingAre(packets, io.reachable);
    var reaching := Reaching(packets, io.reachable);
    forall p | p in reaching ensures p.body.DeleteBody? {
      DeletePacketsAre(io, chunks, id, p);
    }
    hide DeletePackets, Reaching;
    forall c | c in io'.nodes ensures CopyReaches(io'.nodes, io'.sent, c, 1) {
      assert CopyReaches(io.nodes, io.sent, c, 1);
      forall p | p in reaching ensures p.node != io.nodes[c] || p.d != DescriptorOf(c) {
        DeletePacketsAre(io, chunks, id, p);
      }
      NotToldToDelete(io.sent, reaching, io.nodes[c], DescriptorOf(c));
    }
  }

  // ---------------------------------------------------------------------------
  // How many copies are on which nodes
  // ---------------------------------------------------------------------------

  function OnNodes(table: map<FileChunk, int>, chunks: set<FileChunk>, nodes: set<int>): set<FileChunk> {
    set c | c in chunks && c in table && table[c] in nodes
  }

  /** How many copies are on these nodes, of the chunks that have a primary. */
  function CopiesOn(copies: Copies, nodes: set<int>): nat {
    |OnNodes(copies.nodes, copies.nodes.Keys, nodes)| + |OnNodes(copies.replicas, copies.nodes.Keys, nodes)|
  }

  /** None is on these nodes. */
  predicate NoneOn(copies: Copies, nodes: set<int>) {
    forall c :: c in copies.nodes ==>
      copies.nodes[c] !in nodes && (c in copies.replicas ==> copies.replicas[c] !in nodes)
  }

  lemma CopiesOnNone(copies: Copies, nodes: set<int>)
    ensures CopiesOn(copies, nodes) == 0 <==> NoneOn(copies, nodes)
  {
    var a, b := OnNodes(copies.nodes, copies.nodes.Keys, nodes), OnNodes(copies.replicas, copies.nodes.Keys, nodes);
    assert NoneOn(copies, nodes) ==> a == {} && b == {};
    if CopiesOn(copies, nodes) == 0 {
      assert a == {} && b == {};
      forall c | c in copies.nodes
        ensures copies.nodes[c] !in nodes && (c in copies.replicas ==> copies.replicas[c] !in nodes) {
        assert c !in a && c !in b;
      }
    }
  }

  function NodesUp(up: seq<int>): set<int> {
    set n | n in up
  }

  ghost predicate Distinct(chunks: seq<FileChunk>) {
    forall i, j :: 0 <= i < j < |chunks| ==> chunks[i] != chunks[j]
  }

  lemma OnOneMore(table: map<FileChunk, int>, chunks: seq<FileChunk>, nodes: set<int>)
    requires chunks != [] && Distinct(chunks)
    ensures var n := |chunks| - 1;
            |OnNodes(table, ToSet(chunks), nodes)|
            == |OnNodes(table, ToSet(chunks[..n]), nodes)|
               + if chunks[n] in table && table[chunks[n]] in nodes then 1 else 0
  {
    var n := |chunks| - 1;
    var c, before := chunks[n], OnNodes(table, ToSet(chunks[..n]), nodes);
    assert chunks == chunks[..n] + [c] && c !in chunks[..n];
    assert OnNodes(table, ToSet(chunks), nodes)
        == before + if c in table && table[c] in nodes then {c} else {};
  }

  function ToSet(chunks: seq<FileChunk>): set<FileChunk> {
    set c | c in chunks
  }

  /** A delete sends one packet for each copy on a node that is up; those to nodes that can be reached get through. */
  lemma {:induction false} DeletesCount(io: IoState, chunks: seq<FileChunk>, id: nat)
    requires Distinct(chunks)
    ensures var up, cs := NodesUp(io.up), ToSet(chunks);
            && |DeletePackets(io, chunks, id)| == |OnNodes(io.nodes, cs, up)| + |OnNodes(io.replicas, cs, up)|
            && |Reaching(DeletePackets(io, chunks, id), io.reachable)|
               == |OnNodes(io.nodes, cs, up * io.reachable)| + |OnNodes(io.replicas, cs, up * io.reachable)|
  {
    var up, n := NodesUp(io.up), |chunks| - 1;
    if chunks == [] {
      assert ToSet(chunks) == {};
    } else {
      var c := chunks[n];
      DeletesCount(io, chunks[..n], id);
      var a, b := CopyDelete(io.nodes, c, io.up, id), CopyDelete(io.replicas, c, io.up, id);
      ReachingConcat(DeletePackets(io, chunks[..n], id) + a, b, io.reachable);
      ReachingConcat(DeletePackets(io, chunks[..n], id), a, io.reachable);
      ReachingOne(io.nodes, c, io.up, id, io.reachable);
      ReachingOne(io.replicas, c, io.up, id, io.reachable);
      hide OnNodes, CopyDelete, Reaching, ToSet, Distinct;
      OnOneMore(io.nodes, chunks, up);
      OnOneMore(io.replicas, chunks, up);
      OnOneMore(io.nodes, chunks, up * io.reachable);
      OnOneMore(io.replicas, chunks, up * io.reachable);
    }
  }

  lemma ReachingOne(table: map<FileChunk, int>, c: FileChunk, up: seq<int>, id: nat, reachable: set<int>)
    ensures |CopyDelete(table, c, up, id)| == if c in table && table[c] in NodesUp(up) then 1 else 0
    ensures |Reaching(CopyDelete(table, c, up, id), reachable)|
            == if c in table && table[c] in NodesUp(up) * reachable then 1 else 0
  {
    var p := CopyDelete(table, c, up, id);
    if p != [] {
      assert p[..0] == [];
    }
  }

  /** A delete of a file is issued to its copies on nodes that are up, and loses those that cannot be reached. */
  lemma FileDeletesCount(io: IoState, chunks: seq<FileChunk>, id: nat, fileId: int)
    requires ChunksOfFile(chunks, io.nodes, fileId)
    ensures var packets, copies, up := DeletePackets(io, chunks, id), CopiesOf(io, fileId), NodesUp(io.up);
            && |packets| == CopiesOn(copies, up)
            && |packets| - |Reaching(packets, io.reachable)| == CopiesOn(copies, up - io.reachable)
  {
    var copies, up, cs := CopiesOf(io, fileId), NodesUp(io.up), ToSet(chunks);
    forall i, j | 0 <= i < j < |chunks| ensures chunks[i] != chunks[j] {
      ChunkLessTotal(chunks[i], chunks[j]);
    }
    DeletesCount(io, chunks, id);
    assert cs == copies.nodes.Keys;
    forall nodes: set<int>
      ensures OnNodes(io.nodes, cs, nodes) == OnNodes(copies.nodes, cs, nodes)
      ensures OnNodes(io.replicas, cs, nodes) == OnNodes(copies.replicas, cs, nodes) {
    }
    Parted(copies.nodes, cs, up, io.reachable);
    Parted(copies.replicas, cs, up, io.reachable);
  }

  lemma Parted(table: map<FileChunk, int>, chunks: set<FileChunk>, up: set<int>, reachable: set<int>)
    ensures |OnNodes(table, chunks, up)|
            == |OnNodes(table, chunks, up * reachable)| + |OnNodes(table, chunks, up - reachable)|
  {
    var a, b := OnNodes(table, chunks, up * reachable), OnNodes(table, chunks, up - reachable);
    assert OnNodes(table, chunks, up) == a + b && a !! b;
  }

  // ---------------------------------------------------------------------------
  // Nothing harmful is sent
  // ---------------------------------------------------------------------------

  lemma HarmlessConcat(sent: seq<Packet>, packets: seq<Packet>)
    requires HarmlessLog(sent) && forall p :: p in packets ==> Harmless(OpOf(p))
    ensures HarmlessLog(sent + packets)
  {
  }

  lemma {:induction false} WritesHarmless(io: IoState, fs: seq<Fragment>, ctx: WriteContext)
    requires HarmlessLog(io.sent) && AllInBuffer(fs, ctx.buf) && forall f :: f in fs ==> 0 < f.offset + f.size
    ensures HarmlessLog(IssueWrites(io, fs, ctx).sent)
  {
    if fs != [] {
      var n := |fs| - 1;
      WritesHarmless(io, fs[..n], ctx);
      assert fs[n] in fs;
    }
  }

  lemma ReadsHarmless(sent: seq<Packet>, sent': seq<Packet>)
    requires HarmlessLog(sent) && OnlyReadsSince(sent, sent')
    ensures HarmlessLog(sent')
  {
  }

  lemma DeletesHarmless(io: IoState, chunks: seq<FileChunk>, id: nat)
    requires HarmlessLog(io.sent)
    ensures HarmlessLog(DeleteChunks(io, chunks, id).sent)
  {
    if chunks != [] {
      DeletePacketsHave(io, chunks, id, chunks[0]);
    }
    ReachingAre(DeletePackets(io, chunks, id), io.reachable);
    HarmlessConcat(io.sent, Reaching(DeletePackets(io, chunks, id), io.reachable));
  }
}
