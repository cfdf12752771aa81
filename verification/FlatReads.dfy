/** Reading a file back: whoever answers, and in whatever order, the bytes are those of the flat file. */
module FlatReads {
  import opened EspressoStorage
  import opened EspressoRuns
  import opened Nodes
  import opened Striping
  import opened FileChunks
  import opened VolatileMetadata
  import opened ReadRequests
  import opened IoManager
  import opened FlatFile

  /** All positions of the range were written. */
  ghost predicate RangeKnown(flat: Flat, from: nat, to: nat) {
    forall p :: from <= p < to ==> p in flat
  }

  function FlatBytes(flat: Flat, from: nat, to: nat): (bytes: seq<byte>)
    requires from <= to && forall p :: from <= p < to ==> p in flat
    ensures |bytes| == to - from
  {
    seq(to - from, i requires 0 <= i < to - from => flat[from + i])
  }

  lemma FlatBytesConcat(flat: Flat, from: nat, middle: nat, to: nat)
    requires from <= middle <= to && RangeKnown(flat, from, to)
    ensures FlatBytes(flat, from, middle) + FlatBytes(flat, middle, to) == FlatBytes(flat, from, to)
  {
  }

  // ---------------------------------------------------------------------------
  // One fragment
  // ---------------------------------------------------------------------------

  function Min(a: nat, b: nat): nat { if a < b then a else b }

  /** The bytes that a read which ends at `end` gets for a fragment. */
  function EndOf(f: Fragment, base: nat, end: nat): nat {
    Min(base + f.start + f.size, end)
  }

  /** What a read of a fragment needs of a copy: the copy has all bytes that the fragment asks for up to
      `end`, it is not too short when the fragment asks for none, and it has nothing after `end`. */
  ghost predicate CopyReady(table: map<FileChunk, int>, sent: seq<Packet>, fileId: int, f: Fragment, flat: Flat,
                            base: nat, end: nat) {
    var from, to, c := base + f.start, EndOf(f, base, end), ChunkOfFragment(fileId, f);
    && from <= to
    && CopyReaches(table, sent, c, f.offset + (to - from))
    && (to < from + f.size ==> !CopyReaches(table, sent, c, f.offset + (to - from) + 1))
    && (forall p :: from <= p < to ==> p in flat && CopyHas(table, sent, c, f.offset + (p - from), flat[p]))
  }

  /** Whoever is asked has it: the primary, and the replica if it has missed no write. */
  ghost predicate Ready(io: IoState, fileId: int, f: Fragment, flat: Flat, base: nat, end: nat) {
    && CopyReady(io.nodes, io.sent, fileId, f, flat, base, end)
    && ChunkOfFragment(fileId, f) in io.replicas
    && (ChunkOfFragment(fileId, f) in io.stale || CopyReady(io.replicas, io.sent, fileId, f, flat, base, end))
  }

  /** A read of the chunk is answered by a copy that has missed no write. */
  predicate Fresh(io: IoState, c: FileChunk) {
    c in io.stale ==> FromPrimary(io, c)
  }

  /** The piece is exactly what the flat file has there. */
  ghost predicate PieceIs(piece: Response, f: Fragment, flat: Flat, base: nat, end: nat) {
    && base + f.start <= EndOf(f, base, end)
    && RangeKnown(flat, base + f.start, EndOf(f, base, end))
    && piece.bytes == FlatBytes(flat, base + f.start, EndOf(f, base, end))
  }

  lemma CopyAnswers(table: map<FileChunk, int>, sent: seq<Packet>, fileId: int, f: Fragment, flat: Flat, base: nat,
                    end: nat, piece: Response)
    requires CopyReady(table, sent, fileId, f, flat, base, end)
    requires CopyServes(table, sent, ChunkOfFragment(fileId, f), f, piece.bytes)
    ensures PieceIs(piece, f, flat, base, end)
  {
    hide NodeState, KnownBytes;
    var chunk, from, to := ChunkOfFragment(fileId, f), base + f.start, EndOf(f, base, end);
    var c := NodeState(sent, table[chunk])[DescriptorOf(chunk)];
    assert |piece.bytes| == to - from;
    forall p | from <= p < to ensures p in flat && HasKnown(c, f.offset + (p - from), flat[p]) {
      assert CopyHas(table, sent, chunk, f.offset + (p - from), flat[p]);
    }
    KnownBytesAre(piece.bytes, c, f.offset, flat, from);
  }

  ghost predicate HasKnown(c: Chunk, offset: nat, b: byte) {
    offset in c.known && c.known[offset] == b
  }

  lemma KnownBytesAre(bytes: seq<byte>, c: Chunk, offset: nat, flat: Flat, from: nat)
    requires KnownBytes(bytes, c, offset)
    requires forall p :: from <= p < from + |bytes| ==> p in flat && HasKnown(c, offset + (p - from), flat[p])
    ensures RangeKnown(flat, from, from + |bytes|) && bytes == FlatBytes(flat, from, from + |bytes|)
  {
    forall i | 0 <= i < |bytes| ensures bytes[i] == FlatBytes(flat, from, from + |bytes|)[i] {
      assert from + i in flat;
      assert offset + (from + i - from) in c.known;
    }
  }

  lemma ReadyAnswers(io: IoState, fileId: int, f: Fragment, flat: Flat, base: nat, end: nat, piece: Response)
    requires Ready(io, fileId, f, flat, base, end) && Serves(io, fileId, f, piece)
    requires Fresh(io, ChunkOfFragment(fileId, f))
    ensures PieceIs(piece, f, flat, base, end)
  {
    hide CopyReady, CopyServes, PieceIs;
    if FromPrimary(io, ChunkOfFragment(fileId, f)) {
      CopyAnswers(io.nodes, io.sent, fileId, f, flat, base, end, piece);
    } else {
      CopyAnswers(io.replicas, io.sent, fileId, f, flat, base, end, piece);
    }
  }

  /** The file is stored, and no chunk of it reaches past its end. */
  ghost predicate StoredInside(io: IoState, fileId: int, flat: Flat, size: nat, z: Sizes)
    requires Positive(z)
  {
    StoresFile(io, fileId, flat, z) && SentInside(io.sent, fileId, size, z) && Held(io)
  }

  /** No copy of a chunk reaches past the end of the file. */
  lemma CopyInside(table: map<FileChunk, int>, sent: seq<Packet>, fileId: int, f: Fragment, base: nat, size: nat,
                   z: Sizes, n: nat)
    requires Positive(z) && SentInside(sent, fileId, size, z) && WellPlaced(f, base, z.stripeSize, z.chunkSize)
    requires CopyReaches(table, sent, ChunkOfFragment(fileId, f), f.offset + n)
    ensures base + f.start + n <= size
  {
    var chunk := ChunkOfFragment(fileId, f);
    LenInside(sent, table[chunk], DescriptorOf(chunk), size, z);
    hide NodeState, SentInside;
  }

  /** A fragment with bytes is ready when its bytes are stored, all of them or those before the end of the file. */
  lemma StoredFragmentReady(io: IoState, fileId: int, f: Fragment, flat: Flat, base: nat, end: nat, size: nat, z: Sizes)
    requires Positive(z) && StoredInside(io, fileId, flat, size, z)
    requires WellPlaced(f, base, z.stripeSize, z.chunkSize)
    requires base + f.start < EndOf(f, base, end) && RangeKnown(flat, base + f.start, EndOf(f, base, end))
    requires end < base + f.start + f.size ==> end == size
    ensures Ready(io, fileId, f, flat, base, end)
  {
    var chunk, from, to := ChunkOfFragment(fileId, f), base + f.start, EndOf(f, base, end);
    forall p | from <= p < to ensures CopiesHave(io, chunk, f.offset + (p - from), flat[p])
    {
      assert StoresByte(io, fileId, p, flat[p], z);
      assert Locate(p, z.stripeSize, z.chunkSize) == Place(f.stripeId, f.chunkId, f.offset + (p - from));
    }
    assert CopiesHave(io, chunk, f.offset + (to - 1 - from), flat[to - 1]);
    if to < from + f.size {
      NotPastEnd(io.nodes, io.sent, fileId, f, base, size, z);
      NotPastEnd(io.replicas, io.sent, fileId, f, base, size, z);
    }
    hide NodeState, Locate, StoresFile, SentInside, Held, WellPlaced;
  }

  lemma NotPastEnd(table: map<FileChunk, int>, sent: seq<Packet>, fileId: int, f: Fragment, base: nat, size: nat,
                   z: Sizes)
    requires Positive(z) && SentInside(sent, fileId, size, z) && WellPlaced(f, base, z.stripeSize, z.chunkSize)
    requires base + f.start <= size
    ensures !CopyReaches(table, sent, ChunkOfFragment(fileId, f), f.offset + (size - (base + f.start)) + 1)
  {
    hide SentInside, WellPlaced, CopyReaches;
    var n := size - (base + f.start) + 1;
    if CopyReaches(table, sent, ChunkOfFragment(fileId, f), f.offset + n) {
      CopyInside(table, sent, fileId, f, base, size, z, n);
    }
  }

  /** An empty fragment before a chunk boundary is ready when the byte at the boundary is stored. */
  lemma EmptyFragmentReady(io: IoState, fileId: int, f: Fragment, flat: Flat, base: nat, end: nat, z: Sizes)
    requires Positive(z) && StoresFile(io, fileId, flat, z) && f.size == 0 && f.start == 0 && f.offset == z.chunkSize
    requires base < end && base in flat && 0 < f.chunkId
    requires Locate(base, z.stripeSize, z.chunkSize) == Place(f.stripeId, f.chunkId + 1, 0)
    ensures Ready(io, fileId, f, flat, base, end)
  {
    assert StoresByte(io, fileId, base, flat[base], z);
    hide NodeState, Locate, StoresFile;
  }

  /** A fragment past the end of the file is for a chunk that does not exist. */
  lemma AbsentPastEnd(io: IoState, fileId: int, f: Fragment, base: nat, size: nat, z: Sizes)
    requires Positive(z) && SentInside(io.sent, fileId, size, z) && Held(io)
    requires WellPlaced(f, base, z.stripeSize, z.chunkSize) && f.offset == 0 && size <= base + f.start
    ensures ChunkOfFragment(fileId, f) !in io.nodes
  {
    hide WellPlaced, SentInside, CopyReaches;
    if ChunkOfFragment(fileId, f) in io.nodes {
      assert CopyReaches(io.nodes, io.sent, ChunkOfFragment(fileId, f), 1);
      CopyInside(io.nodes, io.sent, fileId, f, base, size, z, 1);
    }
  }

  /** The second fragment, when the first is empty. */
  lemma AfterEmptyFragment(base: nat, count: nat, z: Sizes)
    requires Positive(z) && 0 < count
    requires Fragments(base, count, z.stripeSize, z.chunkSize)[..] != []
    requires Fragments(base, count, z.stripeSize, z.chunkSize)[0].size == 0
    ensures var f := Fragments(base, count, z.stripeSize, z.chunkSize)[0];
            && f.offset == z.chunkSize && f.start == 0 && 0 < f.chunkId
            && Locate(base, z.stripeSize, z.chunkSize) == Place(f.stripeId, f.chunkId + 1, 0)
  {
    var fs := Fragments(base, count, z.stripeSize, z.chunkSize);
    FragmentsCut(base, count, z.stripeSize, z.chunkSize);
    FragmentsLinked(base, count, z.stripeSize, z.chunkSize);
    EmptyFragments(base, count, z.stripeSize, z.chunkSize, 0);
    assert Tiles(fs[1..], 0, count);
    var g := fs[1..][0];
    assert g == fs[1] && g.start == 0;
    EmptyFragments(base, count, z.stripeSize, z.chunkSize, 1);
    assert WellPlaced(g, base, z.stripeSize, z.chunkSize);
    assert Locate(base, z.stripeSize, z.chunkSize) == Place(g.stripeId, g.chunkId, g.offset);
    InnerBoundary(base, z);
    assert StartsInnerChunk(g);
    assert Follows(fs[0], fs[1], z.chunkSize);
  }

  /** A position on a chunk boundary inside a stripe starts a chunk that is not the first. */
  lemma InnerBoundary(p: nat, z: Sizes)
    requires Positive(z) && 0 < p % z.stripeSize && p % z.stripeSize % z.chunkSize == 0
    ensures var place := Locate(p, z.stripeSize, z.chunkSize);
            place.offset == 0 && 1 < place.chunkId
  {
    var s := p % z.stripeSize;
    assert s == s / z.chunkSize * z.chunkSize;
  }

  /** The fragments of a request that begin before `end` are ready to be read, if the range up to there was written. */
  lemma FragmentsReady(io: IoState, fileId: int, flat: Flat, base: nat, count: nat, size: nat, z: Sizes, i: nat)
    requires Positive(z) && StoredInside(io, fileId, flat, size, z)
    requires base < size && RangeKnown(flat, base, Min(base + count, size))
    requires i < |Fragments(base, count, z.stripeSize, z.chunkSize)|
    requires Fragments(base, count, z.stripeSize, z.chunkSize)[i].start < Min(base + count, size) - base
    ensures Ready(io, fileId, Fragments(base, count, z.stripeSize, z.chunkSize)[i], flat, base, Min(base + count, size))
  {
    var fs, end := Fragments(base, count, z.stripeSize, z.chunkSize), Min(base + count, size);
    FragmentsCut(base, count, z.stripeSize, z.chunkSize);
    hide StoresFile, SentInside, Held, Ready, Locate;
    TilesBounds(fs, 0, count, i);
    if fs[i].size == 0 {
      EmptyFragments(base, count, z.stripeSize, z.chunkSize, i);
      AfterEmptyFragment(base, count, z);
      EmptyFragmentReady(io, fileId, fs[i], flat, base, end, z);
    } else {
      StoredFragmentReady(io, fileId, fs[i], flat, base, end, size, z);
    }
  }

  lemma {:induction false} TilesBounds(fs: seq<Fragment>, start: nat, end: nat, i: nat)
    requires Tiles(fs, start, end) && i < |fs|
    ensures start <= fs[i].start && fs[i].start + fs[i].size <= end
  {
    if i == 0 {
      TilesOrder(fs[1..], start + fs[0].size, end);
    } else {
      TilesBounds(fs[1..], start + fs[0].size, end, i - 1);
    }
  }

  lemma TilesOrder(fs: seq<Fragment>, start: nat, end: nat)
    requires Tiles(fs, start, end)
    ensures start <= end
  {
  }

  /** The fragments that begin before `cut`. */
  lemma {:induction false} CutAt(fs: seq<Fragment>, start: nat, end: nat, cut: nat) returns (k: nat)
    requires Tiles(fs, start, end) && start < cut <= end
    ensures 0 < k <= |fs| && (forall i :: 0 <= i < k ==> fs[i].start < cut)
    ensures forall i :: k <= i < |fs| ==> cut <= fs[i].start
    ensures Tiles(fs[..k], start, if k < |fs| then fs[k].start else end)
  {
    var next := start + fs[0].size;
    if next < cut {
      var k' := CutAt(fs[1..], next, end, cut);
      k := k' + 1;
      assert fs[..k][1..] == fs[1..][..k'];
      assert forall i :: 0 < i < |fs| ==> fs[i] == fs[1..][i - 1];
    } else {
      k := 1;
      forall i | 1 <= i < |fs| ensures cut <= fs[i].start {
        TilesBounds(fs[1..], next, end, i - 1);
      }
      assert fs[..1][1..] == [];
      if |fs| > 1 {
        assert fs[1..][0] == fs[1];
      }
    }
  }

  // ---------------------------------------------------------------------------
  // The whole range
  // ---------------------------------------------------------------------------

  /** Pieces that fit fragments that tile a range join up to the bytes of the range up to `end`. */
  lemma {:induction false} PiecesJoin(fs: seq<Fragment>, pieces: seq<Response>, flat: Flat, base: nat, start: nat,
                                      stop: nat, end: nat)
    requires Tiles(fs, start, stop) && base + start <= end <= base + stop && RangeKnown(flat, base + start, end)
    requires PiecesAre(pieces, fs, flat, base, end)
    ensures Joined(pieces) == FlatBytes(flat, base + start, end)
    decreases |fs|
  {
    if fs != [] {
      var next := start + fs[0].size;
      assert PieceIs(pieces[0], fs[0], flat, base, end);
      forall i | 0 <= i < |fs[1..]| ensures PieceIs(pieces[1..][i], fs[1..][i], flat, base, end) {
        assert PieceIs(pieces[i + 1], fs[i + 1], flat, base, end);
      }
      if |fs| > 1 {
        assert PieceIs(pieces[1], fs[1], flat, base, end) && fs[1..][0] == fs[1];
      }
      if base + next <= end {
        PiecesJoin(fs[1..], pieces[1..], flat, base, next, stop, end);
        FlatBytesConcat(flat, base + start, base + next, end);
      } else {
        assert pieces[1..] == [];
      }
    }
  }

  ghost predicate PiecesAre(pieces: seq<Response>, fs: seq<Fragment>, flat: Flat, base: nat, end: nat) {
    |pieces| == |fs| && forall i :: 0 <= i < |fs| ==> PieceIs(pieces[i], fs[i], flat, base, end)
  }

  /** All copies that are asked for these fragments have missed no write. */
  predicate AllFresh(io: IoState, fileId: int, fs: seq<Fragment>) {
    forall f :: f in fs ==> Fresh(io, ChunkOfFragment(fileId, f))
  }

  /** Answers to the fragments before the end are what the flat file has there. */
  lemma AnswersAre(io: IoState, fileId: int, flat: Flat, base: nat, count: nat, size: nat, z: Sizes, k: nat,
                   pieces: seq<Response>)
    requires Positive(z) && StoredInside(io, fileId, flat, size, z)
    requires base < size && RangeKnown(flat, base, Min(base + count, size))
    requires var fs := Fragments(base, count, z.stripeSize, z.chunkSize);
             && k <= |fs| && (forall i :: 0 <= i < k ==> fs[i].start < Min(base + count, size) - base)
             && AllFresh(io, fileId, fs) && ServesAll(io, fileId, fs[..k], pieces) && |pieces| == k
    ensures PiecesAre(pieces, Fragments(base, count, z.stripeSize, z.chunkSize)[..k], flat, base,
                      Min(base + count, size))
  {
    hide PieceIs, Ready, Serves, StoredInside, Fragments, Fresh;
    var fs := Fragments(base, count, z.stripeSize, z.chunkSize);
    forall i | 0 <= i < k ensures PieceIs(pieces[i], fs[..k][i], flat, base, Min(base + count, size)) {
      FragmentsReady(io, fileId, flat, base, count, size, z, i);
      assert Serves(io, fileId, fs[..k][i], pieces[i]) && fs[i] in fs;
      ReadyAnswers(io, fileId, fs[i], flat, base, Min(base + count, size), pieces[i]);
    }
  }

  /** Whatever copies the answers come from, those to the fragments before the end join up to the bytes of
      the flat file. */
  lemma ReadRefinesFlat(io: IoState, fileId: int, flat: Flat, base: nat, count: nat, size: nat, z: Sizes, k: nat,
                        pieces: seq<Response>)
    requires Positive(z) && StoredInside(io, fileId, flat, size, z)
    requires base < size && RangeKnown(flat, base, Min(base + count, size))
    requires var fs, cut := Fragments(base, count, z.stripeSize, z.chunkSize), Min(base + count, size) - base;
             && 0 < k <= |fs| && (forall i :: 0 <= i < k ==> fs[i].start < cut)
             && Tiles(fs[..k], 0, if k < |fs| then fs[k].start else count) && (k < |fs| ==> cut <= fs[k].start)
             && AllFresh(io, fileId, fs) && ServesAll(io, fileId, fs[..k], pieces) && |pieces| == k
    ensures Joined(pieces) == FlatBytes(flat, base, Min(base + count, size))
  {
    hide PiecesAre, ServesAll, StoredInside, Fragments, Joined, FlatBytes, WellPlaced, Ordered, FirstUnit, AllFresh;
    hide Tiles;
    var fs := Fragments(base, count, z.stripeSize, z.chunkSize);
    AnswersAre(io, fileId, flat, base, count, size, z, k, pieces);
    PiecesJoin(fs[..k], pieces, flat, base, 0, if k < |fs| then fs[k].start else count, Min(base + count, size));
  }

  /** Of a range whose written part ends where the request or the file does, the chunks of the fragments that
      begin before that end are in the table, and the chunks of the others are not. */
  lemma ChunksPresent(io: IoState, fileId: int, flat: Flat, base: nat, count: nat, size: nat, z: Sizes, k: nat)
    requires Positive(z) && StoredInside(io, fileId, flat, size, z)
    requires base < size && RangeKnown(flat, base, Min(base + count, size))
    requires var fs, cut := Fragments(base, count, z.stripeSize, z.chunkSize), Min(base + count, size) - base;
             && 0 < k <= |fs| && (forall i :: 0 <= i < k ==> fs[i].start < cut)
             && (forall i :: k <= i < |fs| ==> cut <= fs[i].start)
    ensures var fs := Fragments(base, count, z.stripeSize, z.chunkSize);
            AllPresent(io.nodes, fileId, fs[..k]) && NonePresent(io.nodes, fileId, fs[k..])
  {
    hide StoresFile, SentInside, Held, Fragments, WellPlaced, CopyReaches;
    var fs := Fragments(base, count, z.stripeSize, z.chunkSize);
    forall i | 0 <= i < k ensures ChunkOfFragment(fileId, fs[..k][i]) in io.nodes {
      FragmentsReady(io, fileId, flat, base, count, size, z, i);
      CopyReadyPresent(io.nodes, io.sent, fileId, fs[i], flat, base, Min(base + count, size));
    }
    FragmentsCut(base, count, z.stripeSize, z.chunkSize);
    forall i | 0 <= i < |fs[k..]| ensures ChunkOfFragment(fileId, fs[k..][i]) !in io.nodes {
      LaterFragments(base, count, z.stripeSize, z.chunkSize, k + i);
      EmptyFragments(base, count, z.stripeSize, z.chunkSize, k + i);
      TilesBounds(fs, 0, count, k + i);
      AbsentPastEnd(io, fileId, fs[k + i], base, size, z);
    }
  }

  lemma CopyReadyPresent(table: map<FileChunk, int>, sent: seq<Packet>, fileId: int, f: Fragment, flat: Flat,
                         base: nat, end: nat)
    requires CopyReady(table, sent, fileId, f, flat, base, end)
    ensures ChunkOfFragment(fileId, f) in table
  {
  }

  ghost predicate NonePresent(nodes: map<FileChunk, int>, fileId: int, fs: seq<Fragment>) {
    forall i :: 0 <= i < |fs| ==> ChunkOfFragment(fileId, fs[i]) !in nodes
  }

  // ---------------------------------------------------------------------------
  // What a read of any range asks for
  // ---------------------------------------------------------------------------

  /** The fragments that a read asks for, from `stripeOffset` in stripe `stripeId` on: of each
      stripe those before the first chunk that does not exist. */
  function AskedFrom(nodes: map<FileChunk, int>, fileId: int, stripeId: nat, stripeOffset: nat, start: nat, count: nat,
                     z: Sizes): seq<Fragment>
    requires 0 < z.stripeSize && 0 < z.chunkSize && stripeOffset <= z.stripeSize
    decreases count, stripeOffset
  {
    if count == 0 then []
    else
      var size := if count > z.stripeSize - stripeOffset then z.stripeSize - stripeOffset else count;
      Present(nodes, fileId, StripeFragments(stripeId, stripeOffset, start, size, z.chunkSize))
        + AskedFrom(nodes, fileId, stripeId + 1, 0, start + size, count - size, z)
  }

  function Asked(nodes: map<FileChunk, int>, fileId: int, offset: nat, count: nat, z: Sizes): seq<Fragment>
    requires 0 < z.stripeSize && 0 < z.chunkSize
  {
    var (stripeId, stripeOffset) := FirstUnit(offset, z.stripeSize);
    AskedFrom(nodes, fileId, stripeId, stripeOffset, 0, count, z)
  }

  lemma PresentThenNone(nodes: map<FileChunk, int>, fileId: int, a: seq<Fragment>, b: seq<Fragment>)
    requires AllPresent(nodes, fileId, a) && NonePresent(nodes, fileId, b)
    ensures Present(nodes, fileId, a + b) == a
  {
    PresentIs(nodes, fileId, a, b);
  }

  lemma FirstStripe(nodes: map<FileChunk, int>, fileId: int, stripeId: nat, stripeOffset: nat, start: nat, count: nat,
                    z: Sizes)
    requires Positive(z) && stripeOffset <= z.stripeSize
    ensures var fs, asked := FileFragments(stripeId, stripeOffset, start, count, z.stripeSize, z.chunkSize),
                             AskedFrom(nodes, fileId, stripeId, stripeOffset, start, count, z);
            if count == 0 then fs == [] && asked == []
            else
              var size := if count > z.stripeSize - stripeOffset then z.stripeSize - stripeOffset else count;
              var first := StripeFragments(stripeId, stripeOffset, start, size, z.chunkSize);
              && fs == first + FileFragments(stripeId + 1, 0, start + size, count - size, z.stripeSize, z.chunkSize)
              && asked == Present(nodes, fileId, first)
                          + AskedFrom(nodes, fileId, stripeId + 1, 0, start + size, count - size, z)
  {
    hide StripeFragments, Present;
  }

  /** When the chunks of the first `k` fragments exist, and no others, those are what a read asks for. */
  lemma {:induction false} AskedPrefix(nodes: map<FileChunk, int>, fileId: int, stripeId: nat, stripeOffset: nat,
                                       start: nat, count: nat, z: Sizes, k: nat)
    requires Positive(z) && stripeOffset <= z.stripeSize
    requires var fs := FileFragments(stripeId, stripeOffset, start, count, z.stripeSize, z.chunkSize);
             k <= |fs| && AllPresent(nodes, fileId, fs[..k]) && NonePresent(nodes, fileId, fs[k..])
    ensures AskedFrom(nodes, fileId, stripeId, stripeOffset, start, count, z)
            == FileFragments(stripeId, stripeOffset, start, count, z.stripeSize, z.chunkSize)[..k]
    decreases count, stripeOffset
  {
    hide StripeFragments, Present, FileFragments, AskedFrom, ChunkOfFragment;
    FirstStripe(nodes, fileId, stripeId, stripeOffset, start, count, z);
    if count != 0 {
      var size := if count > z.stripeSize - stripeOffset then z.stripeSize - stripeOffset else count;
      var fs := FileFragments(stripeId, stripeOffset, start, count, z.stripeSize, z.chunkSize);
      var first := StripeFragments(stripeId, stripeOffset, start, size, z.chunkSize);
      var rest := FileFragments(stripeId + 1, 0, start + size, count - size, z.stripeSize, z.chunkSize);
      var n, m := if k < |first| then k else |first|, if k < |first| then 0 else k - |first|;
      assert forall i :: 0 <= i < n ==> first[..n][i] == fs[..k][i];
      assert forall i :: 0 <= i < m ==> rest[..m][i] == fs[..k][|first| + i];
      assert forall i :: 0 <= i < |first| - n ==> first[n..][i] == fs[k..][i];
      assert forall i :: 0 <= i < |rest| - m ==> rest[m..][i] == fs[k..][|first| - n + i];
      PresentThenNone(nodes, fileId, first[..n], first[n..]);
      assert first[..n] + first[n..] == first;
      AskedPrefix(nodes, fileId, stripeId + 1, 0, start + size, count - size, z, m);
      assert fs[..k] == first[..n] + rest[..m];
    }
  }

  /** A read of a range that was written, up to where the request or the file ends, asks for something, and
      what it gets is the bytes of the flat file up to there. */
  lemma KnownRangeIsRead(io: IoState, fileId: int, flat: Flat, base: nat, count: nat, size: nat, z: Sizes,
                         pieces: seq<Response>)
    requires Positive(z) && StoredInside(io, fileId, flat, size, z) && 0 < count
    requires base < size && RangeKnown(flat, base, Min(base + count, size))
    requires AllFresh(io, fileId, Fragments(base, count, z.stripeSize, z.chunkSize))
    requires var asked := Asked(io.nodes, fileId, base, count, z);
             ServesAll(io, fileId, asked, pieces) && |pieces| == |asked|
    ensures Asked(io.nodes, fileId, base, count, z) != []
    ensures Joined(pieces) == FlatBytes(flat, base, Min(base + count, size))
  {
    hide StoredInside, ServesAll, FileFragments, AskedFrom, Joined, FlatBytes, Tiles, AllFresh, AllPresent, NonePresent;
    var fs := Fragments(base, count, z.stripeSize, z.chunkSize);
    FragmentsCut(base, count, z.stripeSize, z.chunkSize);
    var k := CutAt(fs, 0, count, Min(base + count, size) - base);
    ChunksPresent(io, fileId, flat, base, count, size, z, k);
    var (stripeId, stripeOffset) := FirstUnit(base, z.stripeSize);
    AskedPrefix(io.nodes, fileId, stripeId, stripeOffset, 0, count, z, k);
    ReadRefinesFlat(io, fileId, flat, base, count, size, z, k, pieces);
  }

  // ---------------------------------------------------------------------------
  // The two copies
  // ---------------------------------------------------------------------------

  /** What a copy holds at an offset, if that was written. */
  function KnownAt(table: map<FileChunk, int>, sent: seq<Packet>, c: FileChunk, offset: nat): Option<byte> {
    if c in table && DescriptorOf(c) in NodeState(sent, table[c])
       && offset in NodeState(sent, table[c])[DescriptorOf(c)].known
    then Some(NodeState(sent, table[c])[DescriptorOf(c)].known[offset])
    else None
  }

  /** Every byte that was written is held by the primary node of its chunk, and by a different node as well
      unless the replica has missed a write. */
  lemma CopiesAgree(io: IoState, fileId: int, flat: Flat, z: Sizes, p: nat)
    requires Positive(z) && Separated(io) && StoresFile(io, fileId, flat, z) && p in flat
    ensures var place := Locate(p, z.stripeSize, z.chunkSize);
            var c := FileChunk(fileId, place.stripeId, place.chunkId);
            && c in io.nodes && c in io.replicas && io.nodes[c] != io.replicas[c]
            && KnownAt(io.nodes, io.sent, c, place.offset) == Some(flat[p])
            && (c in io.stale || KnownAt(io.replicas, io.sent, c, place.offset) == Some(flat[p]))
  {
    assert StoresByte(io, fileId, p, flat[p], z);
    hide NodeState, Locate, StoresFile;
  }

  /** After the write of a byte its two copies agree if and only if the replica node could be reached, or had
      that byte there already. */
  lemma CopiesAgreeIff(io: IoState, f: Fragment, ctx: WriteContext, o: nat)
    requires Separated(io) && InBuffer(f, ctx.buf) && f.offset <= o < f.offset + f.size
    ensures var io', c, b := IssueWrite(io, f, ctx), ChunkOfFragment(ctx.fileId, f), ctx.buf[f.start + (o - f.offset)];
            && KnownAt(io'.nodes, io'.sent, c, o) == Some(b)
            && (KnownAt(io'.replicas, io'.sent, c, o) == Some(b) <==>
                ReplicaFor(io, c) in io.reachable || KnownAt(io'.replicas, io.sent, c, o) == Some(b))
  {
    var io', c := IssueWrite(io, f, ctx), ChunkOfFragment(ctx.fileId, f);
    CopiesWritten(io, f, ctx, o);
    if ReplicaFor(io, c) !in io.reachable {
      MissedByReplica(io, f, ctx);
    } else {
      ReplicaGets(io, f, ctx);
    }
    hide NodeState, IssueWrite;
  }

  lemma ReplicaGets(io: IoState, f: Fragment, ctx: WriteContext)
    requires Separated(io) && InBuffer(f, ctx.buf) && ReplicaFor(io, ChunkOfFragment(ctx.fileId, f)) in io.reachable
    ensures var io', c, bytes := IssueWrite(io, f, ctx), ChunkOfFragment(ctx.fileId, f),
                                 ctx.buf[f.start..f.start + f.size];
            CopyWritten(io.replicas, io'.replicas, io.sent, io'.sent, c, f.offset, bytes)
  {
    hide CopyWritten, OthersAsBefore;
    TableAfterWrite(io, f, ctx, io.replicas, IssueWrite(io, f, ctx).replicas);
  }

  /** A replica node that cannot be reached stores what it stored before. */
  lemma MissedByReplica(io: IoState, f: Fragment, ctx: WriteContext)
    requires Separated(io) && InBuffer(f, ctx.buf) && ReplicaFor(io, ChunkOfFragment(ctx.fileId, f)) !in io.reachable
    ensures var io', c := IssueWrite(io, f, ctx), ChunkOfFragment(ctx.fileId, f);
            && c in io'.stale && c in io'.replicas && io'.replicas[c] == ReplicaFor(io, c)
            && NodeState(io'.sent, io'.replicas[c]) == NodeState(io.sent, io'.replicas[c])
  {
    hide NodeState, PutChunk, PutReplica, Without;
    var c := ChunkOfFragment(ctx.fileId, f);
    SameFate(io, f, ctx, c);
    NodesAfterWrite(io, f, ctx, ReplicaFor(io, c));
  }

  /** A read of that byte when the primary is down is answered with what was there before the write. */
  lemma StaleRead(io: IoState, f: Fragment, ctx: WriteContext, later: IoState, was: byte, piece: Response)
    requires Separated(io) && InBuffer(f, ctx.buf) && f.size == 1
    requires var c := ChunkOfFragment(ctx.fileId, f);
             ReplicaFor(io, c) !in io.reachable && KnownAt(io.replicas, io.sent, c, f.offset) == Some(was)
             && CopyReaches(io.replicas, io.sent, c, f.offset + 1)
    requires later == IssueWrite(io, f, ctx).(up := later.up, reachable := later.reachable)
    requires !FromPrimary(later, ChunkOfFragment(ctx.fileId, f)) && Serves(later, ctx.fileId, f, piece)
    ensures piece.bytes == [was]
  {
    MissedByReplica(io, f, ctx);
    hide NodeState, IssueWrite;
    assert piece.bytes[0] == was;
  }
}
