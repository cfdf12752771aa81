/** How a byte range of a file is cut into stripes and the stripes into chunks. */
module Striping {

  const STRIPE_ID_INIT: nat := 1
  const CHUNK_ID_INIT: nat := 1

  /** Where one byte of a file is kept. */
  datatype Place = Place(stripeId: nat, chunkId: nat, offset: nat)

  /** A piece of a request that goes to one chunk: `size` bytes at `offset` in the chunk, which
      are the bytes from `start` on in the client's buffer. */
  datatype Fragment = Fragment(stripeId: nat, chunkId: nat, offset: nat, start: nat, size: nat)

  // ---------------------------------------------------------------------------
  // The layout, independently of any loop
  // ---------------------------------------------------------------------------

  function Locate(p: nat, stripeSize: nat, chunkSize: nat): Place
    requires 0 < stripeSize && 0 < chunkSize
  {
    var s := p % stripeSize;
    Place(p / stripeSize + STRIPE_ID_INIT, s / chunkSize + CHUNK_ID_INIT, s % chunkSize)
  }

  function Position(place: Place, stripeSize: nat, chunkSize: nat): int {
    (place.stripeId - STRIPE_ID_INIT) * stripeSize + (place.chunkId - CHUNK_ID_INIT) * chunkSize + place.offset
  }

  /** The layout keeps different bytes apart: a place determines the position it is for. */
  lemma PositionOfLocate(p: nat, stripeSize: nat, chunkSize: nat)
    requires 0 < stripeSize && 0 < chunkSize
    ensures Position(Locate(p, stripeSize, chunkSize), stripeSize, chunkSize) == p
  {
    var s := p % stripeSize;
    assert s == s / chunkSize * chunkSize + s % chunkSize;
  }

  /** Division with remainder is unique. */
  lemma DivModUnique(p: nat, d: nat, q: nat, r: nat)
    requires 0 < d && p == q * d + r && r < d
    ensures p / d == q && p % d == r
  {
    assert (q - p / d) * d == p % d - r;
    MultipleOutside(q - p / d, d);
  }

  lemma MultipleOutside(k: int, d: int)
    requires 0 < d
    ensures 1 <= k ==> d <= k * d
    ensures k <= -1 ==> k * d <= -d
  {
  }

  lemma LocateIs(p: nat, stripeSize: nat, chunkSize: nat, stripe: nat, chunk: nat, offset: nat)
    requires 0 < stripeSize && 0 < chunkSize && offset < chunkSize
    requires chunk * chunkSize + offset < stripeSize
    requires p == stripe * stripeSize + (chunk * chunkSize + offset)
    ensures Locate(p, stripeSize, chunkSize)
            == Place(stripe + STRIPE_ID_INIT, chunk + CHUNK_ID_INIT, offset)
  {
    DivModUnique(p, stripeSize, stripe, chunk * chunkSize + offset);
    DivModUnique(p % stripeSize, chunkSize, chunk, offset);
  }

  // ---------------------------------------------------------------------------
  // The first stripe and the first chunk
  // ---------------------------------------------------------------------------

  /** The unit (stripe or chunk) that a request at `offset` begins with, and where in it. An
      offset on a boundary is taken to be the end of the unit before it, of which nothing is left. */
  function FirstUnit(offset: nat, unit: nat): (u: (nat, nat))
    requires 0 < unit
    ensures 1 <= u.0 && u.1 <= unit && (u.1 == 0 ==> offset == 0)
    ensures offset == (u.0 - 1) * unit + u.1
  {
    if offset % unit == 0 && 0 < offset then (offset / unit, unit)
    else (offset / unit + 1, offset % unit)
  }

  lemma FirstUnitUnique(offset: nat, unit: nat, id: nat, rest: nat)
    requires 0 < unit && 1 <= id && offset == (id - 1) * unit + rest
    requires rest <= unit && (rest == 0 ==> offset == 0)
    ensures FirstUnit(offset, unit) == (id, rest)
  {
    if rest == unit {
      DivModUnique(offset, unit, id, 0);
    } else {
      DivModUnique(offset, unit, id - 1, rest);
    }
  }

  method GetFirstStripe(stripeSize: nat, offset: nat) returns (id: nat, stripeOffset: nat)
    requires 0 < stripeSize
    ensures (id, stripeOffset) == FirstUnit(offset, stripeSize)
  {
    var remaining: nat := offset;
    id := STRIPE_ID_INIT;
    while remaining > stripeSize
      invariant 1 <= id
      invariant offset == (id - 1) * stripeSize + remaining
      invariant remaining == 0 ==> offset == 0
    {
      id := id + 1;
      remaining := remaining - stripeSize;
    }
    stripeOffset := remaining;
    FirstUnitUnique(offset, stripeSize, id, stripeOffset);
  }

  method GetFirstChunk(chunkSize: nat, offset: nat) returns (id: nat, chunkOffset: nat)
    requires 0 < chunkSize
    ensures (id, chunkOffset) == FirstUnit(offset, chunkSize)
  {
    var remaining: nat := offset;
    id := CHUNK_ID_INIT;
    while remaining > chunkSize
      invariant 1 <= id
      invariant offset == (id - 1) * chunkSize + remaining
      invariant remaining == 0 ==> offset == 0
    {
      id := id + 1;
      remaining := remaining - chunkSize;
    }
    chunkOffset := remaining;
    FirstUnitUnique(offset, chunkSize, id, chunkOffset);
  }

  // ---------------------------------------------------------------------------
  // The fragments of a request
  // ---------------------------------------------------------------------------

  /** The fragments of `count` bytes of a stripe, from `chunkOffset` in chunk `chunkId` on. */
  function ChunkFragments(stripeId: nat, chunkId: nat, chunkOffset: nat, start: nat, count: nat, chunkSize: nat)
    : (fs: seq<Fragment>)
    requires 0 < chunkSize && chunkOffset <= chunkSize
    decreases count, chunkOffset
  {
    if count == 0 then []
    else
      var size := if count > chunkSize - chunkOffset then chunkSize - chunkOffset else count;
      [Fragment(stripeId, chunkId, chunkOffset, start, size)]
        + ChunkFragments(stripeId, chunkId + 1, 0, start + size, count - size, chunkSize)
  }

  lemma ChunkFragmentsFirst(stripeId: nat, chunkId: nat, chunkOffset: nat, start: nat, count: nat, chunkSize: nat)
    requires 0 < chunkSize && chunkOffset <= chunkSize
    ensures var fs := ChunkFragments(stripeId, chunkId, chunkOffset, start, count, chunkSize);
            if count == 0 then fs == [] else fs != [] && fs[0].stripeId == stripeId && fs[0].chunkId == chunkId
  {
  }

  /** One turn of a loop over the chunks of a stripe. */
  lemma ChunkFragmentsStep(done: seq<Fragment>, f: Fragment, count: nat, chunkSize: nat)
    requires 0 < chunkSize && f.offset <= chunkSize && 0 < count
    requires f.size == if count > chunkSize - f.offset then chunkSize - f.offset else count
    ensures done + ChunkFragments(f.stripeId, f.chunkId, f.offset, f.start, count, chunkSize)
            == (done + [f]) + ChunkFragments(f.stripeId, f.chunkId + 1, 0, f.start + f.size, count - f.size, chunkSize)
  {
  }

  /** The fragments of `count` bytes of a stripe from `stripeOffset` on. */
  function StripeFragments(stripeId: nat, stripeOffset: nat, start: nat, count: nat, chunkSize: nat)
    : (fs: seq<Fragment>)
    requires 0 < chunkSize
  {
    var (chunkId, chunkOffset) := FirstUnit(stripeOffset, chunkSize);
    ChunkFragments(stripeId, chunkId, chunkOffset, start, count, chunkSize)
  }

  /** The fragments of `count` bytes from `stripeOffset` in stripe `stripeId` on. */
  function FileFragments(stripeId: nat, stripeOffset: nat, start: nat, count: nat, stripeSize: nat, chunkSize: nat)
    : (fs: seq<Fragment>)
    requires 0 < stripeSize && 0 < chunkSize && stripeOffset <= stripeSize
    decreases count, stripeOffset
  {
    if count == 0 then []
    else
      var size := if count > stripeSize - stripeOffset then stripeSize - stripeOffset else count;
      StripeFragments(stripeId, stripeOffset, start, size, chunkSize)
        + FileFragments(stripeId + 1, 0, start + size, count - size, stripeSize, chunkSize)
  }

  /** All fragments of a request for `count` bytes of a file from position `offset` on. */
  function Fragments(offset: nat, count: nat, stripeSize: nat, chunkSize: nat): (fs: seq<Fragment>)
    requires 0 < stripeSize && 0 < chunkSize
  {
    var (stripeId, stripeOffset) := FirstUnit(offset, stripeSize);
    FileFragments(stripeId, stripeOffset, 0, count, stripeSize, chunkSize)
  }

  /** `fs` tiles the bytes from `start` to `end` of the buffer, in order and without gaps. */
  ghost predicate Tiles(fs: seq<Fragment>, start: nat, end: nat) {
    if fs == [] then start == end
    else fs[0].start == start && Tiles(fs[1..], start + fs[0].size, end)
  }

  /** The fragment begins where its place in the layout is. */
  predicate AtPosition(f: Fragment, base: nat, stripeSize: nat, chunkSize: nat) {
    && 1 <= f.stripeId && 1 <= f.chunkId
    && base + f.start == Position(Place(f.stripeId, f.chunkId, f.offset), stripeSize, chunkSize)
  }

  /** Every byte of the fragment goes to the place the layout gives it, `base` being the file
      position of the first byte of the buffer. */
  ghost predicate WellPlaced(f: Fragment, base: nat, stripeSize: nat, chunkSize: nat)
    requires 0 < stripeSize && 0 < chunkSize
  {
    && AtPosition(f, base, stripeSize, chunkSize)
    && f.offset + f.size <= chunkSize
    && 0 < f.offset + f.size
    && (forall p :: base + f.start <= p < base + f.start + f.size ==>
          Locate(p, stripeSize, chunkSize) == Place(f.stripeId, f.chunkId, f.offset + (p - base - f.start)))
  }

  /** `f` is for an earlier chunk than `f'`. */
  predicate Before(f: Fragment, f': Fragment) {
    f.stripeId < f'.stripeId || (f.stripeId == f'.stripeId && f.chunkId < f'.chunkId)
  }

  ghost predicate Ordered(fs: seq<Fragment>) {
    forall i, j :: 0 <= i < j < |fs| ==> Before(fs[i], fs[j])
  }

  lemma TilesConcat(a: seq<Fragment>, b: seq<Fragment>, start: nat, middle: nat, end: nat)
    requires Tiles(a, start, middle) && Tiles(b, middle, end)
    ensures Tiles(a + b, start, end)
  {
    if a == [] {
      assert a + b == b;
    } else {
      TilesConcat(a[1..], b, start + a[0].size, middle, end);
      assert (a + b)[1..] == a[1..] + b;
    }
  }

  /** Every byte of the range is in exactly the fragment that the tiling says. */
  lemma TilesCover(fs: seq<Fragment>, start: nat, end: nat, b: nat) returns (k: nat)
    requires Tiles(fs, start, end) && start <= b < end
    ensures k < |fs| && fs[k].start <= b < fs[k].start + fs[k].size
  {
    if b < start + fs[0].size {
      k := 0;
    } else {
      var k' := TilesCover(fs[1..], start + fs[0].size, end, b);
      k := k' + 1;
    }
  }

  /** What holds of the fragments of any part of a request. */
  ghost predicate Cut(fs: seq<Fragment>, base: nat, start: nat, end: nat, stripeSize: nat, chunkSize: nat)
    requires 0 < stripeSize && 0 < chunkSize
  {
    && Tiles(fs, start, end)
    && (forall i :: 0 <= i < |fs| ==> WellPlaced(fs[i], base, stripeSize, chunkSize))
    && Ordered(fs)
  }

  lemma CutConcat(a: seq<Fragment>, b: seq<Fragment>, base: nat, start: nat, middle: nat, end: nat,
                  stripeSize: nat, chunkSize: nat)
    requires 0 < stripeSize && 0 < chunkSize
    requires Cut(a, base, start, middle, stripeSize, chunkSize)
    requires Cut(b, base, middle, end, stripeSize, chunkSize)
    requires forall i, j :: 0 <= i < |a| && 0 <= j < |b| ==> Before(a[i], b[j])
    ensures Cut(a + b, base, start, end, stripeSize, chunkSize)
  {
    TilesConcat(a, b, start, middle, end);
  }

  lemma CutOne(f: Fragment, base: nat, stripeSize: nat, chunkSize: nat)
    requires 0 < stripeSize && 0 < chunkSize && WellPlaced(f, base, stripeSize, chunkSize)
    ensures Cut([f], base, f.start, f.start + f.size, stripeSize, chunkSize)
  {
  }

  lemma CutNone(base: nat, start: nat, stripeSize: nat, chunkSize: nat)
    requires 0 < stripeSize && 0 < chunkSize
    ensures Cut([], base, start, start, stripeSize, chunkSize)
  {
  }

  /** A fragment of `size` bytes at `offset` in chunk `chunkId` is well placed. */
  lemma FragmentWellPlaced(stripeId: nat, chunkId: nat, offset: nat, start: nat, size: nat, base: nat,
                           stripeSize: nat, chunkSize: nat)
    requires 0 < stripeSize && 0 < chunkSize && 1 <= stripeId && 1 <= chunkId
    requires offset + size <= chunkSize && 0 < offset + size
    requires (chunkId - 1) * chunkSize + offset + size <= stripeSize
    requires base + start == (stripeId - 1) * stripeSize + ((chunkId - 1) * chunkSize + offset)
    ensures WellPlaced(Fragment(stripeId, chunkId, offset, start, size), base, stripeSize, chunkSize)
  {
    forall p | base + start <= p < base + start + size
      ensures Locate(p, stripeSize, chunkSize) == Place(stripeId, chunkId, offset + (p - base - start))
    {
      LocateIs(p, stripeSize, chunkSize, stripeId - 1, chunkId - 1, offset + (p - base - start));
    }
  }

  lemma {:induction false} ChunkFragmentsCut(stripeId: nat, chunkId: nat, chunkOffset: nat, start: nat, count: nat,
                                             base: nat, stripeSize: nat, chunkSize: nat)
    requires 0 < stripeSize && 0 < chunkSize && 1 <= stripeId && 1 <= chunkId && chunkOffset <= chunkSize
    requires (chunkId - 1) * chunkSize + chunkOffset + count <= stripeSize
    requires base + start == (stripeId - 1) * stripeSize + ((chunkId - 1) * chunkSize + chunkOffset)
    ensures var fs := ChunkFragments(stripeId, chunkId, chunkOffset, start, count, chunkSize);
            && Cut(fs, base, start, start + count, stripeSize, chunkSize)
            && forall i :: 0 <= i < |fs| ==> fs[i].stripeId == stripeId && chunkId <= fs[i].chunkId
    decreases count, chunkOffset
  {
    hide Cut, WellPlaced;
    CutNone(base, start + count, stripeSize, chunkSize);
    if count != 0 {
      var size := if count > chunkSize - chunkOffset then chunkSize - chunkOffset else count;
      var f := Fragment(stripeId, chunkId, chunkOffset, start, size);
      FragmentWellPlaced(stripeId, chunkId, chunkOffset, start, size, base, stripeSize, chunkSize);
      var rest := ChunkFragments(stripeId, chunkId + 1, 0, start + size, count - size, chunkSize);
      assert Cut(rest, base, start + size, start + count, stripeSize, chunkSize)
        && forall i :: 0 <= i < |rest| ==> rest[i].stripeId == stripeId && chunkId + 1 <= rest[i].chunkId by {
        if count - size != 0 {
          assert (chunkId + 1 - 1) * chunkSize == (chunkId - 1) * chunkSize + chunkSize;
          ChunkFragmentsCut(stripeId, chunkId + 1, 0, start + size, count - size, base, stripeSize, chunkSize);
        }
      }
      CutOne(f, base, stripeSize, chunkSize);
      CutConcat([f], rest, base, start, start + size, start + count, stripeSize, chunkSize);
    }
  }

  lemma {:induction false} FileFragmentsCut(stripeId: nat, stripeOffset: nat, start: nat, count: nat,
                                            base: nat, stripeSize: nat, chunkSize: nat)
    requires 0 < stripeSize && 0 < chunkSize && 1 <= stripeId && stripeOffset <= stripeSize
    requires base + start == (stripeId - 1) * stripeSize + stripeOffset
    ensures var fs := FileFragments(stripeId, stripeOffset, start, count, stripeSize, chunkSize);
            && Cut(fs, base, start, start + count, stripeSize, chunkSize)
            && forall i :: 0 <= i < |fs| ==> stripeId <= fs[i].stripeId
    decreases count, stripeOffset
  {
    hide Cut, FirstUnit;
    CutNone(base, start + count, stripeSize, chunkSize);
    if count != 0 {
      var size := if count > stripeSize - stripeOffset then stripeSize - stripeOffset else count;
      var (chunkId, chunkOffset) := FirstUnit(stripeOffset, chunkSize);
      var first := StripeFragments(stripeId, stripeOffset, start, size, chunkSize);
      ChunkFragmentsCut(stripeId, chunkId, chunkOffset, start, size, base, stripeSize, chunkSize);
      var rest := FileFragments(stripeId + 1, 0, start + size, count - size, stripeSize, chunkSize);
      assert Cut(rest, base, start + size, start + count, stripeSize, chunkSize)
        && forall i :: 0 <= i < |rest| ==> stripeId + 1 <= rest[i].stripeId by {
        if count - size != 0 {
          assert (stripeId + 1 - 1) * stripeSize == (stripeId - 1) * stripeSize + stripeSize;
          FileFragmentsCut(stripeId + 1, 0, start + size, count - size, base, stripeSize, chunkSize);
        }
      }
      CutConcat(first, rest, base, start, start + size, start + count, stripeSize, chunkSize);
    }
  }

  /** The fragments of a request tile its range in order, each goes to the place the layout gives
      its bytes and fits its chunk, and no chunk gets two of them. This holds for all sizes, also
      when the chunk size does not divide the stripe size. */
  lemma FragmentsCut(offset: nat, count: nat, stripeSize: nat, chunkSize: nat)
    requires 0 < stripeSize && 0 < chunkSize
    ensures Cut(Fragments(offset, count, stripeSize, chunkSize), offset, 0, count, stripeSize, chunkSize)
    ensures 0 < count ==> Fragments(offset, count, stripeSize, chunkSize) != []
  {
    var (stripeId, stripeOffset) := FirstUnit(offset, stripeSize);
    FileFragmentsCut(stripeId, stripeOffset, 0, count, offset, stripeSize, chunkSize);
  }

  /** A request has an empty fragment just when it begins on a chunk boundary inside a stripe,
      and then it is the first one, at the end of the chunk before the boundary. */
  lemma EmptyFragments(offset: nat, count: nat, stripeSize: nat, chunkSize: nat, i: nat)
    requires 0 < stripeSize && 0 < chunkSize
    requires i < |Fragments(offset, count, stripeSize, chunkSize)|
    ensures Fragments(offset, count, stripeSize, chunkSize)[i].size == 0 <==>
              i == 0 && 0 < offset % stripeSize && offset % stripeSize % chunkSize == 0
  {
    var (stripeId, stripeOffset) := FirstUnit(offset, stripeSize);
    if stripeOffset == stripeSize {
      assert FileFragments(stripeId, stripeOffset, 0, count, stripeSize, chunkSize)
        == [] + FileFragments(stripeId + 1, 0, 0, count, stripeSize, chunkSize);
      EmptyFileFragments(stripeId + 1, 0, 0, count, stripeSize, chunkSize, i);
    } else {
      EmptyFileFragments(stripeId, stripeOffset, 0, count, stripeSize, chunkSize, i);
    }
  }

  lemma {:induction false} EmptyFileFragments(stripeId: nat, stripeOffset: nat, start: nat, count: nat,
                                              stripeSize: nat, chunkSize: nat, i: nat)
    requires 0 < stripeSize && 0 < chunkSize && stripeOffset < stripeSize
    requires i < |FileFragments(stripeId, stripeOffset, start, count, stripeSize, chunkSize)|
    ensures FileFragments(stripeId, stripeOffset, start, count, stripeSize, chunkSize)[i].size == 0 <==>
              i == 0 && 0 < stripeOffset && stripeOffset % chunkSize == 0
    decreases count
  {
    var size := if count > stripeSize - stripeOffset then stripeSize - stripeOffset else count;
    var (chunkId, chunkOffset) := FirstUnit(stripeOffset, chunkSize);
    var first := StripeFragments(stripeId, stripeOffset, start, size, chunkSize);
    if i < |first| {
      EmptyChunkFragments(stripeId, chunkId, chunkOffset, start, size, chunkSize, i);
    } else {
      EmptyFileFragments(stripeId + 1, 0, start + size, count - size, stripeSize, chunkSize, i - |first|);
    }
  }

  lemma {:induction false} EmptyChunkFragments(stripeId: nat, chunkId: nat, chunkOffset: nat, start: nat, count: nat,
                                               chunkSize: nat, i: nat)
    requires 0 < chunkSize && chunkOffset <= chunkSize
    requires i < |ChunkFragments(stripeId, chunkId, chunkOffset, start, count, chunkSize)|
    ensures ChunkFragments(stripeId, chunkId, chunkOffset, start, count, chunkSize)[i].size == 0 <==>
              i == 0 && chunkOffset == chunkSize
    decreases count, chunkOffset
  {
    if i != 0 {
      var size := if count > chunkSize - chunkOffset then chunkSize - chunkOffset else count;
      EmptyChunkFragments(stripeId, chunkId + 1, 0, start + size, count - size, chunkSize, i - 1);
    }
  }

  // ---------------------------------------------------------------------------
  // How one fragment follows another
  // ---------------------------------------------------------------------------

  /** `f` starts a chunk other than the first of its stripe, and `before` reaches the end of the
      chunk before it. */
  predicate Follows(before: Fragment, f: Fragment, chunkSize: nat) {
    && before.stripeId == f.stripeId
    && before.chunkId + 1 == f.chunkId
    && before.offset + before.size == chunkSize
  }

  predicate StartsInnerChunk(f: Fragment) {
    f.offset == 0 && 1 < f.chunkId
  }

  /** A fragment that starts a chunk in the middle of a stripe comes after one that reaches the
      end of the chunk before. */
  ghost predicate Linked(fs: seq<Fragment>, chunkSize: nat) {
    forall i :: 0 < i < |fs| && StartsInnerChunk(fs[i]) ==> Follows(fs[i - 1], fs[i], chunkSize)
  }

  lemma {:induction false} ChunkFragmentsLinked(stripeId: nat, chunkId: nat, chunkOffset: nat, start: nat, count: nat,
                                                chunkSize: nat)
    requires 0 < chunkSize && chunkOffset <= chunkSize
    ensures Linked(ChunkFragments(stripeId, chunkId, chunkOffset, start, count, chunkSize), chunkSize)
    decreases count, chunkOffset
  {
    if count != 0 {
      var size := if count > chunkSize - chunkOffset then chunkSize - chunkOffset else count;
      var rest := ChunkFragments(stripeId, chunkId + 1, 0, start + size, count - size, chunkSize);
      ChunkFragmentsLinked(stripeId, chunkId + 1, 0, start + size, count - size, chunkSize);
      ChunkFragmentsFirst(stripeId, chunkId + 1, 0, start + size, count - size, chunkSize);
      var fs := [Fragment(stripeId, chunkId, chunkOffset, start, size)] + rest;
      forall i | 0 < i < |fs| && StartsInnerChunk(fs[i]) ensures Follows(fs[i - 1], fs[i], chunkSize) {
        assert fs[i] == rest[i - 1];
        assert 1 < i ==> fs[i - 1] == rest[i - 2];
      }
    }
  }

  lemma {:induction false} FileFragmentsLinked(stripeId: nat, stripeOffset: nat, start: nat, count: nat,
                                               stripeSize: nat, chunkSize: nat)
    requires 0 < stripeSize && 0 < chunkSize && stripeOffset <= stripeSize
    ensures var fs := FileFragments(stripeId, stripeOffset, start, count, stripeSize, chunkSize);
            Linked(fs, chunkSize) && (fs != [] ==> !StartsInnerChunk(fs[0]))
    decreases count, stripeOffset
  {
    if count != 0 {
      var size := if count > stripeSize - stripeOffset then stripeSize - stripeOffset else count;
      var (chunkId, chunkOffset) := FirstUnit(stripeOffset, chunkSize);
      var first := StripeFragments(stripeId, stripeOffset, start, size, chunkSize);
      var rest := FileFragments(stripeId + 1, 0, start + size, count - size, stripeSize, chunkSize);
      ChunkFragmentsLinked(stripeId, chunkId, chunkOffset, start, size, chunkSize);
      ChunkFragmentsFirst(stripeId, chunkId, chunkOffset, start, size, chunkSize);
      FileFragmentsLinked(stripeId + 1, 0, start + size, count - size, stripeSize, chunkSize);
      assert first != [] ==> !StartsInnerChunk(first[0]);
      var fs := first + rest;
      forall i | 0 < i < |fs| && StartsInnerChunk(fs[i]) ensures Follows(fs[i - 1], fs[i], chunkSize) {
        if i < |first| {
          assert fs[i] == first[i] && fs[i - 1] == first[i - 1];
        } else {
          assert fs[i] == rest[i - |first|];
          assert |first| < i ==> fs[i - 1] == rest[i - |first| - 1];
        }
      }
    }
  }

  lemma FragmentsLinked(offset: nat, count: nat, stripeSize: nat, chunkSize: nat)
    requires 0 < stripeSize && 0 < chunkSize
    ensures var fs := Fragments(offset, count, stripeSize, chunkSize);
            Linked(fs, chunkSize) && (fs != [] ==> !StartsInnerChunk(fs[0]))
  {
    var (stripeId, stripeOffset) := FirstUnit(offset, stripeSize);
    FileFragmentsLinked(stripeId, stripeOffset, 0, count, stripeSize, chunkSize);
  }

  // ---------------------------------------------------------------------------
  // Where fragments start
  // ---------------------------------------------------------------------------

  lemma {:induction false} LaterChunkFragments(stripeId: nat, chunkId: nat, chunkOffset: nat, start: nat, count: nat,
                                               chunkSize: nat)
    requires 0 < chunkSize && chunkOffset <= chunkSize
    ensures var fs := ChunkFragments(stripeId, chunkId, chunkOffset, start, count, chunkSize);
            && (fs != [] ==> fs[0].offset == chunkOffset)
            && forall i :: 0 < i < |fs| ==> fs[i].offset == 0
    decreases count, chunkOffset
  {
    if count != 0 {
      var size := if count > chunkSize - chunkOffset then chunkSize - chunkOffset else count;
      LaterChunkFragments(stripeId, chunkId + 1, 0, start + size, count - size, chunkSize);
    }
  }

  lemma {:induction false} LaterFileFragments(stripeId: nat, stripeOffset: nat, start: nat, count: nat,
                                              stripeSize: nat, chunkSize: nat)
    requires 0 < stripeSize && 0 < chunkSize && stripeOffset <= stripeSize
    ensures var fs := FileFragments(stripeId, stripeOffset, start, count, stripeSize, chunkSize);
            && (fs != [] && stripeOffset == 0 ==> fs[0].offset == 0)
            && forall i :: 0 < i < |fs| ==> fs[i].offset == 0
    decreases count, stripeOffset
  {
    if count != 0 {
      var size := if count > stripeSize - stripeOffset then stripeSize - stripeOffset else count;
      var (chunkId, chunkOffset) := FirstUnit(stripeOffset, chunkSize);
      var first := StripeFragments(stripeId, stripeOffset, start, size, chunkSize);
      var rest := FileFragments(stripeId + 1, 0, start + size, count - size, stripeSize, chunkSize);
      LaterChunkFragments(stripeId, chunkId, chunkOffset, start, size, chunkSize);
      LaterFileFragments(stripeId + 1, 0, start + size, count - size, stripeSize, chunkSize);
    }
  }

  /** All fragments of a request but the first begin at the start of their chunks. */
  lemma LaterFragments(offset: nat, count: nat, stripeSize: nat, chunkSize: nat, i: nat)
    requires 0 < stripeSize && 0 < chunkSize && 0 < i < |Fragments(offset, count, stripeSize, chunkSize)|
    ensures Fragments(offset, count, stripeSize, chunkSize)[i].offset == 0
  {
    var (stripeId, stripeOffset) := FirstUnit(offset, stripeSize);
    LaterFileFragments(stripeId, stripeOffset, 0, count, stripeSize, chunkSize);
    assert FileFragments(stripeId, stripeOffset, 0, count, stripeSize, chunkSize)[i].offset == 0;
  }
}
