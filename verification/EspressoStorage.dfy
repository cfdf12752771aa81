/** The chunk store of one Espresso node: chunks of varying size kept in one flat data file. */
module EspressoStorage {
  import opened Extents
  import opened Allocation

  newtype byte = x: int | 0 <= x < 256

  /** Names a chunk on a node. */
  datatype Descriptor = Descriptor(fileId: int, stripeId: int, chunkNum: int)

  const ERROR: int := -1

  /** The bytes that an extent of the data file addresses. */
  function Bytes(file: seq<byte>, a: Extent): (b: seq<byte>)
    requires InBounds(a, |file|)
    ensures |b| == a.size
  {
    file[a.offset..a.offset + a.size]
  }

  lemma BytesAt(file: seq<byte>, a: Extent)
    requires InBounds(a, |file|)
    ensures forall i :: 0 <= i < a.size ==> Bytes(file, a)[i] == file[a.offset + i]
  {
  }

  /** The bytes of every chunk. */
  function ContentsOf(m: map<Descriptor, Extent>, file: seq<byte>): (c: map<Descriptor, seq<byte>>)
    requires forall d :: d in m ==> InBounds(m[d], |file|)
    ensures c.Keys == m.Keys
    ensures forall d :: d in m ==> c[d] == Bytes(file, m[d])
  {
    map d | d in m :: Bytes(file, m[d])
  }

  /** The file after `buf` is written to it at position `at`. */
  function Overwritten(file: seq<byte>, at: nat, buf: seq<byte>): (file': seq<byte>)
    requires at + |buf| <= |file|
    ensures |file'| == |file|
    ensures |buf| == 0 ==> file' == file
  {
    file[..at] + buf + file[at + |buf|..]
  }

  lemma OverwrittenAt(file: seq<byte>, at: nat, buf: seq<byte>)
    requires at + |buf| <= |file|
    ensures forall p :: 0 <= p < |file| ==>
              Overwritten(file, at, buf)[p] == if at <= p < at + |buf| then buf[p - at] else file[p]
  {
  }

  /** Every chunk other than `d` is still there, with the same bytes, and there are no new ones. */
  ghost predicate OthersKept(c: map<Descriptor, seq<byte>>, c': map<Descriptor, seq<byte>>, d: Descriptor) {
    && c'.Keys == c.Keys + {d}
    && forall x :: x in c && x != d ==> c'[x] == c[x]
  }

  /** When `d` takes a new extent and the file is written only inside it, other chunks keep their bytes. */
  lemma OtherChunksKept(m: map<Descriptor, Extent>, m': map<Descriptor, Extent>, d: Descriptor,
                        file: seq<byte>, at: nat, buf: seq<byte>)
    requires AllDisjoint(m, |file|) && AllDisjoint(m', |file|) && at + |buf| <= |file|
    requires d in m' && m'[d].offset <= at && at + |buf| <= m'[d].offset + m'[d].size
    requires m' == m[d := m'[d]]
    ensures forall x :: x in m ==> InBounds(m[x], |file|)
    ensures forall x :: x in m' ==> InBounds(m'[x], |file|)
    ensures OthersKept(ContentsOf(m, file), ContentsOf(m', Overwritten(file, at, buf)), d)
  {
    hide Bytes, Overwritten;
    AllPlaced(m, |file|);
    AllPlaced(m', |file|);
    OverwrittenAt(file, at, buf);
    forall x | x in m && x != d ensures Bytes(Overwritten(file, at, buf), m[x]) == Bytes(file, m[x]) {
      assert Separate(m', x, d);
      BytesAt(file, m[x]);
      BytesAt(Overwritten(file, at, buf), m[x]);
    }
  }

  /** `new_` is what a chunk may hold after `buf` is written at `offset` into `old_`: the range
      holds `buf`, every other old byte is kept, and the bytes of a gap between the old end and
      `offset` are unspecified. */
  ghost predicate Written(old_: seq<byte>, new_: seq<byte>, offset: nat, buf: seq<byte>) {
    && |new_| == (if offset + |buf| > |old_| then offset + |buf| else |old_|)
    && (forall i :: 0 <= i < |buf| ==> new_[offset + i] == buf[i])
    && (forall i :: 0 <= i < |old_| && !(offset <= i < offset + |buf|) ==> new_[i] == old_[i])
  }

  /** The bytes of a chunk, none when there is no such chunk. */
  function ChunkOf(c: map<Descriptor, seq<byte>>, d: Descriptor): seq<byte> {
    if d in c then c[d] else []
  }

  /** At most `count` bytes of a chunk from `offset` on, stopping at the end of the chunk. */
  function Clip(chunk: seq<byte>, offset: nat, count: nat): seq<byte>
  {
    if offset + count <= |chunk| then chunk[offset..offset + count]
    else if offset <= |chunk| then chunk[offset..]
    else []
  }

  /** Writing `buf` at `offset` inside extent `a`, which begins with the bytes `old_`. */
  lemma WrittenInto(file: seq<byte>, a: Extent, old_: seq<byte>, offset: nat, buf: seq<byte>)
    requires InBounds(a, |file|)
    requires a.size == if offset + |buf| > |old_| then offset + |buf| else |old_|
    requires old_ <= Bytes(file, a)
    ensures a.offset + offset + |buf| <= |file|
    ensures Written(old_, Bytes(Overwritten(file, a.offset + offset, buf), a), offset, buf)
  {
  }

  /** Chunk `d` has grown to `size` bytes of which the old ones come first; no other chunk changed. */
  ghost predicate Grown(c: map<Descriptor, seq<byte>>, c': map<Descriptor, seq<byte>>, d: Descriptor, size: int) {
    && d in c
    && OthersKept(c, c', d)
    && |c'[d]| == size
    && c[d] <= c'[d]
  }

  lemma GrownInto(file: seq<byte>, a: Extent, buf: seq<byte>, n: nat)
    requires InBounds(a, |file|) && |buf| == a.size && n <= |buf|
    ensures buf[..n] <= Bytes(Overwritten(file, a.offset, buf), a)
  {
  }

  lemma CopiedBack(m: map<Descriptor, Extent>, m': map<Descriptor, Extent>, d: Descriptor,
                   file: seq<byte>, old_: seq<byte>, beyond: seq<byte>)
    requires AllDisjoint(m, |file|) && AllDisjoint(m', |file|)
    requires d in m && d in m' && m' == m[d := m'[d]]
    requires InBounds(m[d], |file|) && InBounds(m'[d], |file|)
    requires old_ == Bytes(file, m[d]) && |old_ + beyond| == m'[d].size
    ensures forall x :: x in m ==> InBounds(m[x], |file|)
    ensures forall x :: x in m' ==> InBounds(m'[x], |file|)
    ensures Grown(ContentsOf(m, file),
                  ContentsOf(m', Overwritten(file, m'[d].offset, old_ + beyond)), d, m'[d].size)
  {
    hide Bytes, Overwritten, OthersKept, ContentsOf, AllDisjoint;
    OtherChunksKept(m, m', d, file, m'[d].offset, old_ + beyond);
    GrownInto(file, m'[d], old_ + beyond, |old_|);
    assert (old_ + beyond)[..|old_|] == old_;
  }

  /** Naming an extent changes no other chunk. */
  lemma Created(m: map<Descriptor, Extent>, m': map<Descriptor, Extent>, d: Descriptor, file: seq<byte>)
    requires AllDisjoint(m, |file|) && AllDisjoint(m', |file|)
    requires d in m' && m' == m[d := m'[d]]
    ensures forall x :: x in m ==> InBounds(m[x], |file|)
    ensures forall x :: x in m' ==> InBounds(m'[x], |file|)
    ensures OthersKept(ContentsOf(m, file), ContentsOf(m', file), d)
  {
    AllPlaced(m, |file|);
    AllPlaced(m', |file|);
  }

  lemma NothingWritten(c: map<Descriptor, seq<byte>>, d: Descriptor)
    requires d in c
    ensures OthersKept(c, c, d) && ChunkOf(c, d) <= c[d]
  {
  }

  /** A write inside the chunk `d`, which may just have been created or have grown. */
  lemma ChunkWritten(c: map<Descriptor, seq<byte>>, m: map<Descriptor, Extent>, d: Descriptor,
                     file: seq<byte>, file': seq<byte>, offset: nat, buf: seq<byte>)
    requires AllDisjoint(m, |file|) && d in m && InBounds(m[d], |file|) && offset + |buf| <= m[d].size
    requires m[d].size == if offset + |buf| > |ChunkOf(c, d)| then offset + |buf| else |ChunkOf(c, d)|
    requires forall x :: x in m ==> InBounds(m[x], |file|)
    requires OthersKept(c, ContentsOf(m, file), d) && ChunkOf(c, d) <= Bytes(file, m[d])
    requires file' == Overwritten(file, m[d].offset + offset, buf)
    ensures OthersKept(c, ContentsOf(m, file'), d)
    ensures Written(ChunkOf(c, d), ContentsOf(m, file')[d], offset, buf)
  {
    hide Bytes, Overwritten;
    OtherChunksKept(m, m, d, file, m[d].offset + offset, buf);
    WrittenInto(file, m[d], ChunkOf(c, d), offset, buf);
  }

  /** Where a write that ends at `size` leaves chunk `d`. A new chunk and a chunk that must grow
      go to the lowest place where they fit; a chunk that is large enough stays. A new chunk of
      no bytes takes a whole free extent away with it. */
  ghost predicate Placement(m: map<Descriptor, Extent>, f: FreeSet, m': map<Descriptor, Extent>, f': FreeSet,
                            d: Descriptor, size: int) {
    && d in m' && m' == m[d := m'[d]]
    && (d !in m && 0 < size ==> Allocates(f, f', m'[d], size))
    && (d !in m && size == 0 ==> m'[d].size == 0 && m'[d].offset in f && f' == f - {m'[d].offset})
    && (d in m && m[d].size < size ==> Moves(f, f', m[d], m'[d], size))
    && (d in m && size <= m[d].size ==> m' == m && f' == f)
  }

  class EspressoStore {
    const maxSize: nat
    var data: seq<byte>
    var metadata: map<Descriptor, Extent>
    var freeExtents: FreeSet

    ghost predicate Valid()
      reads this
    {
      && |data| == maxSize
      && AllDisjoint(metadata, maxSize)
      && Canonical(freeExtents, maxSize)
      && FreeIsComplement(metadata, freeExtents, maxSize)
    }

    /** The abstract store: the bytes of every chunk. */
    ghost function Contents(): (c: map<Descriptor, seq<byte>>)
      requires Valid()
      reads this
      ensures c.Keys == metadata.Keys
      ensures forall d :: d in metadata ==> |c[d]| == metadata[d].size
    {
      AllPlaced(metadata, maxSize);
      ContentsOf(metadata, data)
    }

    /** A fresh store is one free extent. */
    constructor (maxSize: nat)
      requires 0 < maxSize
      ensures Valid() && this.maxSize == maxSize
      ensures metadata == map[] && freeExtents == map[0 := maxSize]
      ensures Contents() == map[]
    {
      this.maxSize := maxSize;
      data := seq(maxSize, _ => 0);
      metadata := map[];
      freeExtents := map[0 := maxSize];
      new;
      forall p ensures Free(freeExtents, p) <==> 0 <= p < maxSize {
        assert 0 in freeExtents;
      }
    }

    // -------------------------------------------------------------------------
    // The extent allocator
    // -------------------------------------------------------------------------

    /** The search loop of the allocator: the first extent, in offset order, that is large enough. */
    method FindFit(size: int) returns (it: Iter)
      ensures it.End? ==> forall o :: o in freeExtents ==> freeExtents[o] < size
      ensures it.At? ==> it.key in freeExtents && size <= freeExtents[it.key]
      ensures it.At? ==> forall o :: o in freeExtents && o < it.key ==> freeExtents[o] < size
    {
      it := Begin(freeExtents);
      ghost var rest := freeExtents.Keys;
      while it.At?
        invariant it.At? ==> it.key in rest
        invariant it.End? ==> rest == {}
        invariant rest <= freeExtents.Keys
        invariant forall o :: o in rest && it.At? ==> it.key <= o
        invariant forall o :: o in freeExtents && o !in rest ==> freeExtents[o] < size && (it.At? ==> o < it.key)
        decreases rest
      {
        if size <= freeExtents[it.key] {
          return;
        }
        rest := rest - {it.key};
        it := LowerBound(freeExtents, it.key + 1);
      }
    }

    /** First fit. On failure the caller's extent is left as it was. A request for no bytes
        inserts nothing (the rest of the extent has the same offset as the extent itself) and
        then erases the extent it came from. */
    method AllocateChunk(a: Extent, size: int) returns (ok: bool, a': Extent)
      requires Canonical(freeExtents, maxSize)
      requires 0 <= size
      modifies this`freeExtents
      ensures !ok ==> a' == a && freeExtents == old(freeExtents)
      ensures 0 < size ==> (ok <==> HasRun(old(freeExtents), size))
      ensures 0 < size && ok ==> Allocates(old(freeExtents), freeExtents, a', size)
      ensures 0 < size ==> Canonical(freeExtents, maxSize)
      ensures size == 0 ==> (ok <==> old(freeExtents) != map[])
      ensures size == 0 && ok ==>
                && a'.offset in old(freeExtents) && a'.size == 0
                && freeExtents == old(freeExtents) - {a'.offset}
    {
      ghost var f := freeExtents;
      var it := FindFit(size);
      if it.End? {
        if 0 < size {
          NoFit(f, maxSize, size);
        } else {
          NoExtent(f, maxSize);
        }
        return false, a;
      }
      a' := Extent(it.key, size);
      if size < freeExtents[it.key] {
        freeExtents := Insert(freeExtents, Extent(it.key + size, freeExtents[it.key] - size));
      }
      freeExtents := Erase(freeExtents, it.key);
      if 0 < size {
        FirstFit(f, maxSize, it.key, size);
        TakeFront(f, maxSize, it.key, size);
      }
      return true, a';
    }

    /** Returns an extent to the free set, merging it with the free extents that touch it. */
    method DeallocateChunk(a: Extent)
      requires Canonical(freeExtents, maxSize) && InBounds(a, maxSize)
      requires forall p :: Within(p, a) ==> !Free(freeExtents, p)
      modifies this`freeExtents
      ensures Canonical(freeExtents, maxSize)
      ensures Releases(old(freeExtents), freeExtents, a)
    {
      ghost var f := freeExtents;
      NothingStartsInside(f, maxSize, a);
      MergedReleases(f, maxSize, a);
      MergedIsCanonical(f, maxSize, a);
      hide Canonical, Releases, Free;
      var merged := a;
      if freeExtents != map[] {
        var after := LowerBound(freeExtents, a.offset);
        var before := Predecessor(freeExtents, a.offset);
        NeighboursOf(f, a);
        if after.At? && after.key == merged.offset + merged.size {
          merged := Extent(merged.offset, merged.size + freeExtents[after.key]);
          freeExtents := Erase(freeExtents, after.key);
        }
        if before.At? && before.key + freeExtents[before.key] == merged.offset {
          merged := Extent(before.key, merged.size + freeExtents[before.key]);
          freeExtents := Erase(freeExtents, before.key);
        }
      }
      freeExtents := Insert(freeExtents, merged);
      assert freeExtents == Merged(f, a);
    }

    /** The failure branch of reallocation: cuts `a` out of the free extent, at `home`, that holds
        it. Whatever is left of that extent before `a` and after `a` becomes free on its own. */
    method UndoDeallocation(a: Extent, ghost home: int)
      requires Canonical(freeExtents, maxSize) && 0 < a.size
      requires home in freeExtents && home <= a.offset && a.offset + a.size <= home + freeExtents[home]
      modifies this`freeExtents
      ensures freeExtents == Unmerged(old(freeExtents), home, a)
    {
      Around(freeExtents, maxSize, home);
      hide Canonical;
      var it := LowerBound(freeExtents, a.offset);
      if it.End? || it.key > a.offset {
        it := Predecessor(freeExtents, a.offset);
        assert it.key == home;
        assert a.size < freeExtents[it.key];
        var freeBefore := a.offset - it.key;
        var size' := freeExtents[it.key];
        if size' > freeBefore + a.size {
          freeExtents := Insert(freeExtents, Extent(a.offset + a.size, size' - a.size - freeBefore));
        }
        freeExtents := Erase(freeExtents, it.key);
        freeExtents := Insert(freeExtents, Extent(it.key, freeBefore));
      } else if freeExtents[it.key] > a.size {
        assert it.key == a.offset == home;
        freeExtents := Insert(freeExtents, Extent(a.offset + a.size, freeExtents[it.key] - a.size));
        freeExtents := Erase(freeExtents, it.key);
      } else {
        assert it.key == a.offset == home && freeExtents[it.key] == a.size;
        freeExtents := Erase(freeExtents, it.key);
      }
    }

    /** Gives an allocated extent back and looks for a larger one. When there is none, the
        merges that the release made are undone. */
    method ReallocateChunk(a: Extent, size: int) returns (ok: bool, a': Extent)
      requires Canonical(freeExtents, maxSize) && InBounds(a, maxSize)
      requires forall p :: Within(p, a) ==> !Free(freeExtents, p)
      requires a.size < size
      modifies this`freeExtents
      ensures ok <==> HasRunWith(old(freeExtents), a, size)
      ensures Canonical(freeExtents, maxSize)
      ensures ok ==> Moves(old(freeExtents), freeExtents, a, a', size)
      ensures !ok ==> freeExtents == old(freeExtents) && a' == a
    {
      ghost var f0 := freeExtents;
      DeallocateChunk(a);
      ghost var f := freeExtents;
      ok, a' := AllocateChunk(a, size);
      if ok {
        ReleaseThenAllocate(f0, f, freeExtents, a, a', size);
      } else {
        NoRoomAfterRelease(f0, f, a, size);
        assert FreeRun(f, a.offset, a.size);
        RunInOneExtent(f, maxSize, a.offset, a.size);
        ghost var home :| home in f && home <= a.offset && a.offset + a.size <= home + f[home];
        UnmergeRestores(f0, f, maxSize, home, a);
        UndoDeallocation(a, home);
      }
    }

    // -------------------------------------------------------------------------
    // Access to the data file
    // -------------------------------------------------------------------------

    /** Reads from a chunk, stopping at its end. Before the beginning of the chunk is what the data file has there.
        Past the end of the chunk the count becomes negative, and what the operating system makes of that is
        not known. */
    method ReadData(d: Descriptor, offset: int, count: int) returns (r: int, buf: seq<byte>)
      requires Valid()
      ensures count < 0 || d !in metadata || metadata[d].offset + offset < 0 ==> r == ERROR && buf == []
      ensures 0 <= count && d in metadata && 0 <= metadata[d].offset + offset && offset <= metadata[d].size ==>
                var a := metadata[d];
                var at, n := a.offset + offset, if count > a.size - offset then a.size - offset else count;
                at + n <= maxSize && r == n && buf == data[at..at + n]
      ensures 0 <= count && d in metadata && 0 <= offset <= metadata[d].size ==>
                r == |buf| && buf == Clip(Contents()[d], offset, count)
    {
      if count < 0 {
        return ERROR, [];
      }
      if d !in metadata {
        return ERROR, [];
      }
      assert Placed(metadata, d, maxSize);
      var n := count;
      if n > metadata[d].size - offset {
        n := metadata[d].size - offset;
      }
      var at := metadata[d].offset + offset;
      if at < 0 {
        return ERROR, [];
      }
      if n < 0 {
        r, buf := UnspecifiedRead();
        return;
      }
      BytesAt(data, metadata[d]);
      assert 0 <= offset ==> data[at..at + n] == Contents()[d][offset..offset + n];
      return n, data[at..at + n];
    }

    /** Writes what ends inside the bounds of a chunk, and fails otherwise. */
    method WriteData(d: Descriptor, offset: int, buf: seq<byte>, count: int) returns (r: int)
      requires count <= |buf| && |data| == maxSize
      requires d in metadata ==> 0 <= metadata[d].offset && metadata[d].offset + metadata[d].size <= maxSize
      modifies this`data
      ensures r == if count < 0 || d !in metadata || count > metadata[d].size - offset
                      || metadata[d].offset + offset < 0 then ERROR else count
      ensures r == ERROR ==> data == old(data)
      ensures r != ERROR ==>
                var at := metadata[d].offset + offset;
                && 0 <= at && at + count <= maxSize
                && data == Overwritten(old(data), at, buf[..count])
    {
      if count < 0 {
        return ERROR;
      }
      if d !in metadata {
        return ERROR;
      }
      if count > metadata[d].size - offset {
        return ERROR;
      }
      var at := metadata[d].offset + offset;
      if at < 0 {
        return ERROR;
      }
      data := Overwritten(data, at, buf[..count]);
      return count;
    }

    // -------------------------------------------------------------------------
    // Chunks
    // -------------------------------------------------------------------------

    method ReadChunk(d: Descriptor, offset: int, count: int) returns (r: int, buf: seq<byte>)
      requires Valid()
      ensures count < 0 || d !in metadata || metadata[d].offset + offset < 0 ==> r == ERROR && buf == []
      ensures 0 <= count && d in metadata && 0 <= metadata[d].offset + offset && offset <= metadata[d].size ==>
                var a := metadata[d];
                var at, n := a.offset + offset, if count > a.size - offset then a.size - offset else count;
                at + n <= maxSize && r == n && buf == data[at..at + n]
      ensures 0 <= count && d in metadata && 0 <= offset <= metadata[d].size ==>
                r == |buf| && buf == Clip(Contents()[d], offset, count)
    {
      r, buf := ReadData(d, offset, count);
    }

    method DeleteChunk(d: Descriptor) returns (r: int)
      requires Valid()
      modifies this`metadata, this`freeExtents
      ensures Valid()
      ensures r == if d in old(metadata) then 0 else ERROR
      ensures metadata == old(metadata) - {d}
      ensures Contents() == old(Contents()) - {d}
    {
      if d !in metadata {
        assert metadata - {d} == metadata;
        return ERROR;
      }
      RemoveAllocated(metadata, d, maxSize);
      assert Placed(metadata, d, maxSize);
      DeallocateChunk(metadata[d]);
      ReleaseKeeps(metadata, old(freeExtents), freeExtents, d, maxSize);
      metadata := metadata - {d};
      return 0;
    }

    /** The one case in which a write breaks the store: it creates a chunk of no bytes, and the
        first free extent is dropped. */
    ghost predicate DropsExtent(d: Descriptor, offset: int, count: int)
      reads this
    {
      d !in metadata && offset == 0 && count == 0 && freeExtents != map[]
    }

    /** The branch of a write that makes a new chunk. */
    method CreateChunk(d: Descriptor, size: int) returns (ok: bool)
      requires Valid() && d !in metadata && 0 <= size
      modifies this`metadata, this`freeExtents
      ensures 0 < size ==> (ok <==> HasRun(old(freeExtents), size))
      ensures size == 0 ==> (ok <==> old(freeExtents) != map[])
      ensures !ok ==> metadata == old(metadata) && freeExtents == old(freeExtents)
      ensures ok ==> d in metadata && metadata == old(metadata)[d := metadata[d]] && metadata[d].size == size
      ensures size == 0 && ok ==>
                && metadata[d].offset in old(freeExtents)
                && freeExtents == old(freeExtents) - {metadata[d].offset}
      ensures 0 < size && ok ==> Allocates(old(freeExtents), freeExtents, metadata[d], size)
      ensures ok ==> 0 <= metadata[d].offset && metadata[d].offset + size <= maxSize
      ensures 0 < size ==> Valid()
      ensures 0 < size && ok ==> OthersKept(old(Contents()), Contents(), d)
    {
      var ok', a := AllocateChunk(Extent(0, 0), size);
      ok := ok';
      if ok {
        if 0 < size {
          AllocateKeeps(metadata, old(freeExtents), freeExtents, d, a, size, maxSize);
          Created(metadata, metadata[d := a], d, data);
          assert Placed(metadata[d := a], d, maxSize);
        } else {
          Around(old(freeExtents), maxSize, a.offset);
        }
        metadata := metadata[d := a];
      }
    }

    /** The branch of a write that makes an existing chunk larger. It saves the old bytes, moves
        the chunk, and copies back as many bytes as the chunk now has: more than were saved. */
    method GrowChunk(d: Descriptor, size: int) returns (ok: bool)
      requires Valid() && d in metadata && metadata[d].size < size
      modifies this`metadata, this`freeExtents, this`data
      ensures Valid()
      ensures ok <==> HasRunWith(old(freeExtents), old(metadata)[d], size)
      ensures !ok ==> metadata == old(metadata) && freeExtents == old(freeExtents) && data == old(data)
      ensures d in metadata && metadata == old(metadata)[d := metadata[d]]
      ensures ok ==> Moves(old(freeExtents), freeExtents, old(metadata)[d], metadata[d], size)
      ensures ok ==> metadata[d].size == size && Grown(old(Contents()), Contents(), d, size)
    {
      ghost var m, free, file := metadata, freeExtents, data;
      var a := metadata[d];
      assert Placed(metadata, d, maxSize);
      assert forall p :: Within(p, a) ==> !Free(freeExtents, p) by {
        RemoveAllocated(metadata, d, maxSize);
      }
      hide Free, Canonical, HasRunWith, Moves, FreeIsComplement, Allocated, AllDisjoint, Overwritten, ContentsOf, Grown;
      var n, oldChunk := ReadData(d, 0, a.size);
      assert oldChunk == Bytes(file, a);
      var a';
      ok, a' := ReallocateChunk(a, size);
      if ok {
        MoveKeeps(metadata, free, freeExtents, d, a', size, maxSize);
        metadata := metadata[d := a'];
        AllPlaced(metadata, maxSize);
        var beyond := UnspecifiedBytes(a'.size - a.size);
        assert (oldChunk + beyond)[..a'.size] == oldChunk + beyond;
        n := WriteData(d, 0, oldChunk + beyond, a'.size);
        CopiedBack(m, metadata, d, file, oldChunk, beyond);
      }
    }

    /** Room for a write that ends at `size`: creates the chunk or makes it larger when needed. */
    method MakeRoom(d: Descriptor, size: int) returns (ok: bool)
      requires Valid() && 0 <= size
      modifies this`metadata, this`freeExtents, this`data
      ensures d !in old(metadata) && 0 < size ==> (ok <==> HasRun(old(freeExtents), size))
      ensures d !in old(metadata) && size == 0 ==> (ok <==> old(freeExtents) != map[])
      ensures d in old(metadata) ==>
                (ok <==> size <= old(metadata)[d].size || HasRunWith(old(freeExtents), old(metadata)[d], size))
      ensures !ok ==> metadata == old(metadata) && freeExtents == old(freeExtents) && data == old(data)
      ensures |data| == maxSize && (d !in old(metadata) ==> data == old(data))
      ensures ok ==> d in metadata && 0 <= metadata[d].offset && metadata[d].offset + metadata[d].size <= maxSize
      ensures ok ==> Placement(old(metadata), old(freeExtents), metadata, freeExtents, d, size)
      ensures d in old(metadata) || 0 < size ==> Valid()
      ensures ok ==> (metadata[d].size == 0 <==> d !in old(metadata) && size == 0)
      ensures (d in old(metadata) || 0 < size) && ok ==>
                && OthersKept(old(Contents()), Contents(), d)
                && ChunkOf(old(Contents()), d) <= Contents()[d]
                && metadata[d].size
                   == (if size > |ChunkOf(old(Contents()), d)| then size else |ChunkOf(old(Contents()), d)|)
    {
      hide Canonical, FreeIsComplement, HasRun, HasRunWith, OthersKept, ContentsOf, Allocates, Moves;
      if d !in metadata {
        ok := CreateChunk(d, size);
      } else if size > metadata[d].size {
        ok := GrowChunk(d, size);
        assert Placed(metadata, d, maxSize);
      } else {
        ok := true;
        assert Placed(metadata, d, maxSize);
        NothingWritten(Contents(), d);
      }
    }

    /** Writes to a chunk, creating it or moving it to a larger extent as needed. */
    method WriteChunk(d: Descriptor, offset: int, buf: seq<byte>, count: int) returns (r: int)
      requires Valid() && 0 <= offset && count <= |buf|
      modifies this`metadata, this`freeExtents, this`data
      ensures r == count || r == ERROR
      ensures count < 0 ==> r == ERROR
      ensures 0 <= count && d !in old(metadata) && 0 < offset + count ==>
                (r == ERROR <==> !HasRun(old(freeExtents), offset + count))
      ensures 0 <= count && d in old(metadata) ==>
                (r == ERROR <==>
                  && old(metadata)[d].size < offset + count
                  && !HasRunWith(old(freeExtents), old(metadata)[d], offset + count))
      ensures r == ERROR ==>
                metadata == old(metadata) && freeExtents == old(freeExtents) && data == old(data)
      ensures r != ERROR ==> Placement(old(metadata), old(freeExtents), metadata, freeExtents, d, offset + count)
      ensures Valid() <==> !old(DropsExtent(d, offset, count))
      ensures old(DropsExtent(d, offset, count)) ==> r == 0 && data == old(data)
      ensures 0 <= count == r && Valid() ==>
                && OthersKept(old(Contents()), Contents(), d)
                && Written(old(ChunkOf(Contents(), d)), Contents()[d], offset, buf[..count])
    {
      hide Canonical, FreeIsComplement, HasRun, HasRunWith, OthersKept, ContentsOf, Written, Overwritten, Placement;
      if count < 0 {
        return ERROR;
      }
      ghost var c := Contents();
      var ok := MakeRoom(d, offset + count);
      if !ok {
        return ERROR;
      }
      ghost var m, file := metadata, data;
      r := WriteData(d, offset, buf, count);
      if 0 < m[d].size {
        AllPlaced(m, maxSize);
        ChunkWritten(c, m, d, file, data, offset, buf[..count]);
      } else {
        assert !Placed(m, d, maxSize);
        assert data == file;
      }
    }
  }

  /** What the operating system answers when it is asked for a negative count. Callers may rely on nothing. */
  method UnspecifiedRead() returns (r: int, buf: seq<byte>) {
    r, buf := ERROR, [];
  }

  /** What memory holds past the end of a buffer. Callers may rely on nothing but the length. */
  method UnspecifiedBytes(n: nat) returns (s: seq<byte>)
    ensures |s| == n
  {
    s := seq(n, _ => 0);
  }
}
