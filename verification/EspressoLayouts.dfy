/** Where a chunk store keeps its chunks, told by the allocated extents alone. */
module EspressoLayouts {
  import opened Extents
  import opened Allocation
  import opened EspressoStorage

  type Layout = map<Descriptor, Extent>

  /** The `size` bytes from `q` on are in the data file, and belong to no chunk but perhaps to `d`. */
  ghost predicate RoomAt(m: Layout, maxSize: int, d: Descriptor, q: int, size: int) {
    0 <= q && q + size <= maxSize && forall p :: q <= p < q + size ==> !Allocated(m - {d}, p)
  }

  ghost predicate HasRoom(m: Layout, maxSize: int, d: Descriptor, size: int) {
    exists q :: RoomAt(m, maxSize, d, q, size)
  }

  /** The chunk is long enough for a write that ends at `size`. */
  predicate LongEnough(m: Layout, d: Descriptor, size: int) {
    d in m && size <= m[d].size
  }

  /** A write that ends at `size`: it fails just when the chunk is too short and there is no room. It
      leaves a chunk that is long enough where it is, and puts any other at the lowest place where there
      is room. All other chunks stay where they are. */
  ghost predicate WritePlaces(m: Layout, m': Layout, maxSize: int, d: Descriptor, size: int, failed: bool) {
    && (failed <==> !LongEnough(m, d, size) && !HasRoom(m, maxSize, d, size))
    && (failed || LongEnough(m, d, size) ==> m' == m)
    && (!failed && !LongEnough(m, d, size) ==>
          && d in m' && m' == m[d := m'[d]] && m'[d].size == size
          && RoomAt(m, maxSize, d, m'[d].offset, size)
          && forall q :: q < m'[d].offset ==> !RoomAt(m, maxSize, d, q, size))
  }

  /** A run of free bytes is room for a new chunk. */
  lemma FreeRunIsRoom(m: Layout, f: FreeSet, maxSize: int, d: Descriptor, q: int, size: int)
    requires FreeIsComplement(m, f, maxSize) && d !in m && 0 < size
    ensures FreeRun(f, q, size) <==> RoomAt(m, maxSize, d, q, size)
  {
    assert m - {d} == m;
    hide Free, Allocated;
    if FreeRun(f, q, size) {
      assert Free(f, q) && Free(f, q + size - 1);
    }
  }

  /** A run of bytes that are free or belong to a chunk is room for that chunk. */
  lemma RunWithIsRoom(m: Layout, f: FreeSet, maxSize: int, d: Descriptor, q: int, size: int)
    requires AllDisjoint(m, maxSize) && FreeIsComplement(m, f, maxSize) && d in m && 0 < size
    ensures RunWith(f, m[d], q, size) <==> RoomAt(m, maxSize, d, q, size)
  {
    RemoveAllocated(m, d, maxSize);
    assert Placed(m, d, maxSize);
    hide Free, Allocated, AllDisjoint;
    if RunWith(f, m[d], q, size) {
      assert Free(f, q) || Within(q, m[d]);
      assert Free(f, q + size - 1) || Within(q + size - 1, m[d]);
    }
  }

  lemma NewChunkPlaces(m: Layout, f: FreeSet, m': Layout, f': FreeSet, maxSize: int, d: Descriptor, size: int,
                       failed: bool)
    requires FreeIsComplement(m, f, maxSize) && d !in m && 0 < size
    requires failed <==> !HasRun(f, size)
    requires if failed then m' == m else d in m' && m' == m[d := m'[d]] && Allocates(f, f', m'[d], size)
    ensures WritePlaces(m, m', maxSize, d, size, failed)
  {
    forall q ensures FreeRun(f, q, size) <==> RoomAt(m, maxSize, d, q, size) {
      FreeRunIsRoom(m, f, maxSize, d, q, size);
    }
    hide RoomAt, FreeRun, FreeIsComplement;
  }

  lemma GrownChunkPlaces(m: Layout, f: FreeSet, m': Layout, f': FreeSet, maxSize: int, d: Descriptor, size: int,
                         failed: bool)
    requires AllDisjoint(m, maxSize) && FreeIsComplement(m, f, maxSize) && d in m && m[d].size < size
    requires failed <==> !HasRunWith(f, m[d], size)
    requires if failed then m' == m else d in m' && m' == m[d := m'[d]] && Moves(f, f', m[d], m'[d], size)
    ensures WritePlaces(m, m', maxSize, d, size, failed)
  {
    assert Placed(m, d, maxSize);
    forall q ensures RunWith(f, m[d], q, size) <==> RoomAt(m, maxSize, d, q, size) {
      RunWithIsRoom(m, f, maxSize, d, q, size);
    }
    hide RoomAt, RunWith, FreeIsComplement, AllDisjoint;
  }

  /** What a write to a chunk store does, said of the extents alone. */
  lemma WrittenPlaces(m: Layout, f: FreeSet, m': Layout, f': FreeSet, maxSize: int, d: Descriptor, size: int,
                      failed: bool)
    requires AllDisjoint(m, maxSize) && FreeIsComplement(m, f, maxSize) && 0 < size
    requires d !in m ==> (failed <==> !HasRun(f, size))
    requires d in m ==> (failed <==> m[d].size < size && !HasRunWith(f, m[d], size))
    requires if failed then m' == m else Placement(m, f, m', f', d, size)
    ensures WritePlaces(m, m', maxSize, d, size, failed)
  {
    hide AllDisjoint, FreeIsComplement, HasRun, HasRunWith, Allocates, Moves;
    if d !in m {
      NewChunkPlaces(m, f, m', f', maxSize, d, size, failed);
    } else if m[d].size < size {
      GrownChunkPlaces(m, f, m', f', maxSize, d, size, failed);
    }
  }
}
