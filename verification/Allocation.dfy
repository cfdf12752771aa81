/** What the extent allocator does to a set of free extents, said about which bytes are free. */
module Allocation {
  import opened Extents

  /** Allocating `size` bytes as extent `a` takes free set `f` to `f'`: `a` is the lowest run
      of `size` free bytes and exactly its bytes stop being free. */
  ghost predicate Allocates(f: FreeSet, f': FreeSet, a: Extent, size: int) {
    && a.size == size
    && FreeRun(f, a.offset, size)
    && (forall q :: q < a.offset ==> !FreeRun(f, q, size))
    && (forall p :: Free(f', p) <==> Free(f, p) && !Within(p, a))
  }

  /** Releasing extent `a` takes free set `f` to `f'`: exactly its bytes become free. */
  ghost predicate Releases(f: FreeSet, f': FreeSet, a: Extent) {
    forall p :: Free(f', p) <==> Free(f, p) || Within(p, a)
  }

  /** `size` bytes from `q` on are free or belong to `a`. */
  ghost predicate RunWith(f: FreeSet, a: Extent, q: int, size: int) {
    forall p :: q <= p < q + size ==> Free(f, p) || Within(p, a)
  }

  ghost predicate HasRun(f: FreeSet, size: int) {
    exists q :: FreeRun(f, q, size)
  }

  ghost predicate HasRunWith(f: FreeSet, a: Extent, size: int) {
    exists q :: RunWith(f, a, q, size)
  }

  /** Moving extent `a` to `a'` takes `f` to `f'`: `a'` is the lowest run of `size` bytes among
      the free bytes and the bytes of `a` itself. */
  ghost predicate Moves(f: FreeSet, f': FreeSet, a: Extent, a': Extent, size: int) {
    && a'.size == size
    && RunWith(f, a, a'.offset, size)
    && (forall q :: q < a'.offset ==> !RunWith(f, a, q, size))
    && (forall p :: Free(f', p) <==> (Free(f, p) || Within(p, a)) && !Within(p, a'))
  }

  lemma ReleaseThenAllocate(f: FreeSet, g: FreeSet, f': FreeSet, a: Extent, a': Extent, size: int)
    requires Releases(f, g, a) && Allocates(g, f', a', size)
    ensures Moves(f, f', a, a', size)
  {
    forall q | q < a'.offset ensures !RunWith(f, a, q, size) {
      assert !FreeRun(g, q, size);
    }
  }

  lemma NoRoomAfterRelease(f: FreeSet, g: FreeSet, a: Extent, size: int)
    requires Releases(f, g, a) && !HasRun(g, size)
    ensures !HasRunWith(f, a, size)
  {
    forall q ensures !RunWith(f, a, q, size) {
      assert !FreeRun(g, q, size);
    }
  }

  /** The free set after the first `size` bytes of the extent at `o` are taken. */
  function Taken(f: FreeSet, o: int, size: int): FreeSet
    requires o in f && size <= f[o]
  {
    Erase(if size < f[o] then Insert(f, Extent(o + size, f[o] - size)) else f, o)
  }

  lemma NoFit(f: FreeSet, maxSize: int, size: int)
    requires Canonical(f, maxSize) && 0 < size
    requires forall o :: o in f ==> f[o] < size
    ensures !HasRun(f, size)
  {
    forall q ensures !FreeRun(f, q, size) {
      if FreeRun(f, q, size) {
        RunInOneExtent(f, maxSize, q, size);
      }
    }
  }

  lemma NoExtent(f: FreeSet, maxSize: int)
    requires Canonical(f, maxSize)
    requires forall o :: o in f ==> f[o] < 0
    ensures f == map[]
  {
    forall o ensures o !in f {
      assert Sound(f, o, maxSize);
    }
  }

  lemma FirstFit(f: FreeSet, maxSize: int, o: int, size: int)
    requires Canonical(f, maxSize) && 0 < size
    requires o in f && size <= f[o]
    requires forall o' :: o' in f && o' < o ==> f[o'] < size
    ensures FreeRun(f, o, size)
    ensures forall q :: q < o ==> !FreeRun(f, q, size)
  {
    forall q | q < o ensures !FreeRun(f, q, size) {
      if FreeRun(f, q, size) {
        RunInOneExtent(f, maxSize, q, size);
      }
    }
  }

  lemma TakenExtents(f: FreeSet, maxSize: int, o: int, size: int)
    requires Canonical(f, maxSize) && 0 < size
    requires o in f && size <= f[o]
    ensures forall x :: x in Taken(f, o, size) <==> (x in f && x != o) || (x == o + size && size < f[o])
    ensures forall x :: x in f && x != o ==> Taken(f, o, size)[x] == f[x]
    ensures size < f[o] ==> Taken(f, o, size)[o + size] == f[o] - size
  {
    Around(f, maxSize, o);
    if size < f[o] {
      assert o + size !in f;
    }
  }

  lemma TakeFrontCanonical(f: FreeSet, maxSize: int, o: int, size: int)
    requires Canonical(f, maxSize) && 0 < size
    requires o in f && size <= f[o]
    ensures Canonical(Taken(f, o, size), maxSize)
  {
    TakenExtents(f, maxSize, o, size);
    Around(f, maxSize, o);
    var f' := Taken(f, o, size);
    forall x ensures Sound(f', x, maxSize) {
      assert Sound(f, x, maxSize);
    }
    forall a, b ensures Apart(f', a, b) {
      assert Apart(f, a, b);
    }
  }

  lemma TakeFront(f: FreeSet, maxSize: int, o: int, size: int)
    requires Canonical(f, maxSize) && 0 < size
    requires o in f && size <= f[o]
    ensures Canonical(Taken(f, o, size), maxSize)
    ensures forall p :: Free(Taken(f, o, size), p) <==> Free(f, p) && !Within(p, Extent(o, size))
  {
    TakenExtents(f, maxSize, o, size);
    TakeFrontCanonical(f, maxSize, o, size);
    Around(f, maxSize, o);
    var f' := Taken(f, o, size);
    forall p | Free(f, p) && !Within(p, Extent(o, size)) ensures Free(f', p) {
      var x :| x in f && x <= p < x + f[x];
      var x' := if x == o then o + size else x;
      assert x' in f' && x' <= p < x' + f'[x'];
    }
    forall p | Free(f', p) ensures Free(f, p) && !Within(p, Extent(o, size)) {
      var x :| x in f' && x <= p < x + f'[x];
      var x' := if x == o + size then o else x;
      assert x' in f && x' <= p < x' + f[x'];
    }
  }

  /** Where the free extent that swallows `a` begins: at the free extent ending at `a`, if there is one. */
  function MergedStart(f: FreeSet, a: Extent): int {
    var before := Predecessor(f, a.offset);
    if before.At? && before.key + f[before.key] == a.offset then before.key else a.offset
  }

  function MergedEnd(f: FreeSet, a: Extent): int {
    var end := a.offset + a.size;
    if end in f then end + f[end] else end
  }

  /** The free set after `a` is returned to it. */
  function Merged(f: FreeSet, a: Extent): FreeSet {
    var start := MergedStart(f, a);
    (f - {start, a.offset + a.size})[start := MergedEnd(f, a) - start]
  }

  lemma NothingStartsInside(f: FreeSet, maxSize: int, a: Extent)
    requires Canonical(f, maxSize) && InBounds(a, maxSize)
    requires forall p :: Within(p, a) ==> !Free(f, p)
    ensures forall o :: o in f ==> 0 < f[o] && Disjoint(Extent(o, f[o]), a)
  {
    forall o | o in f ensures 0 < f[o] && Disjoint(Extent(o, f[o]), a) {
      assert Sound(f, o, maxSize);
      if a.offset <= o {
        assert Free(f, o);
      } else if a.offset < o + f[o] {
        assert Free(f, a.offset) && Within(a.offset, a);
      }
    }
  }

  /** The only free extents that can touch `a` are the ones on either side of where it goes. */
  lemma NeighboursOf(f: FreeSet, a: Extent)
    requires 0 < a.size && forall o :: o in f ==> 0 < f[o] && Disjoint(Extent(o, f[o]), a)
    ensures a.offset !in f
    ensures LowerBound(f, a.offset) == At(a.offset + a.size) <==> a.offset + a.size in f
  {
  }

  lemma MergedIsCanonical(f: FreeSet, maxSize: int, a: Extent)
    requires Canonical(f, maxSize) && InBounds(a, maxSize)
    requires forall o :: o in f ==> Disjoint(Extent(o, f[o]), a)
    ensures Canonical(Merged(f, a), maxSize)
  {
    var f', start, end := Merged(f, a), MergedStart(f, a), a.offset + a.size;
    var before := Predecessor(f, a.offset);
    forall x ensures Sound(f', x, maxSize) {
      assert Sound(f, x, maxSize) && Sound(f, start, maxSize) && Sound(f, end, maxSize);
    }
    forall x, y ensures Apart(f', x, y) {
      if x in f' && y in f' && x < y {
        assert Sound(f, x, maxSize) && Sound(f, y, maxSize);
        assert x in f ==> Disjoint(Extent(x, f[x]), a);
        assert y in f ==> Disjoint(Extent(y, f[y]), a);
        assert Apart(f, x, y) && Apart(f, start, y) && Apart(f, end, y) && Apart(f, x, start);
        assert before.At? ==> Apart(f, x, before.key);
      }
    }
  }

  lemma MergedReleases(f: FreeSet, maxSize: int, a: Extent)
    requires Canonical(f, maxSize) && InBounds(a, maxSize)
    requires forall o :: o in f ==> Disjoint(Extent(o, f[o]), a)
    ensures Releases(f, Merged(f, a), a)
  {
    var f', start, end := Merged(f, a), MergedStart(f, a), a.offset + a.size;
    AllSound(f, maxSize);
    assert MergedEnd(f, a) >= end by {
      assert end in f ==> InBounds(Extent(end, f[end]), maxSize);
    }
    forall p | Free(f, p) || Within(p, a) ensures Free(f', p) {
      if start <= p < MergedEnd(f, a) {
        assert start in f';
      } else {
        var x :| x in f && x <= p < x + f[x];
        assert x in f';
      }
    }
    forall p | Free(f', p) ensures Free(f, p) || Within(p, a) {
      var x :| x in f' && x <= p < x + f'[x];
      if x != start {
        assert x in f;
      } else if p < a.offset {
        assert start in f;
      } else if end <= p {
        assert end in f;
      }
    }
  }

  /** The free set after `a`, which lies inside the extent at `o`, is cut out of it again. */
  function Unmerged(f: FreeSet, o: int, a: Extent): FreeSet
    requires o in f
  {
    var end := a.offset + a.size;
    var g := if end < o + f[o] then f[end := o + f[o] - end] else f;
    if o < a.offset then g[o := a.offset - o] else g - {o}
  }

  lemma UnmergedIsCanonical(f: FreeSet, maxSize: int, o: int, a: Extent)
    requires Canonical(f, maxSize) && 0 < a.size
    requires o in f && o <= a.offset && a.offset + a.size <= o + f[o]
    ensures Canonical(Unmerged(f, o, a), maxSize)
  {
    Around(f, maxSize, o);
    var f', end := Unmerged(f, o, a), a.offset + a.size;
    forall x ensures Sound(f', x, maxSize) {
      assert Sound(f, x, maxSize);
    }
    forall x, y ensures Apart(f', x, y) {
      assert Apart(f, x, y);
    }
  }

  lemma UnmergedTakes(f: FreeSet, maxSize: int, o: int, a: Extent)
    requires Canonical(f, maxSize) && 0 < a.size
    requires o in f && o <= a.offset && a.offset + a.size <= o + f[o]
    ensures forall p :: Free(Unmerged(f, o, a), p) <==> Free(f, p) && !Within(p, a)
  {
    Around(f, maxSize, o);
    var f', end := Unmerged(f, o, a), a.offset + a.size;
    forall p | Free(f, p) && !Within(p, a) ensures Free(f', p) {
      var x :| x in f && x <= p < x + f[x];
      var x' := if x == o && end <= p then end else x;
      assert x' in f' && x' <= p < x' + f'[x'];
    }
    forall p | Free(f', p) ensures Free(f, p) && !Within(p, a) {
      var x :| x in f' && x <= p < x + f'[x];
      var x' := if x == end && end < o + f[o] then o else x;
      assert x' in f && x' <= p < x' + f[x'];
    }
  }

  /** Releasing an extent and cutting it out again gives back the very same set. */
  lemma UnmergeRestores(f: FreeSet, f': FreeSet, maxSize: int, o: int, a: Extent)
    requires Canonical(f, maxSize) && Canonical(f', maxSize) && 0 < a.size
    requires Releases(f, f', a) && forall p :: Within(p, a) ==> !Free(f, p)
    requires o in f' && o <= a.offset && a.offset + a.size <= o + f'[o]
    ensures Unmerged(f', o, a) == f
  {
    UnmergedIsCanonical(f', maxSize, o, a);
    UnmergedTakes(f', maxSize, o, a);
    CanonicalUnique(Unmerged(f', o, a), f, maxSize);
  }

  // ---------------------------------------------------------------------------
  // Allocated extents, each under a name
  // ---------------------------------------------------------------------------

  /** Byte `p` belongs to some allocated extent. */
  ghost predicate Allocated<K>(m: map<K, Extent>, p: int) {
    exists d :: d in m && Within(p, m[d])
  }

  ghost predicate Placed<K>(m: map<K, Extent>, d: K, maxSize: int) {
    d in m ==> InBounds(m[d], maxSize)
  }

  ghost predicate Separate<K>(m: map<K, Extent>, d: K, d': K) {
    d in m && d' in m && d != d' ==> Disjoint(m[d], m[d'])
  }

  /** The allocated extents are nonempty, lie inside the file and do not overlap. */
  ghost predicate AllDisjoint<K(!new)>(m: map<K, Extent>, maxSize: int) {
    && (forall d :: Placed(m, d, maxSize))
    && (forall d, d' :: Separate(m, d, d'))
  }

  /** The free bytes are exactly the bytes of the file that no allocated extent holds. */
  ghost predicate FreeIsComplement<K>(m: map<K, Extent>, f: FreeSet, maxSize: int) {
    forall p :: Free(f, p) <==> 0 <= p < maxSize && !Allocated(m, p)
  }

  lemma AllPlaced<K(!new)>(m: map<K, Extent>, maxSize: int)
    requires AllDisjoint(m, maxSize)
    ensures forall d :: d in m ==> InBounds(m[d], maxSize)
  {
    forall d | d in m ensures InBounds(m[d], maxSize) {
      assert Placed(m, d, maxSize);
    }
  }

  /** Naming an extent made of bytes that no other extent holds keeps the extents disjoint. */
  lemma PlaceDisjoint<K(!new)>(m: map<K, Extent>, d: K, a: Extent, maxSize: int)
    requires AllDisjoint(m, maxSize) && InBounds(a, maxSize)
    requires forall p :: Within(p, a) ==> !Allocated(m - {d}, p)
    ensures AllDisjoint(m[d := a], maxSize)
  {
    var m' := m[d := a];
    forall x ensures Placed(m', x, maxSize) {
      assert Placed(m, x, maxSize);
    }
    forall x | x in m && x != d ensures Disjoint(m[x], a) {
      assert Placed(m, x, maxSize);
      assert x in m - {d};
      assert Within(a.offset, a) && Within(m[x].offset, m[x]);
      assert Within(m[x].offset, a) ==> Allocated(m - {d}, m[x].offset);
      assert Within(a.offset, m[x]) ==> Allocated(m - {d}, a.offset);
    }
    forall x, y ensures Separate(m', x, y) {
      assert Separate(m, x, y);
    }
  }

  /** The bytes held by the extents once `d` names `a`. */
  lemma PlaceAllocated<K>(m: map<K, Extent>, d: K, a: Extent)
    ensures forall p :: Allocated(m[d := a], p) <==> Allocated(m - {d}, p) || Within(p, a)
  {
    var m' := m[d := a];
    forall p ensures Allocated(m', p) <==> Allocated(m - {d}, p) || Within(p, a) {
      if Allocated(m', p) {
        var x :| x in m' && Within(p, m'[x]);
        assert x != d ==> x in m - {d};
      }
      if Allocated(m - {d}, p) {
        var x :| x in m - {d} && Within(p, m[x]);
        assert x in m' && Within(p, m'[x]);
      }
      if Within(p, a) {
        assert d in m' && Within(p, m'[d]);
      }
    }
  }

  /** Apart from the bytes of `d` itself, the same bytes are held without `d`. */
  lemma RemoveAllocated<K(!new)>(m: map<K, Extent>, d: K, maxSize: int)
    requires AllDisjoint(m, maxSize) && d in m
    ensures AllDisjoint(m - {d}, maxSize)
    ensures forall p :: Allocated(m, p) <==> Allocated(m - {d}, p) || Within(p, m[d])
    ensures forall p :: Within(p, m[d]) ==> !Allocated(m - {d}, p)
  {
    assert m == m[d := m[d]];
    PlaceAllocated(m, d, m[d]);
    forall x ensures Placed(m - {d}, x, maxSize) {
      assert Placed(m, x, maxSize);
    }
    forall x, y ensures Separate(m - {d}, x, y) {
      assert Separate(m, x, y);
    }
    forall p | Within(p, m[d]) ensures !Allocated(m - {d}, p) {
      forall x | x in m - {d} ensures !Within(p, m[x]) {
        assert Separate(m, x, d);
      }
    }
  }

  lemma AllocateKeeps<K(!new)>(m: map<K, Extent>, f: FreeSet, f': FreeSet, d: K, a: Extent, size: int, maxSize: int)
    requires AllDisjoint(m, maxSize) && FreeIsComplement(m, f, maxSize) && d !in m
    requires Allocates(f, f', a, size) && 0 < size
    ensures AllDisjoint(m[d := a], maxSize) && FreeIsComplement(m[d := a], f', maxSize)
  {
    assert m - {d} == m;
    assert Free(f, a.offset) && Free(f, a.offset + size - 1);
    PlaceDisjoint(m, d, a, maxSize);
    PlaceAllocated(m, d, a);
  }

  lemma MoveKeeps<K(!new)>(m: map<K, Extent>, f: FreeSet, f': FreeSet, d: K, a: Extent, size: int, maxSize: int)
    requires AllDisjoint(m, maxSize) && FreeIsComplement(m, f, maxSize) && d in m
    requires Moves(f, f', m[d], a, size) && 0 < size
    ensures AllDisjoint(m[d := a], maxSize) && FreeIsComplement(m[d := a], f', maxSize)
  {
    RemoveAllocated(m, d, maxSize);
    assert Placed(m, d, maxSize);
    var first, last := a.offset, a.offset + size - 1;
    assert Free(f, first) || Within(first, m[d]);
    assert Free(f, last) || Within(last, m[d]);
    PlaceDisjoint(m, d, a, maxSize);
    PlaceAllocated(m, d, a);
  }

  lemma ReleaseKeeps<K(!new)>(m: map<K, Extent>, f: FreeSet, f': FreeSet, d: K, maxSize: int)
    requires AllDisjoint(m, maxSize) && FreeIsComplement(m, f, maxSize) && d in m
    requires Releases(f, f', m[d])
    ensures AllDisjoint(m - {d}, maxSize) && FreeIsComplement(m - {d}, f', maxSize)
  {
    RemoveAllocated(m, d, maxSize);
    assert Placed(m, d, maxSize);
  }

  /** The free set is a function of the allocated extents alone, whatever the history. */
  lemma FreeSetDetermined<K(!new)>(m: map<K, Extent>, f: FreeSet, g: FreeSet, maxSize: int)
    requires Canonical(f, maxSize) && FreeIsComplement(m, f, maxSize)
    requires Canonical(g, maxSize) && FreeIsComplement(m, g, maxSize)
    ensures f == g
  {
    forall p ensures Free(f, p) <==> Free(g, p) {
    }
    CanonicalUnique(f, g, maxSize);
  }

  /** Releasing a fresh allocation restores the free set it was taken from. */
  lemma ReleaseUndoesAllocate(f: FreeSet, f': FreeSet, f'': FreeSet, a: Extent, size: int, maxSize: int)
    requires Canonical(f, maxSize) && Canonical(f'', maxSize)
    requires Allocates(f, f', a, size) && Releases(f', f'', a)
    ensures f'' == f
  {
    forall p ensures Free(f, p) <==> Free(f'', p) {
      assert Within(p, a) ==> Free(f, p);
      assert Free(f', p) <==> Free(f, p) && !Within(p, a);
    }
    CanonicalUnique(f'', f, maxSize);
  }
}
