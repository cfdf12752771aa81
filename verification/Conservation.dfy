/** No byte of the data file is lost: free and allocated sizes always add up to the whole file. */
module Conservation {
  import opened Extents
  import opened Allocation

  ghost function Pick<K(!new)>(m: map<K, Extent>): (k: K)
    requires m != map[]
    ensures k in m
  {
    var k :| k in m;
    k
  }

  /** The sum of the sizes of the extents of a table. */
  ghost function TotalSize<K(!new)>(m: map<K, Extent>): int
    decreases |m|
  {
    if m == map[] then 0
    else
      var k := Pick(m);
      assert |m - {k}| < |m| by { assert (m - {k}).Keys == m.Keys - {k}; }
      m[k].size + TotalSize(m - {k})
  }

  /** The free extents as a table of extents. */
  function AsTable(f: FreeSet): map<int, Extent> {
    map o | o in f :: Extent(o, f[o])
  }

  ghost function Cells<K(!new)>(m: map<K, Extent>, maxSize: int): set<int> {
    set p | 0 <= p < maxSize && Allocated(m, p)
  }

  ghost function CellsOf(a: Extent): set<int> {
    set p | a.offset <= p < a.offset + a.size && Within(p, a)
  }

  lemma {:induction false} CellsOfCount(a: Extent)
    requires 0 <= a.size
    ensures |CellsOf(a)| == a.size
    decreases a.size
  {
    if a.size == 0 {
      assert CellsOf(a) == {};
    } else {
      var shorter := Extent(a.offset, a.size - 1);
      CellsOfCount(shorter);
      assert Within(a.offset + a.size - 1, a);
      assert forall p :: Within(p, shorter) ==> Within(p, a);
      assert CellsOf(a) == CellsOf(shorter) + {a.offset + a.size - 1};
    }
  }

  /** Disjoint extents hold as many bytes as their sizes say. */
  lemma {:induction false} CellsCount<K(!new)>(m: map<K, Extent>, maxSize: int)
    requires AllDisjoint(m, maxSize)
    ensures |Cells(m, maxSize)| == TotalSize(m)
    decreases |m|
  {
    if m == map[] {
      assert Cells(m, maxSize) == {};
    } else {
      var k := Pick(m);
      assert |m - {k}| < |m| by { assert (m - {k}).Keys == m.Keys - {k}; }
      RemoveAllocated(m, k, maxSize);
      CellsCount(m - {k}, maxSize);
      assert Placed(m, k, maxSize);
      var own := CellsOf(m[k]);
      CellsOfCount(m[k]);
      assert Cells(m, maxSize) == Cells(m - {k}, maxSize) + own;
      assert Cells(m - {k}, maxSize) !! own;
    }
  }

  lemma FreeCells(f: FreeSet, maxSize: int)
    requires Canonical(f, maxSize)
    ensures AllDisjoint(AsTable(f), maxSize)
    ensures forall p :: Allocated(AsTable(f), p) <==> Free(f, p)
  {
    var t := AsTable(f);
    forall o ensures Placed(t, o, maxSize) {
      assert Sound(f, o, maxSize);
    }
    forall a, b ensures Separate(t, a, b) {
      assert Apart(f, a, b) && Apart(f, b, a);
    }
    forall p ensures Allocated(t, p) <==> Free(f, p) {
      if Allocated(t, p) {
        var o :| o in t && Within(p, t[o]);
        assert o in f && o <= p < o + f[o];
      }
      if Free(f, p) {
        var o :| o in f && o <= p < o + f[o];
        assert o in t && Within(p, t[o]);
      }
    }
  }

  /** Bytes are conserved in every store whose free extents are the gaps between its chunks. */
  lemma BytesConserved<K(!new)>(m: map<K, Extent>, f: FreeSet, maxSize: nat)
    requires AllDisjoint(m, maxSize) && Canonical(f, maxSize) && FreeIsComplement(m, f, maxSize)
    ensures TotalSize(AsTable(f)) + TotalSize(m) == maxSize
  {
    var t := AsTable(f);
    FreeCells(f, maxSize);
    CellsCount(t, maxSize);
    CellsCount(m, maxSize);
    var file := Extent(0, maxSize);
    CellsOfCount(file);
    forall p | 0 <= p < maxSize ensures Allocated(t, p) <==> !Allocated(m, p) {
      assert Free(f, p) <==> !Allocated(m, p);
    }
    assert forall p :: Within(p, file) ==> Allocated(t, p) || Allocated(m, p);
    assert Cells(t, maxSize) + Cells(m, maxSize) == CellsOf(file);
    assert Cells(t, maxSize) !! Cells(m, maxSize);
  }

  const INT_MAX: int := 0x7fff_ffff

  /** With a file below 2^31 bytes no `offset + size` over a stored extent leaves 32-bit range. */
  lemma NoSumOverflows<K(!new)>(m: map<K, Extent>, f: FreeSet, maxSize: int)
    requires AllDisjoint(m, maxSize) && Canonical(f, maxSize) && maxSize <= INT_MAX
    ensures forall d :: d in m ==> 0 <= m[d].offset < m[d].offset + m[d].size <= INT_MAX
    ensures forall o :: o in f ==> 0 <= o < o + f[o] <= INT_MAX
    ensures forall o, d :: o in f && d in m && m[d].offset + m[d].size == o ==> m[d].size + f[o] <= INT_MAX
  {
    AllPlaced(m, maxSize);
    AllSound(f, maxSize);
    assert forall d :: d in m ==> InBounds(m[d], maxSize);
    assert forall o :: o in f ==> InBounds(Extent(o, f[o]), maxSize);
  }
}
