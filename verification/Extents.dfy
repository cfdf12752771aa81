/** Extents of the data file, and the set of free extents kept by the Espresso store. */
module Extents {

  /** A `data_address`: `size` bytes of the data file starting at `offset`. */
  datatype Extent = Extent(offset: int, size: int)

  /** The set of free extents. It is ordered by offset only, so it holds at most one
      extent per offset; it maps each offset to the size of the extent there. */
  type FreeSet = map<int, int>

  /** An iterator into a free set: past the end, or at the extent with a given offset. */
  datatype Iter = End | At(key: int)

  ghost predicate Within(p: int, e: Extent) {
    e.offset <= p < e.offset + e.size
  }

  ghost predicate Disjoint(e: Extent, e': Extent) {
    e.offset + e.size <= e'.offset || e'.offset + e'.size <= e.offset
  }

  ghost predicate InBounds(e: Extent, maxSize: int) {
    0 <= e.offset && 0 < e.size && e.offset + e.size <= maxSize
  }

  /** Byte `p` belongs to some free extent. */
  ghost predicate Free(f: FreeSet, p: int) {
    exists o :: o in f && o <= p < o + f[o]
  }

  /** All of the `size` bytes from `q` on are free. */
  ghost predicate FreeRun(f: FreeSet, q: int, size: int) {
    forall p :: q <= p < q + size ==> Free(f, p)
  }

  /** The extent at `o`, if there is one, is nonempty and inside the file. */
  ghost predicate Sound(f: FreeSet, o: int, maxSize: int) {
    o in f ==> InBounds(Extent(o, f[o]), maxSize)
  }

  /** The extent at `a` ends strictly before a later extent at `b` begins. */
  ghost predicate Apart(f: FreeSet, a: int, b: int) {
    a in f && b in f && a < b ==> a + f[a] < b
  }

  /** Nonempty extents inside the file, no two of which overlap or even touch. */
  ghost predicate Canonical(f: FreeSet, maxSize: int) {
    && (forall o :: Sound(f, o, maxSize))
    && (forall a, b :: Apart(f, a, b))
  }

  // ---------------------------------------------------------------------------
  // The ordered-set operations that the allocator uses
  // ---------------------------------------------------------------------------

  lemma EmptyOrHasMember(s: set<int>)
    ensures s == {} || exists y :: y in s
  {
    if forall y :: y !in s {
      assert s == {};
    }
  }

  ghost predicate IsMin(s: set<int>, m: int) {
    m in s && forall x :: x in s ==> m <= x
  }

  ghost predicate IsMax(s: set<int>, m: int) {
    m in s && forall x :: x in s ==> x <= m
  }

  lemma MinExists(s: set<int>)
    requires s != {}
    ensures exists m :: IsMin(s, m)
  {
    EmptyOrHasMember(s);
    var y :| y in s;
    var rest := s - {y};
    if rest == {} {
      assert forall x :: x in s && x != y ==> x in rest;
      assert IsMin(s, y);
    } else {
      MinExists(rest);
      var m :| IsMin(rest, m);
      assert forall x :: x in s && x != y ==> x in rest;
      var least := if m < y then m else y;
      assert IsMin(s, least);
    }
  }

  lemma MaxExists(s: set<int>)
    requires s != {}
    ensures exists m :: IsMax(s, m)
  {
    EmptyOrHasMember(s);
    var y :| y in s;
    var rest := s - {y};
    if rest == {} {
      assert forall x :: x in s && x != y ==> x in rest;
      assert IsMax(s, y);
    } else {
      MaxExists(rest);
      var m :| IsMax(rest, m);
      assert forall x :: x in s && x != y ==> x in rest;
      var greatest := if m < y then y else m;
      assert IsMax(s, greatest);
    }
  }

  /** The first extent whose offset is at least `k`. */
  function LowerBound(f: FreeSet, k: int): (it: Iter)
    ensures it.End? <==> forall o :: o in f ==> o < k
    ensures it.At? ==> it.key in f && k <= it.key && forall o :: o in f && k <= o ==> it.key <= o
  {
    var above := set o | o in f && k <= o;
    if above == {} then
      assert forall o :: o in f && k <= o ==> o in above;
      End
    else
      MinExists(above);
      var m :| m in above && forall x :: x in above ==> m <= x;
      assert forall o :: o in f && k <= o ==> o in above;
      At(m)
  }

  /** The last extent whose offset is below `k`: what decrementing the lower bound of `k` reaches. */
  function Predecessor(f: FreeSet, k: int): (it: Iter)
    ensures it.End? <==> forall o :: o in f ==> k <= o
    ensures it.At? ==> it.key in f && it.key < k && forall o :: o in f && o < k ==> o <= it.key
  {
    var below := set o | o in f && o < k;
    if below == {} then
      assert forall o :: o in f && o < k ==> o in below;
      End
    else
      MaxExists(below);
      var m :| m in below && forall x :: x in below ==> x <= m;
      assert forall o :: o in f && o < k ==> o in below;
      At(m)
  }

  /** The first extent of the set. */
  function Begin(f: FreeSet): (it: Iter)
    ensures it.End? <==> f == map[]
    ensures it.At? ==> it.key in f && forall o :: o in f ==> it.key <= o
  {
    if f.Keys == {} then
      assert f == map[];
      End
    else
      MinExists(f.Keys);
      var m :| m in f.Keys && forall x :: x in f.Keys ==> m <= x;
      assert forall o :: o in f ==> o in f.Keys;
      At(m)
  }

  /** `insert` of an ordered set: an extent that is already present at that offset stays. */
  function Insert(f: FreeSet, e: Extent): FreeSet {
    if e.offset in f then f else f[e.offset := e.size]
  }

  function Erase(f: FreeSet, o: int): FreeSet {
    f - {o}
  }

  // ---------------------------------------------------------------------------
  // Canonical free sets
  // ---------------------------------------------------------------------------

  /** What being canonical says about the extent at `o` and every other one. */
  lemma Around(f: FreeSet, maxSize: int, o: int)
    requires Canonical(f, maxSize) && o in f
    ensures InBounds(Extent(o, f[o]), maxSize)
    ensures forall x :: x in f ==> 0 < f[x] && (x + f[x] < o || x == o || o + f[o] < x)
  {
    assert Sound(f, o, maxSize);
    forall x | x in f ensures 0 < f[x] && (x + f[x] < o || x == o || o + f[o] < x) {
      assert Sound(f, x, maxSize) && Apart(f, x, o) && Apart(f, o, x);
    }
  }

  lemma AllSound(f: FreeSet, maxSize: int)
    requires Canonical(f, maxSize)
    ensures forall o :: o in f ==> InBounds(Extent(o, f[o]), maxSize)
  {
    forall o | o in f ensures InBounds(Extent(o, f[o]), maxSize) {
      assert Sound(f, o, maxSize);
    }
  }

  /** In a canonical set a run of free bytes lies inside one extent. */
  lemma RunInOneExtent(f: FreeSet, maxSize: int, q: int, size: int)
    requires Canonical(f, maxSize) && 0 < size && FreeRun(f, q, size)
    ensures exists o :: o in f && o <= q && q + size <= o + f[o]
  {
    assert Free(f, q);
    var o :| o in f && o <= q < o + f[o];
    Around(f, maxSize, o);
    assert !Free(f, o + f[o]);
  }

  /** Every extent of a canonical set is a maximal gap: the bytes on both sides of it are not free. */
  lemma ExtentsAreMaximal(f: FreeSet, maxSize: int, o: int)
    requires Canonical(f, maxSize) && o in f
    ensures FreeRun(f, o, f[o]) && !Free(f, o - 1) && !Free(f, o + f[o])
  {
    Around(f, maxSize, o);
  }

  lemma SameBytesSameExtent(f: FreeSet, g: FreeSet, maxSize: int, o: int)
    requires Canonical(f, maxSize) && Canonical(g, maxSize)
    requires forall p :: Free(f, p) <==> Free(g, p)
    requires o in f
    ensures o in g && f[o] <= g[o]
  {
    ExtentsAreMaximal(f, maxSize, o);
    assert FreeRun(g, o, f[o]);
    Around(f, maxSize, o);
    RunInOneExtent(g, maxSize, o, f[o]);
    var o' :| o' in g && o' <= o && o + f[o] <= o' + g[o'];
    if o' < o {
      assert Free(g, o - 1);
      assert false;
    }
  }

  /** A canonical free set is determined by which bytes are free. */
  lemma CanonicalUnique(f: FreeSet, g: FreeSet, maxSize: int)
    requires Canonical(f, maxSize) && Canonical(g, maxSize)
    requires forall p :: Free(f, p) <==> Free(g, p)
    ensures f == g
  {
    forall o | o in f ensures o in g && f[o] == g[o] {
      SameBytesSameExtent(f, g, maxSize, o);
      SameBytesSameExtent(g, f, maxSize, o);
    }
    forall o | o in g ensures o in f {
      SameBytesSameExtent(g, f, maxSize, o);
    }
  }
}
