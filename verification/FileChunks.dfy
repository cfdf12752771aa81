/** Keys of chunks in the tables of the Barista, and the order in which those tables are walked. */
module FileChunks {

  datatype FileChunk = FileChunk(fileId: int, stripeId: nat, chunkNum: nat)

  /** The order that is meant: by file, then stripe, then chunk. */
  predicate ChunkLess(a: FileChunk, b: FileChunk) {
    if a.fileId != b.fileId then a.fileId < b.fileId
    else if a.stripeId != b.stripeId then a.stripeId < b.stripeId
    else a.chunkNum < b.chunkNum
  }

  /** The order as it is written: for two stripes of a file it compares the file id of the left
      chunk with the stripe id of the right one. */
  predicate WrittenLess(a: FileChunk, b: FileChunk) {
    if a.fileId != b.fileId then a.fileId < b.fileId
    else if a.stripeId != b.stripeId then a.fileId < b.stripeId
    else a.chunkNum < b.chunkNum
  }

  /** What an ordered table needs of its order, on the chunks of some stripes of a file: of two different
      chunks exactly one comes before the other. */
  ghost predicate OrdersStripes(less: (FileChunk, FileChunk) -> bool, f: int, stripes: set<nat>) {
    forall a: FileChunk, b: FileChunk :: InStripes(a, f, stripes) && InStripes(b, f, stripes) && a != b ==>
      (less(a, b) <==> !less(b, a))
  }

  predicate InStripes(c: FileChunk, f: int, stripes: set<nat>) {
    c.fileId == f && c.stripeId in stripes
  }

  /** There is at most one stripe, or there are two, and the file id is from the first up to, but not
      including, the second. */
  ghost predicate OneOrTwoAround(stripes: set<nat>, f: int) {
    |stripes| <= 1 || exists i: nat, j: nat :: stripes == {i, j} && i <= f < j
  }

  /** The order as written is good for just these sets of stripes, and then it is the order that is meant. */
  lemma WrittenOrderWorks(f: int, stripes: set<nat>)
    ensures OrdersStripes(WrittenLess, f, stripes) <==> OneOrTwoAround(stripes, f)
    ensures OrdersStripes(WrittenLess, f, stripes) ==>
              forall a, b :: InStripes(a, f, stripes) && InStripes(b, f, stripes) ==>
                  (WrittenLess(a, b) <==> ChunkLess(a, b))
  {
    if |stripes| <= 1 {
      forall i, j | i in stripes && j in stripes ensures i == j {
        OneElement(stripes, i, j);
      }
    } else if OrdersStripes(WrittenLess, f, stripes) {
      forall i, j | i in stripes && j in stripes && i < j ensures i <= f < j {
        var a, b := FileChunk(f, i, 1), FileChunk(f, j, 1);
        assert WrittenLess(a, b) <==> !WrittenLess(b, a);
      }
      OnlyTwo(stripes, f);
    }
  }

  lemma OneElement(s: set<nat>, i: nat, j: nat)
    requires |s| <= 1 && i in s && j in s
    ensures i == j
  {
    var rest := s - {i};
    assert |rest| == 0;
    assert j !in rest;
  }

  /** Three stripes cannot all be around the same number. */
  lemma OnlyTwo(s: set<nat>, f: int)
    requires |s| >= 2 && forall i, j :: i in s && j in s && i < j ==> i <= f < j
    ensures exists i: nat, j: nat :: s == {i, j} && i <= f < j
  {
    var x: nat :| x in s;
    assert |s - {x}| >= 1;
    var y: nat :| y in s - {x};
    var i, j := if x < y then x else y, if x < y then y else x;
    forall k | k in s ensures k in {i, j} {
    }
    assert s == {i, j};
  }

  /** The first chunks of the first two stripes of file 2: neither comes before the other. */
  lemma TwoStripesOfFileTwo()
    ensures var a, b := FileChunk(2, 1, 1), FileChunk(2, 2, 1);
            a != b && !WrittenLess(a, b) && !WrittenLess(b, a)
  {
  }

  lemma MeantOrderWorks(f: int, stripes: set<nat>)
    ensures OrdersStripes(ChunkLess, f, stripes)
  {
  }

  // ---------------------------------------------------------------------------
  // What the order as written does to a table
  // ---------------------------------------------------------------------------

  /** Assigning a value to a key of an ordered table, here the list of its entries: the key goes before the
      first entry that does not come before it, or takes the place of that entry if the two are the same. */
  function Assigned<T>(less: (FileChunk, FileChunk) -> bool, table: seq<(FileChunk, T)>, c: FileChunk, value: T)
    : seq<(FileChunk, T)>
  {
    if table == [] then [(c, value)]
    else if less(table[0].0, c) then [table[0]] + Assigned(less, table[1..], c, value)
    else if less(c, table[0].0) then [(c, value)] + table
    else [(table[0].0, value)] + table[1..]
  }

  /** The table of two pieces of a read after they have arrived, `a` and then `b`. */
  function Arrived<T>(less: (FileChunk, FileChunk) -> bool, a: (FileChunk, T), b: (FileChunk, T)): seq<(FileChunk, T)> {
    Assigned(less, Assigned(less, [], a.0, a.1), b.0, b.1)
  }

  /** Two pieces from different stripes of a file. When the id of the file is not below the second stripe,
      they share one entry, and the piece that arrives first is lost. When it is below the first, each
      piece comes before the other, and they are put together in the order of arrival. Otherwise, and with
      the order that is meant always, both are kept in the order of the file. */
  lemma TwoPieces<T>(a: (FileChunk, T), b: (FileChunk, T), f: int)
    requires a.0.fileId == b.0.fileId == f && a.0.stripeId < b.0.stripeId
    ensures b.0.stripeId <= f ==>
              Arrived(WrittenLess, a, b) == [(a.0, b.1)] && Arrived(WrittenLess, b, a) == [(b.0, a.1)]
    ensures f < a.0.stripeId ==> Arrived(WrittenLess, a, b) == [a, b] && Arrived(WrittenLess, b, a) == [b, a]
    ensures a.0.stripeId <= f < b.0.stripeId ==> Arrived(WrittenLess, a, b) == Arrived(WrittenLess, b, a) == [a, b]
    ensures Arrived(ChunkLess, a, b) == Arrived(ChunkLess, b, a) == [a, b]
  {
    assert Assigned(WrittenLess, [], a.0, a.1) == [a] && Assigned(WrittenLess, [], b.0, b.1) == [b];
    assert Assigned(ChunkLess, [], a.0, a.1) == [a] && Assigned(ChunkLess, [], b.0, b.1) == [b];
    assert Assigned(WrittenLess, [a][1..], b.0, b.1) == [b] && Assigned(ChunkLess, [a][1..], b.0, b.1) == [b];
    assert Assigned(WrittenLess, [b][1..], a.0, a.1) == [a];
  }

  lemma EmptyOrHasChunk(s: set<FileChunk>)
    ensures s == {} || exists c :: c in s
  {
  }

  lemma ChunkLessTotal(a: FileChunk, b: FileChunk)
    ensures a == b || ChunkLess(a, b) || ChunkLess(b, a)
    ensures !(ChunkLess(a, b) && ChunkLess(b, a))
  {
  }

  lemma ChunkLessTrans(a: FileChunk, b: FileChunk, c: FileChunk)
    ensures ChunkLess(a, b) && ChunkLess(b, c) ==> ChunkLess(a, c)
  {
  }

  /** `m` comes before all other chunks of `s`. */
  ghost predicate IsLeast(s: set<FileChunk>, m: FileChunk) {
    m in s && forall c :: c in s && c != m ==> ChunkLess(m, c)
  }

  lemma LeastExists(s: set<FileChunk>)
    requires s != {}
    ensures exists m :: IsLeast(s, m)
  {
    hide ChunkLess;
    EmptyOrHasChunk(s);
    var x :| x in s;
    var rest := s - {x};
    if rest == {} {
      forall c | c in s ensures c == x {
        assert c != x ==> c in rest;
      }
      assert IsLeast(s, x);
    } else {
      LeastExists(rest);
      var m :| IsLeast(rest, m);
      var least := if ChunkLess(m, x) then m else x;
      ChunkLessTotal(m, x);
      forall c | c in s && c != least ensures ChunkLess(least, c) {
        assert c != x ==> c in rest;
        ChunkLessTrans(x, m, c);
      }
      assert IsLeast(s, least);
    }
  }

  /** The first key of an ordered table. */
  function Least(s: set<FileChunk>): (m: FileChunk)
    requires s != {}
    ensures IsLeast(s, m)
  {
    LeastExists(s);
    LeastUnique(s);
    var m :| m in s && forall c :: c in s && c != m ==> ChunkLess(m, c);
    m
  }

  lemma LeastUnique(s: set<FileChunk>)
    ensures forall m, m' :: IsLeast(s, m) && IsLeast(s, m') ==> m == m'
  {
  }
}
