/** Matching the elements of a container in any order: the table of who accepts whom, and the verdict. */
module UnorderedElements {
  import opened BipartiteMatching

  lemma OthersKept(g: MatchMatrix, l: nat, r: nat, b: bool)
    requires g.Valid() && l < g.numElements && r < g.numMatchers
    ensures forall l': nat, r': nat :: l' < g.numElements && r' < g.numMatchers ==>
              HasEdge(SetEdge(g, l, r, b), l', r') == if l' == l && r' == r then b else HasEdge(g, l', r')
  {
    hide HasEdge, SetEdge;
    forall l': nat, r': nat | l' < g.numElements && r' < g.numMatchers
      ensures HasEdge(SetEdge(g, l, r, b), l', r') == if l' == l && r' == r then b else HasEdge(g, l', r') {
      SetEdgeSetsOne(g, l, r, b, l', r');
    }
  }

  /** Tries every matcher on every element, and enters the results into a matrix. `rows` says which matchers accept
      which element. */
  method AnalyzeElements(rows: seq<seq<bool>>, n: nat) returns (matrix: MatchMatrix)
    requires IsTable(rows, n)
    ensures matrix.Valid() && matrix.numElements == |rows| && matrix.numMatchers == n
    ensures forall l: nat, r: nat :: l < |rows| && r < n ==> HasEdge(matrix, l, r) == rows[l][r]
  {
    hide HasEdge, SetEdge, Flattened;
    var didMatch := TryAll(rows, n);
    matrix := MatchMatrix(|rows|, n, seq(|rows| * n, _ => false));
    var next := 0;
    for l := 0 to |rows|
      invariant matrix.Valid() && matrix.numElements == |rows| && matrix.numMatchers == n && next == l * n
      invariant forall l', r' :: 0 <= l' < l && 0 <= r' < n ==> HasEdge(matrix, l', r') == rows[l'][r']
    {
      for r := 0 to n
        invariant matrix.Valid() && matrix.numElements == |rows| && matrix.numMatchers == n && next == l * n + r
        invariant forall l', r' :: 0 <= l' < l && 0 <= r' < n ==> HasEdge(matrix, l', r') == rows[l'][r']
        invariant forall r' :: 0 <= r' < r ==> HasEdge(matrix, l, r') == rows[l][r']
      {
        FlattenedAt(rows, n, l, r);
        OthersKept(matrix, l, r, didMatch[next]);
        matrix := SetEdge(matrix, l, r, didMatch[next]);
        next := next + 1;
      }
    }
  }

  /** The matchings of a matrix that holds the rows one after the other are those of the rows. */
  lemma MatchingsOfRows(rows: seq<seq<bool>>, n: nat, m: set<(int, int)>)
    requires IsTable(rows, n)
    ensures var g := MatchMatrix(|rows|, n, Flattened(rows));
            && g.Valid()
            && (IsMatching(g, m) <==>
                && (forall e :: e in m ==> 0 <= e.0 < |rows| && 0 <= e.1 < n && rows[e.0][e.1])
                && (forall e, e' :: e in m && e' in m && (e.0 == e'.0 || e.1 == e'.1) ==> e == e'))
  {
    EdgesOfRows(rows, n);
    hide HasEdge, Flattened;
  }

  /** All results, in the order in which they are found out. */
  method TryAll(rows: seq<seq<bool>>, n: nat) returns (didMatch: seq<bool>)
    requires IsTable(rows, n)
    ensures didMatch == Flattened(rows)
  {
    didMatch := [];
    for l := 0 to |rows|
      invariant didMatch == Flattened(rows[..l])
    {
      ghost var before := didMatch;
      for r := 0 to n
        invariant didMatch == before + rows[l][..r]
      {
        didMatch := didMatch + [rows[l][r]];
      }
      assert rows[..l + 1][..l] == rows[..l];
    }
    assert rows[..|rows|] == rows;
  }

  /** One of the first `r` matchers accepts the element. */
  ghost predicate IsAccepted(g: MatchMatrix, l: int, r: int)
    requires g.Valid()
  {
    exists x :: x < r && Edge(g, l, x)
  }

  /** The matcher accepts one of the first `l` elements. */
  ghost predicate Accepts(g: MatchMatrix, r: int, l: int)
    requires g.Valid()
  {
    exists x :: x < l && Edge(g, x, r)
  }

  lemma AcceptedNext(g: MatchMatrix, l: int, r: int)
    requires g.Valid()
    ensures IsAccepted(g, l, r + 1) <==> IsAccepted(g, l, r) || Edge(g, l, r)
    ensures Accepts(g, r, l + 1) <==> Accepts(g, r, l) || Edge(g, l, r)
  {
  }

  lemma NoneYet(g: MatchMatrix)
    requires g.Valid()
    ensures (forall l :: !IsAccepted(g, l, 0)) && (forall r :: !Accepts(g, r, 0))
  {
  }

  /** Every element is accepted by some matcher, and every matcher accepts some element. */
  method VerifyAllElementsAndMatchersAreMatched(matrix: MatchMatrix) returns (result: bool)
    requires matrix.Valid()
    ensures result <==> && (forall l :: 0 <= l < matrix.numElements ==> IsAccepted(matrix, l, matrix.numMatchers))
                        && (forall r :: 0 <= r < matrix.numMatchers ==> Accepts(matrix, r, matrix.numElements))
  {
    hide HasEdge, IsAccepted, Accepts;
    var elementMatched := new bool[matrix.numElements](_ => false);
    var matcherMatched := new bool[matrix.numMatchers](_ => false);
    NoneYet(matrix);
    for l := 0 to matrix.numElements
      invariant forall l' :: 0 <= l' < l ==> (elementMatched[l'] <==> IsAccepted(matrix, l', matrix.numMatchers))
      invariant forall l' :: l <= l' < matrix.numElements ==> !elementMatched[l']
      invariant forall r :: 0 <= r < matrix.numMatchers ==>
                  (matcherMatched[r] <==> Accepts(matrix, r, l))
    {
      for r := 0 to matrix.numMatchers
        invariant forall l' :: 0 <= l' < l ==> (elementMatched[l'] <==> IsAccepted(matrix, l', matrix.numMatchers))
        invariant forall l' :: l < l' < matrix.numElements ==> !elementMatched[l']
        invariant elementMatched[l] <==> IsAccepted(matrix, l, r)
        invariant forall r' :: r <= r' < matrix.numMatchers ==>
                    (matcherMatched[r'] <==> Accepts(matrix, r', l))
        invariant forall r' :: 0 <= r' < r ==>
                    (matcherMatched[r'] <==> Accepts(matrix, r', l + 1))
      {
        var matched := HasEdge(matrix, l, r);
        assert Edge(matrix, l, r) <==> matched;
        AcceptedNext(matrix, l, r);
        elementMatched[l] := elementMatched[l] || matched;
        matcherMatched[r] := matcherMatched[r] || matched;
      }
    }
    result := true;
    for r := 0 to matrix.numMatchers
      invariant result <==> forall r' :: 0 <= r' < r ==> matcherMatched[r']
    {
      if !matcherMatched[r] {
        result := false;
      }
    }
    ghost var matchers := result;
    for l := 0 to matrix.numElements
      invariant result <==> matchers && forall l' :: 0 <= l' < l ==> elementMatched[l']
    {
      if !elementMatched[l] {
        result := false;
      }
    }
  }

  /** Each element is given a matcher that accepts it, and no matcher is given twice. */
  ghost predicate IsAssignment(rows: seq<seq<bool>>, n: nat, p: seq<int>)
    requires IsTable(rows, n)
  {
    && |p| == |rows|
    && (forall l :: 0 <= l < |p| ==> 0 <= p[l] < n && rows[l][p[l]])
    && (forall l, l' :: 0 <= l < l' < |p| ==> p[l] != p[l'])
  }

  /** A container matches when and only when there are as many matchers as elements, and these can be given to the
      elements, one each, so that all are accepted. */
  method MatchAndExplain(rows: seq<seq<bool>>, n: nat) returns (ok: bool)
    requires IsTable(rows, n)
    ensures ok <==> |rows| == n && exists p :: IsAssignment(rows, n, p)
  {
    var matrix := AnalyzeElements(rows, n);
    if matrix.numElements == 0 && n == 0 {
      assert IsAssignment(rows, n, []);
      return true;
    }
    if matrix.numElements != n {
      return false;
    }
    hide HasEdge;
    PairedIffAssigned(rows, n, matrix);
    ok := VerifyAllElementsAndMatchersAreMatched(matrix);
    if ok {
      ok := FindPairing(matrix);
    } else {
      PairedHasEdges(matrix);
    }
  }

  ghost predicate HasFullMatching(g: MatchMatrix)
    requires g.Valid()
  {
    exists m :: IsMatching(g, m) && |m| == g.numMatchers
  }

  lemma PairedHasEdges(g: MatchMatrix)
    requires g.Valid() && g.numElements == g.numMatchers
    ensures HasFullMatching(g) ==>
              && (forall l :: 0 <= l < g.numElements ==> IsAccepted(g, l, g.numMatchers))
              && (forall r :: 0 <= r < g.numMatchers ==> Accepts(g, r, g.numElements))
  {
    hide HasEdge;
    if HasFullMatching(g) {
      var m :| IsMatching(g, m) && |m| == g.numMatchers;
      forall l | 0 <= l < g.numElements ensures IsAccepted(g, l, g.numMatchers) {
        EveryElementMatched(g, m, l);
        var r :| (l, r) in m;
        assert Edge(g, (l, r).0, (l, r).1);
      }
      forall r | 0 <= r < g.numMatchers ensures Accepts(g, r, g.numElements) {
        EveryMatcherMatched(g, m, r);
        var l :| (l, r) in m;
        assert Edge(g, (l, r).0, (l, r).1);
      }
    }
  }

  /** With as many elements as matchers, a full matching leaves out no element either. */
  lemma EveryElementMatched(g: MatchMatrix, m: set<(int, int)>, l: int)
    requires g.Valid() && IsMatching(g, m) && |m| == g.numElements && 0 <= l < g.numElements
    ensures exists r :: (l, r) in m
  {
    var others := RightNodes(g.numElements) - {l};
    if forall r :: (l, r) !in m {
      forall e | e in m ensures e.0 in others {
        assert Edge(g, e.0, e.1) && (e.0, e.1) == e;
      }
      InjectionSize(m, others, (e: (int, int)) => e.0);
    }
  }

  /** A full matching and an assignment are the same thing. */
  lemma PairedIffAssigned(rows: seq<seq<bool>>, n: nat, g: MatchMatrix)
    requires IsTable(rows, n) && g.Valid() && g.numElements == |rows| == n == g.numMatchers
    requires forall l: nat, r: nat :: l < |rows| && r < n ==> HasEdge(g, l, r) == rows[l][r]
    ensures HasFullMatching(g) <==> exists p :: IsAssignment(rows, n, p)
  {
    hide HasEdge;
    if HasFullMatching(g) {
      var m :| IsMatching(g, m) && |m| == g.numMatchers;
      AssignmentOf(rows, n, g, m);
    }
    if exists p :: IsAssignment(rows, n, p) {
      var p :| IsAssignment(rows, n, p);
      MatchingOf(rows, n, g, p);
    }
  }

  lemma AssignmentOf(rows: seq<seq<bool>>, n: nat, g: MatchMatrix, m: set<(int, int)>)
    requires IsTable(rows, n) && g.Valid() && g.numElements == |rows| == n == g.numMatchers
    requires forall l: nat, r: nat :: l < |rows| && r < n ==> HasEdge(g, l, r) == rows[l][r]
    requires IsMatching(g, m) && |m| == n
    ensures exists p :: IsAssignment(rows, n, p)
  {
    hide HasEdge;
    var p := seq(n, l requires 0 <= l < n => MatcherOf(m, l));
    forall l | 0 <= l < n ensures (l, p[l]) in m && 0 <= p[l] < n && rows[l][p[l]] {
      EveryElementMatched(g, m, l);
      assert Edge(g, (l, p[l]).0, (l, p[l]).1);
    }
    forall l, l' | 0 <= l < l' < n ensures p[l] != p[l'] {
      assert (l, p[l]) in m && (l', p[l']) in m && (l, p[l]) != (l', p[l']);
    }
    assert IsAssignment(rows, n, p);
  }

  ghost function MatcherOf(m: set<(int, int)>, l: int): (r: int)
    ensures (exists x :: (l, x) in m) ==> (l, r) in m
  {
    if x :| (l, x) in m then x else 0
  }

  lemma MatchingOf(rows: seq<seq<bool>>, n: nat, g: MatchMatrix, p: seq<int>)
    requires IsTable(rows, n) && g.Valid() && g.numElements == |rows| == n == g.numMatchers
    requires forall l: nat, r: nat :: l < |rows| && r < n ==> HasEdge(g, l, r) == rows[l][r]
    requires IsAssignment(rows, n, p)
    ensures HasFullMatching(g)
  {
    hide HasEdge;
    var m := set l | 0 <= l < n :: (l, p[l]);
    PairsMatch(rows, n, g, p, m);
    hide IsAssignment, IsTable, IsMatching;
    forall l | l in RightNodes(n) ensures (l, p[l]) in m {
    }
    InjectionSize(RightNodes(n), m, l => if 0 <= l < |p| then (l, p[l]) else (l, 0));
    MatchingFits(g, m);
  }

  lemma PairsMatch(rows: seq<seq<bool>>, n: nat, g: MatchMatrix, p: seq<int>, m: set<(int, int)>)
    requires IsTable(rows, n) && g.Valid() && g.numElements == |rows| == n == g.numMatchers
    requires forall l: nat, r: nat :: l < |rows| && r < n ==> HasEdge(g, l, r) == rows[l][r]
    requires IsAssignment(rows, n, p) && forall e :: e in m ==> 0 <= e.0 < n && e.1 == p[e.0]
    ensures IsMatching(g, m)
  {
    hide HasEdge;
  }
}
