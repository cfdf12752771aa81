/** Maximum bipartite matching by depth-first augmentation. */
module BipartiteMatching {

  const UNUSED: int := -1

  /** Which elements (left nodes) are accepted by which matchers (right nodes): a matrix,
      flattened row by row. */
  datatype MatchMatrix = MatchMatrix(numElements: nat, numMatchers: nat, matched: seq<bool>) {
    ghost predicate Valid() {
      |matched| == numElements * numMatchers
    }
  }

  function SpaceIndex(g: MatchMatrix, l: nat, r: nat): (k: nat)
    requires l < g.numElements && r < g.numMatchers
    ensures k < g.numElements * g.numMatchers
  {
    assert (l + 1) * g.numMatchers <= g.numElements * g.numMatchers;
    l * g.numMatchers + r
  }

  predicate HasEdge(g: MatchMatrix, l: nat, r: nat)
    requires g.Valid() && l < g.numElements && r < g.numMatchers
  {
    g.matched[SpaceIndex(g, l, r)]
  }

  /** Sets or clears one edge. */
  function SetEdge(g: MatchMatrix, l: nat, r: nat, b: bool): (g': MatchMatrix)
    requires g.Valid() && l < g.numElements && r < g.numMatchers
    ensures g'.Valid() && g'.numElements == g.numElements && g'.numMatchers == g.numMatchers
  {
    g.(matched := g.matched[SpaceIndex(g, l, r) := b])
  }

  lemma SpaceIndexGrows(g: MatchMatrix, l: nat, r: nat, l': nat, r': nat)
    requires l < l' < g.numElements && r < g.numMatchers && r' < g.numMatchers
    ensures SpaceIndex(g, l, r) < SpaceIndex(g, l', r')
  {
    assert (l + 1) * g.numMatchers <= l' * g.numMatchers;
  }

  /** No two pairs have the same place in the matrix. */
  lemma SpaceIndexUnique(g: MatchMatrix, l: nat, r: nat, l': nat, r': nat)
    requires l < g.numElements && r < g.numMatchers && l' < g.numElements && r' < g.numMatchers
    ensures SpaceIndex(g, l, r) == SpaceIndex(g, l', r') <==> l == l' && r == r'
  {
    if l < l' {
      SpaceIndexGrows(g, l, r, l', r');
    } else if l' < l {
      SpaceIndexGrows(g, l', r', l, r);
    }
  }

  /** Setting one edge changes this edge and no other. */
  lemma SetEdgeSetsOne(g: MatchMatrix, l: nat, r: nat, b: bool, l': nat, r': nat)
    requires g.Valid() && l < g.numElements && r < g.numMatchers && l' < g.numElements && r' < g.numMatchers
    ensures HasEdge(SetEdge(g, l, r, b), l', r') == if l' == l && r' == r then b else HasEdge(g, l', r')
  {
    SpaceIndexUnique(g, l, r, l', r');
    hide SpaceIndex;
  }

  // ---------------------------------------------------------------------------
  // Rows
  // ---------------------------------------------------------------------------

  /** One row for each element, that says which of `n` matchers accept it. */
  ghost predicate IsTable(rows: seq<seq<bool>>, n: nat) {
    forall l :: 0 <= l < |rows| ==> |rows[l]| == n
  }

  /** All rows, one after the other. */
  function Flattened(rows: seq<seq<bool>>): seq<bool> {
    if rows == [] then [] else Flattened(rows[..|rows| - 1]) + rows[|rows| - 1]
  }

  lemma {:induction false} FlattenedSize(rows: seq<seq<bool>>, n: nat)
    requires IsTable(rows, n)
    ensures |Flattened(rows)| == |rows| * n
  {
    if rows != [] {
      var last := |rows| - 1;
      FlattenedSize(rows[..last], n);
      assert last * n + n == |rows| * n;
    }
  }

  lemma {:induction false} FlattenedAt(rows: seq<seq<bool>>, n: nat, l: nat, r: nat)
    requires IsTable(rows, n) && l < |rows| && r < n
    ensures l * n + r < |Flattened(rows)| && Flattened(rows)[l * n + r] == rows[l][r]
  {
    var last := |rows| - 1;
    FlattenedSize(rows[..last], n);
    if l < last {
      FlattenedAt(rows[..last], n, l, r);
    }
  }

  /** A matrix that holds the rows one after the other has the edges that they say. */
  lemma EdgesOfRows(rows: seq<seq<bool>>, n: nat)
    requires IsTable(rows, n)
    ensures var g := MatchMatrix(|rows|, n, Flattened(rows));
            g.Valid() && forall l: nat, r: nat :: l < |rows| && r < n ==> HasEdge(g, l, r) == rows[l][r]
  {
    FlattenedSize(rows, n);
    var g := MatchMatrix(|rows|, n, Flattened(rows));
    forall l: nat, r: nat | l < |rows| && r < n ensures HasEdge(g, l, r) == rows[l][r] {
      FlattenedAt(rows, n, l, r);
    }
  }

  /** There is an edge between `l` and `r`, which may be any numbers. */
  ghost predicate Edge(g: MatchMatrix, l: int, r: int)
    requires g.Valid()
  {
    0 <= l < g.numElements && 0 <= r < g.numMatchers && HasEdge(g, l, r)
  }

  /** All neighbours of left node `l` are in `t`. */
  ghost predicate Within(g: MatchMatrix, l: int, t: set<int>)
    requires g.Valid()
  {
    forall r :: Edge(g, l, r) ==> r in t
  }

  /** `t` is a saturated neighbourhood: each of its right nodes is matched, and the left node it
      is matched to has no neighbours outside `t`. */
  ghost predicate Saturated(g: MatchMatrix, right: seq<int>, t: set<int>)
    requires g.Valid()
  {
    forall r :: r in t ==> 0 <= r < |right| && right[r] != UNUSED && Within(g, right[r], t)
  }

  /** Left entries point along edges to right nodes that point back. */
  ghost predicate LeftMutual(g: MatchMatrix, left: seq<int>, right: seq<int>)
    requires g.Valid()
  {
    forall l :: 0 <= l < |left| && left[l] != UNUSED ==>
      0 <= left[l] < |right| && Edge(g, l, left[l]) && right[left[l]] == l
  }

  /** Right entries, except perhaps the one at `stale`, point to left nodes that point back. */
  ghost predicate RightMutual(left: seq<int>, right: seq<int>, stale: int) {
    forall r :: 0 <= r < |right| && right[r] != UNUSED && r != stale ==>
      0 <= right[r] < |left| && left[right[r]] == r
  }

  ghost predicate Mutual(g: MatchMatrix, left: seq<int>, right: seq<int>)
    requires g.Valid()
  {
    LeftMutual(g, left, right) && RightMutual(left, right, UNUSED)
  }

  /** The right nodes that a search has still to see. */
  ghost function Unseen(seen: seq<bool>): set<int> {
    set r | 0 <= r < |seen| && !seen[r]
  }

  lemma UnseenShrinks(seen: seq<bool>, seen': seq<bool>, r: int)
    requires |seen| == |seen'| && 0 <= r < |seen| && !seen[r] && seen'[r]
    requires forall x :: 0 <= x < |seen| && seen[x] ==> seen'[x]
    ensures Unseen(seen') < Unseen(seen)
  {
    assert r in Unseen(seen) && r !in Unseen(seen');
  }

  /** Flow was pushed from `l`: it is matched now, to a right node not seen before, and no other
      left node became matched or unmatched. Entries of right nodes seen before are as they were,
      which leaves the one of the old partner of `l` stale. */
  ghost predicate Augmented(g: MatchMatrix, left: seq<int>, right: seq<int>, seen: seq<bool>,
                            left': seq<int>, right': seq<int>, l: int)
    requires g.Valid() && 0 <= l < |left| == |left'| && |right| == |right'| == |seen|
  {
    && 0 <= left'[l] < |right| && !seen[left'[l]]
    && (forall x :: 0 <= x < |left| && x != l ==> (left'[x] == UNUSED <==> left[x] == UNUSED))
    && (forall x :: 0 <= x < |left| && x != l && 0 <= left[x] < |seen| && seen[left[x]] ==> left'[x] == left[x])
    && (forall r :: 0 <= r < |right| && seen[r] ==> right'[r] == right[r])
    && LeftMutual(g, left', right')
    && RightMutual(left', right', left[l])
  }

  /** Pushing flow from `l` straight to an unmatched right node. */
  lemma LinkUnmatched(g: MatchMatrix, left: seq<int>, right: seq<int>, seen: seq<bool>, l: int, r: int)
    requires g.Valid() && 0 <= l < |left| && |right| == |seen| && Mutual(g, left, right)
    requires Edge(g, l, r) && 0 <= r < |right| && !seen[r] && right[r] == UNUSED
    ensures Augmented(g, left, right, seen, left[l := r], right[r := l], l)
  {
  }

  /** Pushing flow from `l` to `r` once the left node that `r` was matched to has found another partner. */
  lemma LinkRematched(g: MatchMatrix, left: seq<int>, right: seq<int>, seen: seq<bool>, seen1: seq<bool>,
                      left1: seq<int>, right1: seq<int>, l: int, r: int)
    requires g.Valid() && 0 <= l < |left| == |left1| && |right| == |right1| == |seen| == |seen1|
    requires Mutual(g, left, right) && (left[l] == UNUSED || (0 <= left[l] < |seen| && seen[left[l]]))
    requires Edge(g, l, r) && 0 <= r < |right| && !seen[r] && seen1[r] && 0 <= right[r] < |left|
    requires forall x :: 0 <= x < |seen| && seen[x] ==> seen1[x]
    requires Augmented(g, left, right, seen1, left1, right1, right[r])
    ensures Augmented(g, left, right, seen, left1[l := r], right1[r := l], l)
  {
  }

  class MaxBipartiteMatchState {
    const graph: MatchMatrix
    const left: array<int>
    const right: array<int>

    ghost predicate Valid()
    {
      && graph.Valid()
      && left.Length == graph.numElements
      && right.Length == graph.numMatchers
      && left != right
    }

    constructor (graph: MatchMatrix)
      requires graph.Valid()
      ensures Valid() && this.graph == graph && fresh(left) && fresh(right)
      ensures forall l :: 0 <= l < left.Length ==> left[l] == UNUSED
      ensures forall r :: 0 <= r < right.Length ==> right[r] == UNUSED
    {
      this.graph := graph;
      left := new int[graph.numElements](_ => UNUSED);
      right := new int[graph.numMatchers](_ => UNUSED);
    }

    /** Searches for an augmenting path from left node `l` that avoids the right nodes already
        seen, and pushes flow along it when there is one. `t` is a saturated neighbourhood. */
    method TryAugment(l: int, seen: array<bool>, ghost t: set<int>) returns (found: bool)
      requires Valid() && 0 <= l < left.Length && seen.Length == right.Length
      requires Mutual(graph, left[..], right[..])
      requires left[l] == UNUSED || seen[left[l]]
      requires Saturated(graph, right[..], t)
      modifies left, right, seen
      decreases Unseen(seen[..])
      ensures forall r :: 0 <= r < seen.Length && old(seen[r]) ==> seen[r]
      // a failed search changes no flow and has seen everything that can be reached
      ensures !found ==> left[..] == old(left[..]) && right[..] == old(right[..])
      ensures !found ==> forall r :: Edge(graph, l, r) ==> seen[r]
      ensures !found ==> forall r :: 0 <= r < seen.Length && seen[r] && !old(seen[r]) ==>
                right[r] != UNUSED && forall r' :: Edge(graph, right[r], r') ==> seen[r']
      // a successful search matches `l` and leaves matched whatever was matched
      ensures found ==> Augmented(graph, old(left[..]), old(right[..]), old(seen[..]), left[..], right[..], l)
      // saturated neighbourhoods are left alone
      ensures forall r :: r in t ==> right[r] == old(right[r])
      ensures Within(graph, l, t) ==> !found
    {
      hide Augmented;
      var r := 0;
      while r < graph.numMatchers
        invariant 0 <= r <= graph.numMatchers
        invariant left[..] == old(left[..]) && right[..] == old(right[..])
        invariant forall x :: 0 <= x < seen.Length && old(seen[x]) ==> seen[x]
        invariant forall x :: 0 <= x < r && Edge(graph, l, x) ==> seen[x]
        invariant forall x :: 0 <= x < seen.Length && seen[x] && !old(seen[x]) ==>
                    right[x] != UNUSED && forall x' :: Edge(graph, right[x], x') ==> seen[x']
      {
        if !seen[r] && HasEdge(graph, l, r) {
          seen[r] := true;
          if right[r] == UNUSED {
            LinkUnmatched(graph, left[..], right[..], old(seen[..]), l, r);
            left[l] := r;
            right[r] := l;
            return true;
          }
          UnseenShrinks(old(seen[..]), seen[..], r);
          var next := right[r];
          ghost var seen1 := seen[..];
          found := TryAugment(next, seen, t);
          if found {
            LinkRematched(graph, old(left[..]), old(right[..]), old(seen[..]), seen1, left[..], right[..], l, r);
            left[l] := r;
            right[r] := l;
            return true;
          }
        }
        r := r + 1;
      }
      return false;
    }

    /** The matched pairs, in the order of their left nodes. */
    method ReadOff() returns (result: seq<(int, int)>)
      ensures result == Pairs(left[..])
    {
      result := [];
      var l := 0;
      while l < left.Length
        invariant 0 <= l <= left.Length
        invariant result == Pairs(left[..l]) {
        assert left[..l + 1][..l] == left[..l];
        if left[l] != UNUSED {
          result := result + [(l, left[l])];
        }
        l := l + 1;
      }
      assert left[..l] == left[..];
    }

    /** Tries every left node once, in order, and reads the matching off. */
    method Compute() returns (result: seq<(int, int)>, ghost t: set<int>)
      requires Valid()
      requires forall l :: 0 <= l < left.Length ==> left[l] == UNUSED
      requires forall r :: 0 <= r < right.Length ==> right[r] == UNUSED
      modifies left, right
      ensures IsMatching(graph, SetOf(result))
      ensures forall i, j :: 0 <= i < j < |result| ==> result[i].0 < result[j].0
      ensures forall m :: IsMatching(graph, m) ==> |m| <= |result|
      ensures Mutual(graph, left[..], right[..]) && result == Pairs(left[..])
      ensures Covers(graph, left[..], right[..], t)
    {
      t := {};
      var l := 0;
      while l < graph.numElements
        invariant 0 <= l <= graph.numElements
        invariant Mutual(graph, left[..], right[..])
        invariant forall x :: l <= x < left.Length ==> left[x] == UNUSED
        invariant Saturated(graph, right[..], t)
        invariant forall x :: 0 <= x < l && left[x] == UNUSED ==> Within(graph, x, t) {
        assert left[l] == UNUSED;
        var seen := new bool[graph.numMatchers](_ => false);
        var found := TryAugment(l, seen, t);
        if !found {
          t := t + set r | 0 <= r < seen.Length && seen[r];
        }
        l := l + 1;
      }
      MatchedPairs(graph, left[..], right[..]);
      CoverBoundsMatchings(graph, left[..], right[..], t);
      result := ReadOff();
    }
  }

  // ---------------------------------------------------------------------------
  // Matchings, and why none is larger
  // ---------------------------------------------------------------------------

  /** A set of edges no two of which share a left node or a right node. */
  ghost predicate IsMatching(g: MatchMatrix, m: set<(int, int)>)
    requires g.Valid()
  {
    && (forall e :: e in m ==> Edge(g, e.0, e.1))
    && (forall e, e' :: e in m && e' in m && (e.0 == e'.0 || e.1 == e'.1) ==> e == e')
  }

  ghost function SetOf(p: seq<(int, int)>): set<(int, int)> {
    set e | e in p
  }

  /** The matched pairs of the first left nodes, in order. */
  function Pairs(left: seq<int>): (p: seq<(int, int)>)
    ensures forall l, r :: (l, r) in p <==> 0 <= l < |left| && left[l] == r && r != UNUSED
    ensures forall i, j :: 0 <= i < j < |p| ==> p[i].0 < p[j].0
  {
    if left == [] then []
    else
      var n := |left| - 1;
      var p := Pairs(left[..n]);
      if left[n] == UNUSED then p else p + [(n, left[n])]
  }

  lemma MatchedPairs(g: MatchMatrix, left: seq<int>, right: seq<int>)
    requires g.Valid() && |left| == g.numElements && |right| == g.numMatchers
    requires Mutual(g, left, right)
    ensures IsMatching(g, SetOf(Pairs(left)))
  {
  }

  lemma SubsetSize<T>(a: set<T>, b: set<T>)
    requires a <= b
    ensures |a| <= |b|
  {
    assert b == a + (b - a);
  }

  /** A set that an injective function maps into another is no larger. */
  lemma {:induction false} InjectionSize<A(!new), B>(a: set<A>, b: set<B>, f: A -> B)
    requires forall x :: x in a ==> f(x) in b
    requires forall x, y :: x in a && y in a && f(x) == f(y) ==> x == y
    ensures |a| <= |b|
  {
    if a != {} {
      var x :| x in a;
      InjectionSize(a - {x}, b - {f(x)}, f);
      SubsetSize({f(x)}, b);
    }
  }

  /** The matched pair that stands for an edge of any other matching: the pair of its right
      node when that lies in `t`, and of its left node otherwise. */
  ghost function Cover(left: seq<int>, right: seq<int>, t: set<int>, e: (int, int)): (int, int) {
    if e.1 in t then (if 0 <= e.1 < |right| then (right[e.1], e.1) else e)
    else (if 0 <= e.0 < |left| then (e.0, left[e.0]) else e)
  }

  /** The certificate that a search leaves behind: a saturated set that holds all neighbours of
      every unmatched left node. */
  ghost predicate Covers(g: MatchMatrix, left: seq<int>, right: seq<int>, t: set<int>)
    requires g.Valid()
  {
    && Saturated(g, right, t)
    && forall l :: 0 <= l < |left| && left[l] == UNUSED ==> Within(g, l, t)
  }

  /** An edge that leaves `t` starts at a left node matched outside `t`. */
  lemma EdgeOutOfCover(g: MatchMatrix, left: seq<int>, right: seq<int>, t: set<int>, l: int, r: int)
    requires g.Valid() && |left| == g.numElements && |right| == g.numMatchers
    requires Mutual(g, left, right) && Covers(g, left, right, t)
    requires Edge(g, l, r) && r !in t
    ensures left[l] != UNUSED && left[l] !in t
  {
  }

  /** When such a certificate exists, no matching is larger than the one found. */
  lemma CoverBoundsMatchings(g: MatchMatrix, left: seq<int>, right: seq<int>, t: set<int>)
    requires g.Valid() && |left| == g.numElements && |right| == g.numMatchers
    requires Mutual(g, left, right) && Covers(g, left, right, t)
    ensures forall m :: IsMatching(g, m) ==> |m| <= |Pairs(left)|
  {
    var found := SetOf(Pairs(left));
    SortedPairsSize(Pairs(left));
    forall m | IsMatching(g, m) ensures |m| <= |found| {
      var cover := e => Cover(left, right, t, e);
      forall e | e in m ensures cover(e) in found && (e.1 in t <==> cover(e).1 in t) {
        assert Edge(g, e.0, e.1);
        if e.1 !in t {
          EdgeOutOfCover(g, left, right, t, e.0, e.1);
        }
      }
      InjectionSize(m, found, cover);
    }
  }

  // ---------------------------------------------------------------------------
  // When every matcher can be given an element of its own
  // ---------------------------------------------------------------------------

  /** The elements that some matcher of `s` accepts. */
  ghost function Neighbours(g: MatchMatrix, s: set<int>): set<int>
    requires g.Valid()
  {
    set l | 0 <= l < g.numElements && Accepted(g, l, s)
  }

  ghost predicate Accepted(g: MatchMatrix, l: int, s: set<int>)
    requires g.Valid()
  {
    exists r :: r in s && Edge(g, l, r)
  }

  /** A set of matchers that together accept fewer elements than there are matchers in it. */
  ghost predicate Deficient(g: MatchMatrix, s: set<int>)
    requires g.Valid()
  {
    (forall r :: r in s ==> 0 <= r < g.numMatchers) && |Neighbours(g, s)| < |s|
  }

  ghost function RightNodes(n: nat): (s: set<int>)
    ensures |s| == n && forall r :: r in s <==> 0 <= r < n
  {
    if n == 0 then {} else RightNodes(n - 1) + {n - 1}
  }

  lemma EveryMatcherMatched(g: MatchMatrix, m: set<(int, int)>, r: int)
    requires g.Valid() && IsMatching(g, m) && |m| == g.numMatchers && 0 <= r < g.numMatchers
    ensures exists l :: (l, r) in m
  {
    var others := RightNodes(g.numMatchers) - {r};
    if forall l :: (l, r) !in m {
      forall e | e in m ensures e.1 in others {
        assert Edge(g, e.0, e.1) && (e.0, e.1) == e;
      }
      InjectionSize(m, others, (e: (int, int)) => e.1);
    }
  }

  lemma FullMatchingNotDeficient(g: MatchMatrix, m: set<(int, int)>, s: set<int>)
    requires g.Valid() && IsMatching(g, m) && |m| == g.numMatchers
    ensures !Deficient(g, s)
  {
    if forall r :: r in s ==> 0 <= r < g.numMatchers {
      var f := r => if exists l :: (l, r) in m then Partner(m, r) else 0;
      forall r | r in s ensures (f(r), r) in m && f(r) in Neighbours(g, s) {
        EveryMatcherMatched(g, m, r);
        assert Edge(g, f(r), r);
        assert Accepted(g, f(r), s);
      }
      InjectionSize(s, Neighbours(g, s), f);
    }
  }

  ghost function Partner(m: set<(int, int)>, r: int): (l: int)
    requires exists l :: (l, r) in m
    ensures (l, r) in m
  {
    var l :| (l, r) in m;
    l
  }

  /** An unmatched matcher leaves a deficient set: all matchers outside the saturated one. */
  lemma UnmatchedIsDeficient(g: MatchMatrix, left: seq<int>, right: seq<int>, t: set<int>)
    requires g.Valid() && |left| == g.numElements && |right| == g.numMatchers
    requires Mutual(g, left, right) && Covers(g, left, right, t)
    requires |Pairs(left)| < g.numMatchers
    ensures Deficient(g, RightNodes(g.numMatchers) - t)
  {
    var all := RightNodes(g.numMatchers);
    var s := all - t;
    SortedPairsSize(Pairs(left));
    var free := Unmatched(g, left, right);
    var f := l => if 0 <= l < |left| then left[l] else UNUSED;
    forall l | l in Neighbours(g, s) ensures f(l) in s - {free} && 0 <= l < |left| && right[f(l)] == l {
      var r :| r in s && Edge(g, l, r);
      EdgeOutOfCover(g, left, right, t, l, r);
    }
    InjectionSize(Neighbours(g, s), s - {free}, f);
    assert free in s;
  }

  ghost function Unmatched(g: MatchMatrix, left: seq<int>, right: seq<int>): (r: int)
    requires g.Valid() && |left| == g.numElements && |right| == g.numMatchers
    requires Mutual(g, left, right) && |SetOf(Pairs(left))| < g.numMatchers
    ensures 0 <= r < |right| && right[r] == UNUSED
  {
    assert exists r :: 0 <= r < |right| && right[r] == UNUSED by {
      if forall r :: 0 <= r < |right| ==> right[r] != UNUSED {
        var f := r => if 0 <= r < |right| then (right[r], r) else (UNUSED, UNUSED);
        InjectionSize(RightNodes(g.numMatchers), SetOf(Pairs(left)), f);
      }
    }
    var r :| 0 <= r < |right| && right[r] == UNUSED;
    r
  }

  method FindMaxBipartiteMatching(g: MatchMatrix) returns (result: seq<(int, int)>)
    requires g.Valid()
    ensures IsMatching(g, SetOf(result))
    ensures forall i, j :: 0 <= i < j < |result| ==> result[i].0 < result[j].0
    ensures forall m :: IsMatching(g, m) ==> |m| <= |result|
    ensures |result| < g.numMatchers ==> exists s :: Deficient(g, s)
  {
    var state := new MaxBipartiteMatchState(g);
    ghost var t;
    result, t := state.Compute();
    if |result| < g.numMatchers {
      UnmatchedIsDeficient(g, state.left[..], state.right[..], t);
    }
  }

  /** Whether every matcher can be given an element of its own. It can, unless some set of
      matchers accepts fewer elements than it has members. */
  method FindPairing(g: MatchMatrix) returns (ok: bool)
    requires g.Valid()
    ensures ok <==> exists m :: IsMatching(g, m) && |m| == g.numMatchers
    ensures ok <==> forall s :: !Deficient(g, s)
  {
    var matches := FindMaxBipartiteMatching(g);
    ok := |matches| == g.numMatchers;
    ghost var m := SetOf(matches);
    SortedPairsSize(matches);
    if ok {
      forall s ensures !Deficient(g, s) {
        FullMatchingNotDeficient(g, m, s);
      }
    } else {
      MatchingFits(g, m);
    }
  }

  lemma SortedPairsSize(p: seq<(int, int)>)
    requires forall i, j :: 0 <= i < j < |p| ==> p[i].0 < p[j].0
    ensures |SetOf(p)| == |p|
  {
    if p != [] {
      var n := |p| - 1;
      SortedPairsSize(p[..n]);
      assert p == p[..n] + [p[n]];
      assert SetOf(p) == SetOf(p[..n]) + {p[n]};
      assert p[n] !in p[..n];
    }
  }

  /** A matching has at most one edge for each matcher. */
  lemma MatchingFits(g: MatchMatrix, m: set<(int, int)>)
    requires g.Valid() && IsMatching(g, m)
    ensures |m| <= g.numMatchers
  {
    forall e | e in m ensures e.1 in RightNodes(g.numMatchers) {
      assert Edge(g, e.0, e.1);
    }
    InjectionSize(m, RightNodes(g.numMatchers), (e: (int, int)) => e.1);
  }
}
