/** Maximum bipartite matching by augmenting paths, as gmock's unordered matchers compute it.

    The single pass over the left nodes is justified by a certificate: a set A of left nodes all of whose
    neighbours lie in a set B of right nodes that are matched into A. No augmentation ever touches A or B again,
    and every left node that stays unmatched is in A.
  */
module BipartiteMatching {
  import opened Cardinality

  const UNUSED: int := -1

  /** The connectivity matrix, stored left-major in one sequence. */
  datatype MatchMatrix = MatchMatrix(numElements: nat, numMatchers: nat, matched: seq<bool>)
  {
    ghost predicate Valid() {
      |matched| == numElements * numMatchers
    }

    function SpaceIndex(l: nat, r: nat): (i: nat)
      requires Valid() && l < numElements && r < numMatchers
      ensures i < |matched|
    {
      IndexInside(l, r, numElements, numMatchers);
      l * numMatchers + r
    }

    predicate HasEdge(l: nat, r: nat)
      requires Valid() && l < numElements && r < numMatchers
    {
      matched[SpaceIndex(l, r)]
    }

    // Every entry of the matrix has its own place.
    lemma IndexUnique(l: nat, r: nat, l': nat, r': nat)
      requires Valid() && l < numElements && r < numMatchers && l' < numElements && r' < numMatchers
      requires SpaceIndex(l, r) == SpaceIndex(l', r')
      ensures l == l' && r == r'
    {
      if l < l' {
        RowsApart(l, l', numMatchers);
      } else if l' < l {
        RowsApart(l', l, numMatchers);
      }
    }

    function SetEdge(l: nat, r: nat, b: bool): (g: MatchMatrix)
      requires Valid() && l < numElements && r < numMatchers
      ensures g.Valid() && g.numElements == numElements && g.numMatchers == numMatchers
    {
      this.(matched := matched[SpaceIndex(l, r) := b])
    }

    /** Setting an edge changes this edge and no other, although all edges lie in one sequence. */
    lemma EdgeAlone(l: nat, r: nat, b: bool)
      requires Valid() && l < numElements && r < numMatchers
      ensures forall x: nat, y: nat :: x < numElements && y < numMatchers ==>
        SetEdge(l, r, b).HasEdge(x, y) == if x == l && y == r then b else HasEdge(x, y)
    {
      forall x: nat, y: nat | x < numElements && y < numMatchers
        ensures SetEdge(l, r, b).HasEdge(x, y) == if x == l && y == r then b else HasEdge(x, y)
      {
        if SpaceIndex(x, y) == SpaceIndex(l, r) {
          IndexUnique(x, y, l, r);
        }
      }
    }
  }

  lemma IndexInside(l: nat, r: nat, n: nat, m: nat)
    requires l < n && r < m
    ensures 0 <= l * m + r < n * m
  {
    assert (l + 1) * m <= n * m;
  }

  lemma RowsApart(l: nat, l': nat, m: nat)
    requires l < l'
    ensures l * m + m <= l' * m
  {
    assert (l + 1) * m <= l' * m;
  }

  // ---- matchings

  /** Edges of the graph no two of which share a node. */
  ghost predicate IsMatching(g: MatchMatrix, M: set<(nat, int)>)
    requires g.Valid()
  {
    && (forall p :: p in M ==> p.0 < g.numElements && 0 <= p.1 < g.numMatchers && g.HasEdge(p.0, p.1))
    && (forall p, q :: p in M && q in M && (p.0 == q.0 || p.1 == q.1) ==> p == q)
  }

  /** A matching has at most as many edges as any set of nodes that meets all of them. */
  lemma {:induction false} CoverBound(g: MatchMatrix, M: set<(nat, int)>, C: set<int>, B: set<int>)
    requires g.Valid() && IsMatching(g, M)
    requires forall p :: p in M ==> p.0 in C || p.1 in B
    ensures |M| <= |C| + |B|
    decreases |M|
  {
    if p :| p in M {
      if p.0 in C {
        CoverBound(g, M - {p}, C - {p.0}, B);
      } else {
        CoverBound(g, M - {p}, C, B - {p.1});
      }
    }
  }

  // ---- the state of the search

  // left and right refer to each other along edges; right node `ex` may refer to a left node that has moved on.
  ghost predicate Coupled(g: MatchMatrix, L: seq<int>, R: seq<int>, ex: int)
    requires g.Valid()
  {
    && |L| == g.numElements && |R| == g.numMatchers
    && (forall l :: 0 <= l < |L| ==>
          L[l] == UNUSED || (0 <= L[l] < |R| && g.HasEdge(l, L[l]) && R[L[l]] == l))
    && (forall r :: 0 <= r < |R| ==>
          R[r] == UNUSED || (0 <= R[r] < |L| && (r != ex ==> L[R[r]] == r)))
  }

  // All neighbours of left node l are marked.
  ghost predicate Explored(g: MatchMatrix, l: int, seen: seq<bool>)
    requires g.Valid()
  {
    0 <= l < g.numElements && |seen| == g.numMatchers
    && forall r :: 0 <= r < g.numMatchers && g.HasEdge(l, r) ==> seen[r]
  }

  // The right nodes marked since `before` are matched to left nodes whose neighbours are all marked.
  ghost predicate DeadEnds(g: MatchMatrix, R: seq<int>, before: seq<bool>, seen: seq<bool>)
    requires g.Valid()
  {
    && |before| == |seen| == |R| == g.numMatchers
    && (forall r :: 0 <= r < |seen| ==> before[r] ==> seen[r])
    && (forall r :: 0 <= r < |seen| && seen[r] && !before[r] ==> Explored(g, R[r], seen))
  }

  // The neighbours of A lie in B, and B is matched into A.
  ghost predicate Closed(g: MatchMatrix, R: seq<int>, A: set<int>, B: set<int>)
    requires g.Valid()
  {
    && |R| == g.numMatchers
    && (forall a, r :: a in A && 0 <= a < g.numElements && 0 <= r < g.numMatchers && g.HasEdge(a, r) ==> r in B)
    && (forall b :: b in B ==> 0 <= b < |R| && R[b] in A)
    && (forall a :: a in A ==> 0 <= a < g.numElements)
  }

  /** What a successful search from left node l does: l is matched, along a right node that was not marked; no other
      left node becomes matched or unmatched, and none whose partner was marked is moved. */
  ghost predicate Augmented(g: MatchMatrix, L: seq<int>, R: seq<int>, L': seq<int>, R': seq<int>, seen: seq<bool>, l: nat)
    requires g.Valid()
  {
    && |L| == |L'| == g.numElements && |R| == |R'| == |seen| == g.numMatchers && l < |L|
    && Coupled(g, L', R', L[l])
    && L'[l] != UNUSED && 0 <= L'[l] < |seen| && !seen[L'[l]]
    && (forall k :: 0 <= k < |L| && k != l ==> (L'[k] == UNUSED <==> L[k] == UNUSED))
    && (forall k :: 0 <= k < |L| && k != l && 0 <= L[k] < |seen| && seen[L[k]] ==> L'[k] == L[k])
    && (forall r :: 0 <= r < |R| && seen[r] ==> R'[r] == R[r])
    && (forall r :: 0 <= r < |R| && R[r] != UNUSED ==> R'[r] != UNUSED)
  }

  ghost function Unmarked(seen: seq<bool>): set<int> {
    set r | 0 <= r < |seen| && !seen[r]
  }

  // Linking l with a free right node.
  lemma LinkFree(g: MatchMatrix, L: seq<int>, R: seq<int>, seen: seq<bool>, l: nat, r: nat)
    requires g.Valid() && Coupled(g, L, R, UNUSED) && l < |L| && r < |R| && |seen| == |R|
    requires g.HasEdge(l, r) && !seen[r] && R[r] == UNUSED
    ensures Augmented(g, L, R, L[l := r], R[r := l], seen, l)
  {
  }

  // Linking l with a right node whose partner has found another one.
  lemma LinkFreed(g: MatchMatrix, L: seq<int>, R: seq<int>, L1: seq<int>, R1: seq<int>, seen: seq<bool>, seen1: seq<bool>, l: nat, r: nat)
    requires g.Valid() && Coupled(g, L, R, UNUSED) && l < |L| && r < |R| && |seen| == |seen1| == |R|
    requires g.HasEdge(l, r) && !seen[r] && seen1[r] && 0 <= R[r] < |L| && Augmented(g, L, R, L1, R1, seen1, R[r])
    requires forall x :: 0 <= x < |seen| && seen[x] ==> seen1[x]
    requires L[l] == UNUSED || seen[L[l]]
    ensures Augmented(g, L, R, L1[l := r], R1[r := l], seen, l)
  {
    assert L1[l] == L[l];
    assert R1[r] == R[r];
    forall k | 0 <= k < |L| && k != l ensures L1[k] != r {
      assert L1[k] != UNUSED ==> R1[L1[k]] == k;
    }
  }

  // A failed search from the partner of r keeps the marks complete.
  lemma MarkedOn(g: MatchMatrix, R: seq<int>, before: seq<bool>, mid: seq<bool>, seen: seq<bool>, r: nat)
    requires g.Valid() && DeadEnds(g, R, before, mid) && r < |mid|
    requires DeadEnds(g, R, mid[r := true], seen) && Explored(g, R[r], seen)
    ensures DeadEnds(g, R, before, seen)
  {
    forall x | 0 <= x < |seen| && seen[x] && !before[x] ensures Explored(g, R[x], seen) {
      if x != r && mid[x] {
        assert Explored(g, R[x], mid);
        forall y | 0 <= y < |mid| && mid[y] ensures seen[y] {
          assert mid[r := true][y];
        }
      } else if x != r {
        assert !mid[r := true][x];
      }
    }
    forall x | 0 <= x < |seen| && before[x] ensures seen[x] {
      assert mid[r := true][x];
    }
  }

  lemma ClosedStays(g: MatchMatrix, R: seq<int>, R': seq<int>, A: set<int>, B: set<int>)
    requires g.Valid() && Closed(g, R, A, B) && |R'| == |R| && forall b :: b in B ==> R'[b] == R[b]
    ensures Closed(g, R', A, B)
  {
  }

  /** The marks of a failed search from l extend the certificate to l. */
  lemma Enlarge(g: MatchMatrix, L: seq<int>, R: seq<int>, none: seq<bool>, seen: seq<bool>, l: nat, A: set<int>, B: set<int>)
    returns (A': set<int>, B': set<int>)
    requires g.Valid() && Coupled(g, L, R, UNUSED) && Closed(g, R, A, B) && l < |L|
    requires DeadEnds(g, R, none, seen) && (forall r :: 0 <= r < |none| ==> !none[r]) && Explored(g, l, seen)
    ensures Closed(g, R, A', B') && A <= A' && l in A'
  {
    var marked := set r | 0 <= r < |seen| && seen[r];
    var partners := set r | r in marked && 0 <= r < |R| :: R[r];
    A', B' := A + {l} + partners, B + marked;
    forall a, r | a in A' && 0 <= a < g.numElements && 0 <= r < g.numMatchers && g.HasEdge(a, r) ensures r in B' {
      if a !in A {
        assert Explored(g, a, seen);
        assert seen[r];
      }
    }
    forall b | b in B' ensures 0 <= b < |R| && R[b] in A' {
      if b !in B {
        assert b in marked;
        assert R[b] in partners;
      }
    }
    forall a | a in A' ensures 0 <= a < g.numElements {
      if a !in A && a != l {
        var r :| r in marked && 0 <= r < |R| && R[r] == a;
        assert Explored(g, R[r], seen);
      }
    }
  }

  // ---- counting

  ghost function MatchedUpTo(L: seq<int>, n: nat): set<int>
    requires n <= |L|
  {
    set k | 0 <= k < n && L[k] != UNUSED
  }

  /** The edges of the matching, by left node. */
  ghost function Pairs(L: seq<int>, n: nat): seq<(nat, int)>
    requires n <= |L|
  {
    if n == 0 then []
    else if L[n - 1] == UNUSED then Pairs(L, n - 1)
    else Pairs(L, n - 1) + [(n - 1, L[n - 1])]
  }

  lemma {:induction false} PairsMatch(L: seq<int>, n: nat)
    requires n <= |L|
    ensures |Pairs(L, n)| == |MatchedUpTo(L, n)|
    ensures forall i :: 0 <= i < |Pairs(L, n)| ==> var p := Pairs(L, n)[i]; p.0 < n && L[p.0] == p.1 != UNUSED
    ensures forall i, j :: 0 <= i < j < |Pairs(L, n)| ==> Pairs(L, n)[i].0 < Pairs(L, n)[j].0
  {
    if n > 0 {
      PairsMatch(L, n - 1);
      if L[n - 1] == UNUSED {
        assert MatchedUpTo(L, n) == MatchedUpTo(L, n - 1);
      } else {
        assert MatchedUpTo(L, n) == MatchedUpTo(L, n - 1) + {n - 1};
      }
    }
  }

  /** With a certificate that covers all unmatched left nodes, no matching is larger. */
  lemma Optimal(g: MatchMatrix, L: seq<int>, R: seq<int>, A: set<int>, B: set<int>, M: set<(nat, int)>)
    requires g.Valid() && Coupled(g, L, R, UNUSED) && Closed(g, R, A, B) && IsMatching(g, M)
    requires forall k :: 0 <= k < |L| ==> L[k] != UNUSED || k in A
    ensures |M| <= |MatchedUpTo(L, |L|)|
  {
    var C := set k | 0 <= k < |L| && k !in A;
    CoverBound(g, M, C, B);
    forall b, c | b in B && c in B && R[b] == R[c] ensures b == c {
      assert L[R[b]] == b && L[R[c]] == c;
    }
    ImageSize(R, B);
    var I := Image(R, B);
    assert C * I == {};
    forall k | k in C + I ensures k in MatchedUpTo(L, |L|) {
      if k in I {
        var b :| b in B && R[b] == k;
        assert L[R[b]] == b;
      }
    }
    SubsetSize(C + I, MatchedUpTo(L, |L|));
  }

  // The edges collected from the final state form a maximum matching.
  lemma Result(g: MatchMatrix, L: seq<int>, R: seq<int>, A: set<int>, B: set<int>)
    requires g.Valid() && Coupled(g, L, R, UNUSED) && Closed(g, R, A, B)
    requires forall k :: 0 <= k < |L| ==> L[k] != UNUSED || k in A
    ensures var result := Pairs(L, |L|);
            IsMatching(g, set p: (nat, int) | p in result) && forall M :: IsMatching(g, M) ==> |M| <= |result|
  {
    PairsMatch(L, |L|);
    var result := Pairs(L, |L|);
    var T := set p: (nat, int) | p in result;
    forall p: (nat, int) | p in T ensures 0 <= p.0 < |L| && L[p.0] == p.1 != UNUSED && R[L[p.0]] == p.0 && g.HasEdge(p.0, L[p.0]) {
      var i :| 0 <= i < |result| && result[i] == p;
    }
    forall M | IsMatching(g, M) ensures |M| <= |result| {
      Optimal(g, L, R, A, B, M);
    }
  }

  class MaxBipartiteMatchState {
    const graph: MatchMatrix
    const left: array<int>
    const right: array<int>

    ghost predicate Valid()
      reads this, left, right
    {
      left != right && graph.Valid() && Coupled(graph, left[..], right[..], UNUSED)
    }

    constructor (graph: MatchMatrix)
      requires graph.Valid()
      ensures Valid() && this.graph == graph && fresh(left) && fresh(right)
      ensures forall l :: 0 <= l < left.Length ==> left[l] == UNUSED
    {
      this.graph := graph;
      left := new int[graph.numElements](_ => UNUSED);
      right := new int[graph.numMatchers](_ => UNUSED);
    }

    /** TryAugment: the depth-first search from left node l. Success adds l to the matching and changes nothing about
        A and B; failure changes nothing at all and leaves the marks that prove it final. */
    method TryAugment(l: nat, seen: array<bool>, ghost A: set<int>, ghost B: set<int>) returns (ok: bool)
      requires Valid() && l < left.Length && seen.Length == right.Length
      requires left[l] == UNUSED || seen[left[l]]
      requires Closed(graph, right[..], A, B)
      modifies left, right, seen
      ensures forall r :: 0 <= r < seen.Length ==> old(seen[r]) ==> seen[r]
      ensures !ok ==> left[..] == old(left[..]) && right[..] == old(right[..])
      ensures !ok ==> DeadEnds(graph, right[..], old(seen[..]), seen[..]) && Explored(graph, l, seen[..])
      ensures ok ==> Augmented(graph, old(left[..]), old(right[..]), left[..], right[..], old(seen[..]), l)
      ensures ok ==> l !in A && forall b :: b in B ==> right[b] == old(right[b])
      decreases Unmarked(seen[..])
    {
      hide Augmented;
      ghost var L, R, before := left[..], right[..], seen[..];
      var r := 0;
      while r < graph.numMatchers
        invariant r <= graph.numMatchers
        invariant left[..] == L && right[..] == R
        invariant DeadEnds(graph, R, before, seen[..])
        invariant forall x :: 0 <= x < r && graph.HasEdge(l, x) ==> seen[x]
      {
        if !seen[r] && graph.HasEdge(l, r) {
          ghost var mid := seen[..];
          seen[r] := true;
          ghost var marked := seen[..];
          assert marked == mid[r := true];
          var free := right[r] == UNUSED;
          if !free {
            assert r in Unmarked(before) && r !in Unmarked(marked);
            free := TryAugment(right[r], seen, A, B);
            if free {
              LinkFreed(graph, L, R, left[..], right[..], before, marked, l, r);
            }
          } else {
            LinkFree(graph, L, R, before, l, r);
          }
          if free {
            left[l] := r;
            right[r] := l;
            return true;
          }
          MarkedOn(graph, R, before, mid, seen[..], r);
        }
        r := r + 1;
      }
      ok := false;
    }

    // Compute, first loop: one search from every left node, and the certificate that results.
    method SearchAll() returns (ghost A: set<int>, ghost B: set<int>)
      requires Valid() && forall l :: 0 <= l < left.Length ==> left[l] == UNUSED
      modifies left, right
      ensures Valid() && Closed(graph, right[..], A, B)
      ensures forall k :: 0 <= k < left.Length ==> left[k] != UNUSED || k in A
    {
      A, B := {}, {};
      var l := 0;
      while l < graph.numElements
        invariant l <= graph.numElements && Valid() && Closed(graph, right[..], A, B)
        invariant forall k :: l <= k < graph.numElements ==> left[k] == UNUSED
        invariant forall k :: 0 <= k < l ==> left[k] != UNUSED || k in A
      {
        assert left[l] == UNUSED;
        var seen := new bool[graph.numMatchers](_ => false);
        ghost var L, R, none := left[..], right[..], seen[..];
        var ok := TryAugment(l, seen, A, B);
        if ok {
          ClosedStays(graph, R, right[..], A, B);
        } else {
          A, B := Enlarge(graph, L, R, none, seen[..], l, A, B);
        }
        l := l + 1;
      }
    }

    /** Compute: a matching, by ascending left nodes, and no matching has more edges. */
    method Compute() returns (result: seq<(nat, int)>)
      requires Valid() && forall l :: 0 <= l < left.Length ==> left[l] == UNUSED
      modifies left, right
      ensures forall i, j :: 0 <= i < j < |result| ==> result[i].0 < result[j].0
      ensures IsMatching(graph, set p: (nat, int) | p in result)
      ensures forall M :: IsMatching(graph, M) ==> |M| <= |result|
    {
      ghost var A, B := SearchAll();
      result := [];
      var l := 0;
      while l < left.Length
        invariant l <= left.Length && result == Pairs(left[..], l)
      {
        if left[l] != UNUSED {
          result := result + [(l, left[l])];
        }
        l := l + 1;
      }
      PairsMatch(left[..], l);
      Result(graph, left[..], right[..], A, B);
    }
  }

  /** FindMaxBipartiteMatching. */
  method FindMaxBipartiteMatching(g: MatchMatrix) returns (result: seq<(nat, int)>)
    requires g.Valid()
    ensures forall i, j :: 0 <= i < j < |result| ==> result[i].0 < result[j].0
    ensures IsMatching(g, set p: (nat, int) | p in result)
    ensures forall M :: IsMatching(g, M) ==> |M| <= |result|
  {
    var state := new MaxBipartiteMatchState(g);
    result := state.Compute();
  }

  // ---- what the matchers conclude from the size

  ghost function Elements(M: set<(nat, int)>): set<int> {
    set p | p in M :: p.0
  }

  ghost function Matchers(M: set<(nat, int)>): set<int> {
    set p | p in M :: p.1
  }

  lemma {:induction false} ElementCount(g: MatchMatrix, M: set<(nat, int)>)
    requires g.Valid() && IsMatching(g, M)
    ensures |Elements(M)| == |M| && Elements(M) <= Below(g.numElements)
    decreases |M|
  {
    if M != {} {
      var p := Member(M);
      var N := M - {p};
      ElementCount(g, N);
      assert M == N + {p};
      assert Elements(M) == Elements(N) + {p.0};
    }
  }

  lemma {:induction false} MatcherCount(g: MatchMatrix, M: set<(nat, int)>)
    requires g.Valid() && IsMatching(g, M)
    ensures |Matchers(M)| == |M| && Matchers(M) <= Below(g.numMatchers)
    decreases |M|
  {
    if M != {} {
      var p := Member(M);
      var N := M - {p};
      MatcherCount(g, N);
      assert M == N + {p};
      assert Matchers(M) == Matchers(N) + {p.1};
    }
  }

  /** A matching reaches every element (every matcher) exactly if it has as many edges. */
  lemma Saturates(g: MatchMatrix, M: set<(nat, int)>)
    requires g.Valid() && IsMatching(g, M)
    ensures Elements(M) == Below(g.numElements) <==> |M| >= g.numElements
    ensures Matchers(M) == Below(g.numMatchers) <==> |M| >= g.numMatchers
  {
    ElementCount(g, M);
    MatcherCount(g, M);
    FullBelow(Elements(M), g.numElements);
    FullBelow(Matchers(M), g.numMatchers);
  }

  // A pairing of elements and matchers that leaves out no matcher (superset) and no element (subset).
  ghost predicate IsPairing(g: MatchMatrix, superset: bool, subset: bool, M: set<(nat, int)>)
    requires g.Valid()
  {
    && IsMatching(g, M)
    && (superset ==> Matchers(M) == Below(g.numMatchers))
    && (subset ==> Elements(M) == Below(g.numElements))
  }

  /** FindPairing: true exactly if the elements can be paired with the matchers as the flags demand. */
  method FindPairing(g: MatchMatrix, superset: bool, subset: bool) returns (ok: bool)
    requires g.Valid()
    ensures ok <==> exists M :: IsPairing(g, superset, subset, M)
  {
    var matches := FindMaxBipartiteMatching(g);
    var maxFlow := |matches|;
    ghost var best := set p: (nat, int) | p in matches;
    DistinctPairs(matches);
    Saturates(g, best);
    forall M | IsMatching(g, M)
      ensures Elements(M) == Below(g.numElements) ==> maxFlow >= g.numElements
      ensures Matchers(M) == Below(g.numMatchers) ==> maxFlow >= g.numMatchers
    {
      Saturates(g, M);
    }
    ok := !(superset && maxFlow < g.numMatchers) && !(subset && maxFlow < g.numElements);
    if ok {
      assert IsPairing(g, superset, subset, best);
    }
  }

  lemma {:induction false} DistinctPairs(s: seq<(nat, int)>)
    requires forall i, j :: 0 <= i < j < |s| ==> s[i].0 < s[j].0
    ensures |set p: (nat, int) | p in s| == |s|
  {
    if s != [] {
      var m := |s| - 1;
      var t := s[..m];
      assert s == t + [s[m]];
      DistinctPairs(t);
      assert (set p: (nat, int) | p in s) == (set p: (nat, int) | p in t) + {s[m]};
    }
  }
}
