/** Insertion, continued: the page split off gets its slot in the parent, or a new root is put on top. */
module IxParent {
  import opened Defs
  import opened IxNode
  import opened IxLevels
  import opened IxTree
  import opened IxInsert

  ghost function InsertSlot(F: seq<Slot>, g: nat, s: Slot): seq<Slot>
    requires g <= |F|
  {
    F[..g] + [s] + F[g..]
  }

  lemma InsertWithin(A: seq<Slot>, s: seq<Slot>, B: seq<Slot>, i: nat, v: Slot)
    requires i <= |s|
    ensures InsertSlot(A + s + B, |A| + i, v) == A + InsertSlot(s, i, v) + B
  {
  }

  /** A slot inserted in one page of a level appears at one place of the flat sequence. */
  lemma InsertFlat(P: Pages, Q: Pages, up: seq<int>, q: nat, i: nat, v: Slot)
    requires q < |up| && i <= |SlotsOf(P, up[q])|
    requires SlotsOf(Q, up[q]) == InsertSlot(SlotsOf(P, up[q]), i, v)
    requires forall k :: 0 <= k < |up| && k != q ==> SlotsOf(P, up[k]) == SlotsOf(Q, up[k])
    ensures Offset(P, up, q) + i <= |Flat(P, up)|
    ensures Flat(Q, up) == InsertSlot(Flat(P, up), Offset(P, up, q) + i, v)
  {
    FlatSet(P, Q, up, q);
    FlatAround(P, up, q);
    InsertWithin(Flat(P, up[..q]), SlotsOf(P, up[q]), Flat(P, up[q + 1..]), i, v);
  }

  lemma InsertedLinked(F: seq<Slot>, lo: seq<int>, j: nat, v: Slot)
    requires j + 1 < |lo| && Linked(F, Without(lo, j + 1)) && v.rid.pageNo == lo[j + 1]
    ensures Linked(InsertSlot(F, j + 1, v), lo)
  {
    var G, rest := InsertSlot(F, j + 1, v), Without(lo, j + 1);
    forall k | 0 <= k < |lo| ensures G[k].rid.pageNo == lo[k] {
      var b := if k > j + 1 then k - 1 else k;
      if k != j + 1 {
        assert G[k] == F[b] && lo[k] == rest[b];
      }
    }
  }

  lemma InsertedFirsts(P: Pages, F: seq<Slot>, lo: seq<int>, j: nat, v: Slot)
    requires j + 1 < |lo| && FirstsMatch(P, F, Without(lo, j + 1), -1)
    requires SlotsOf(P, lo[j + 1]) != [] && v.key == SlotsOf(P, lo[j + 1])[0].key
    ensures FirstsMatch(P, InsertSlot(F, j + 1, v), lo, -1)
  {
    var G, rest := InsertSlot(F, j + 1, v), Without(lo, j + 1);
    forall k | 0 <= k < |lo| ensures SlotsOf(P, lo[k]) != [] && G[k].key == SlotsOf(P, lo[k])[0].key {
      var b := if k > j + 1 then k - 1 else k;
      if k != j + 1 {
        assert G[k] == F[b] && lo[k] == rest[b];
      }
    }
  }

  lemma InsertedAscending(F: seq<Slot>, j: nat, v: Slot, tight: bool)
    requires Ascending(F, tight) && j < |F|
    requires F[j].key <= v.key && (j > 0 || tight ==> F[j].key < v.key)
    requires j + 1 < |F| ==> v.key < F[j + 1].key
    ensures Ascending(InsertSlot(F, j + 1, v), tight)
  {
    var G := InsertSlot(F, j + 1, v);
    forall a, b | 0 <= a < b < |G|
      ensures G[a].key <= G[b].key && (a > 0 || tight ==> G[a].key < G[b].key)
    {
      var a' := if a > j + 1 then a - 1 else a;
      var b' := if b > j + 1 then b - 1 else b;
      assert a != j + 1 ==> G[a] == F[a'];
      assert b != j + 1 ==> G[b] == F[b'];
    }
  }

  lemma InsertedBounded(P: Pages, F: seq<Slot>, lo: seq<int>, j: nat, v: Slot, tight: bool)
    requires j + 1 < |lo| && Bounded(P, F, Without(lo, j + 1), tight)
    requires SlotsOf(P, lo[j + 1]) != [] && v.key == SlotsOf(P, lo[j + 1])[0].key && Sorted(SlotsOf(P, lo[j + 1]))
    requires NewBounded(F, SlotsOf(P, lo[j + 1]), j, tight) && Before(SlotsOf(P, lo[j]), SlotsOf(P, lo[j + 1]))
    ensures Bounded(P, InsertSlot(F, j + 1, v), lo, tight)
  {
    InsertedAscending(F, j, v, tight);
    var G := InsertSlot(F, j + 1, v);
    forall k | 0 <= k < |lo| ensures LeafBounded(P, G, lo, k, tight) {
      InsertedLeaf(P, F, lo, j, v, tight, k);
    }
  }

  lemma InsertedLeaf(P: Pages, F: seq<Slot>, lo: seq<int>, j: nat, v: Slot, tight: bool, k: nat)
    requires j + 1 < |lo| && Bounded(P, F, Without(lo, j + 1), tight) && k < |lo|
    requires SlotsOf(P, lo[j + 1]) != [] && v.key == SlotsOf(P, lo[j + 1])[0].key && Sorted(SlotsOf(P, lo[j + 1]))
    requires NewBounded(F, SlotsOf(P, lo[j + 1]), j, tight) && Before(SlotsOf(P, lo[j]), SlotsOf(P, lo[j + 1]))
    ensures LeafBounded(P, InsertSlot(F, j + 1, v), lo, k, tight)
  {
    var G, rest := InsertSlot(F, j + 1, v), Without(lo, j + 1);
    if k == j + 1 {
      assert k + 1 < |lo| ==> G[k + 1] == F[k];
    } else {
      var b := if k > j + 1 then k - 1 else k;
      assert G[k] == F[b] && lo[k] == rest[b];
      assert LeafBounded(P, F, rest, b, tight);
      assert k != j && k + 1 < |lo| ==> G[k + 1] == F[b + 1];
    }
  }

  lemma InsertedOwned(P: Pages, Q: Pages, up: seq<int>, q: nat, i: nat, v: Slot)
    requires Owned(P, up) && q < |up| && i <= |SlotsOf(P, up[q])|
    requires SlotsOf(Q, up[q]) == InsertSlot(SlotsOf(P, up[q]), i, v)
    requires forall k :: 0 <= k < |up| && k != q ==> SlotsOf(P, up[k]) == SlotsOf(Q, up[k])
    requires forall p :: Par(Q, p) == Par(P, p)
    requires Par(P, v.rid.pageNo) == up[q]
    ensures Owned(Q, up)
  {
    forall k, a | 0 <= k < |up| && 0 <= a < |SlotsOf(Q, up[k])| ensures Par(Q, SlotsOf(Q, up[k])[a].rid.pageNo) == up[k] {
      if k == q && a != i {
        var b := if a > i then a - 1 else a;
        assert SlotsOf(Q, up[q])[a] == SlotsOf(P, up[q])[b];
      }
    }
  }

  /** The new slot completes the link. */
  lemma InsertedLink(P: Pages, Q: Pages, up: seq<int>, lo: seq<int>, j: nat, q: nat, i: nat, v: Slot, leaf: bool, tight: bool)
    requires j + 1 < |lo| && PendLink(P, up, lo, j, leaf, tight)
    requires q < |up| && i < |SlotsOf(P, up[q])| && j == Offset(P, up, q) + i && Par(P, lo[j]) == up[q]
    requires SlotsOf(P, lo[j + 1]) != [] && v.rid.pageNo == lo[j + 1] && v.key == SlotsOf(P, lo[j + 1])[0].key
    requires SlotsOf(Q, up[q]) == InsertSlot(SlotsOf(P, up[q]), i + 1, v)
    requires forall p :: p != up[q] ==> SlotsOf(P, p) == SlotsOf(Q, p)
    requires forall p :: Par(Q, p) == Par(P, p)
    requires (forall k :: 0 <= k < |up| && k != q ==> up[k] != up[q]) && up[q] !in lo
    requires leaf ==> Sorted(SlotsOf(P, lo[j + 1])) && Before(SlotsOf(P, lo[j]), SlotsOf(P, lo[j + 1]))
    ensures Link(Q, up, lo, leaf, tight)
  {
    var F, G := Flat(P, up), Flat(Q, up);
    InsertFlat(P, Q, up, q, i + 1, v);
    InsertedLinked(F, lo, j, v);
    InsertedOwned(P, Q, up, q, i + 1, v);
    if leaf {
      InsertedBounded(P, F, lo, j, v, tight);
      BoundedFrame(P, Q, G, lo, tight);
    } else {
      InsertedFirsts(P, F, lo, j, v);
    }
  }

  // The link above a page whose first slot stays.
  lemma LinkAbove(P: Pages, Q: Pages, up: seq<int>, lo: seq<int>, q: nat, tight: bool)
    requires Link(P, up, lo, false, tight) && q < |lo|
    requires forall p :: p != lo[q] ==> SlotsOf(P, p) == SlotsOf(Q, p)
    requires forall p :: Par(Q, p) == Par(P, p)
    requires lo[q] !in up
    requires SlotsOf(P, lo[q]) != [] && SlotsOf(Q, lo[q]) != [] && SlotsOf(Q, lo[q])[0].key == SlotsOf(P, lo[q])[0].key
    ensures Link(Q, up, lo, false, tight)
  {
    FlatFrame(P, Q, up);
    OwnedFrame(P, Q, up, lo);
  }

  lemma PendingParent(P: Pages, up: seq<int>, lo: seq<int>, j: nat, leaf: bool, tight: bool) returns (q: nat, i: nat)
    requires j + 1 < |lo| && PendLink(P, up, lo, j, leaf, tight)
    ensures q < |up| && i < |SlotsOf(P, up[q])| && j == Offset(P, up, q) + i
    ensures SlotsOf(P, up[q])[i].rid.pageNo == lo[j] && Par(P, lo[j]) == up[q]
  {
    q, i := ParentOf(P, up, Without(lo, j + 1), j);
  }

  lemma InsertedLinks(P: Pages, Q: Pages, lv: seq<seq<int>>, root: int, order: nat, h: nat, j: nat, q: nat, i: nat, v: Slot, tight: bool)
    requires Pending(P, lv, root, order, h, j, tight) && h + 1 < |lv|
    requires q < |lv[h + 1]| && i < |SlotsOf(P, lv[h + 1][q])|
    requires j == Offset(P, lv[h + 1], q) + i && Par(P, lv[h][j]) == lv[h + 1][q]
    requires v.rid.pageNo == lv[h][j + 1] && v.key == SlotsOf(P, lv[h][j + 1])[0].key
    requires SlotsOf(Q, lv[h + 1][q]) == InsertSlot(SlotsOf(P, lv[h + 1][q]), i + 1, v)
    requires forall p :: p != lv[h + 1][q] ==> SlotsOf(P, p) == SlotsOf(Q, p)
    requires forall p :: Par(Q, p) == Par(P, p)
    ensures Links(Q, lv, -1, tight)
  {
    hide Flat, Link, SlotsOf;
    forall x | 0 <= x < |lv| - 1 ensures LinkAt(Q, lv, x, tight) {
      if x == h {
        ElsewhereNot(lv, h + 1, q, h);
        InsertedLink(P, Q, lv[h + 1], lv[h], j, q, i, v, h == 0, tight);
      } else {
        assert LinkAt(P, lv, x, tight);
        if x == h + 1 {
          ElsewhereNot(lv, h + 1, q, x + 1);
          LinkAbove(P, Q, lv[x + 1], lv[x], q, tight);
        } else {
          LinksBelowOrAbove(P, Q, lv, h + 1, q, x, tight);
        }
      }
    }
  }

  /** The split-off page gets its slot behind its left neighbour's: the pages are a tree again, but the parent may be overfull. */
  lemma InsertedTree(P: Pages, Q: Pages, lv: seq<seq<int>>, root: int, order: nat, h: nat, j: nat, q: nat, i: nat, v: Slot, tight: bool)
    requires Pending(P, lv, root, order, h, j, tight) && h + 1 < |lv|
    requires q < |lv[h + 1]| && lv[h + 1][q] in P && i < |P[lv[h + 1][q]].slots| && P[lv[h + 1][q]].spare != []
    requires j == Offset(P, lv[h + 1], q) + i && Par(P, lv[h][j]) == lv[h + 1][q]
    requires v.rid.pageNo == lv[h][j + 1] && v.key == SlotsOf(P, lv[h][j + 1])[0].key
    requires Q == P[lv[h + 1][q] := InsertAt(P[lv[h + 1][q]], i + 1, v)]
    ensures TreeBut(Q, lv, root, order, lv[h + 1][q], tight)
    ensures Flat(Q, lv[0]) == Flat(P, lv[0])
  {
    var p, n := lv[h + 1][q], InsertAt(P[lv[h + 1][q]], i + 1, v);
    assert GoodPage(P, p, false, order);
    NodesUpdate(P, lv, order, p, n);
    ChainUpdate(P, lv[0], p, n);
    SizesUpdate(P, lv, order, p, n);
    InsertedLinks(P, Q, lv, root, order, h, j, q, i, v, tight);
    ElsewhereNot(lv, h + 1, q, 0);
    FlatFrame(P, Q, lv[0]);
  }

  // ---- a new root

  // The root has been split into root and n; page r becomes the root above both.
  ghost predicate RootAdded(P: Pages, Q: Pages, root: int, n: int, r: int, order: nat) {
    && r !in P && r > IX_LEAF_HEADER_PAGE && root in P && n in P && Q.Keys == P.Keys + {r}
    && SlotsOf(P, root) != [] && SlotsOf(P, n) != []
    && Q[r].slots == [Slot(SlotsOf(P, root)[0].key, Rid(root, IX_NO_PAGE)), Slot(SlotsOf(P, n)[0].key, Rid(n, IX_NO_PAGE))]
    && |Q[r].slots| + |Q[r].spare| == order + 1
    && !Q[r].isLeaf && Q[r].parent == IX_NO_PAGE
    && (forall y :: y in P ==> Q[y] == if y == root || y == n then P[y].(parent := r) else P[y])
  }

  lemma RootNodes(P: Pages, Q: Pages, lv: seq<seq<int>>, root: int, n: int, r: int, order: nat)
    requires Nodes(P, lv, order) && RootAdded(P, Q, root, n, r, order)
    ensures Nodes(Q, lv + [[r]], order)
  {
    var lw := lv + [[r]];
    forall g, a | 0 <= g < |lw| && 0 <= a < |lw[g]|
      ensures GoodPage(Q, lw[g][a], g == 0, order) && (g < |lv| ==> lw[g][a] != r)
    {
      if g < |lv| {
        assert lw[g] == lv[g];
        assert GoodPage(P, lv[g][a], g == 0, order);
      }
    }
    forall g, a, g', a' | 0 <= g < |lw| && 0 <= a < |lw[g]| && 0 <= g' < |lw| && 0 <= a' < |lw[g']| && lw[g][a] == lw[g'][a']
      ensures g == g' && a == a'
    {
      if g < |lv| && g' < |lv| {
        assert lw[g] == lv[g] && lw[g'] == lv[g'];
      }
    }
  }

  lemma RootLink(P: Pages, Q: Pages, root: int, n: int, r: int, order: nat, leaf: bool, tight: bool)
    requires RootAdded(P, Q, root, n, r, order) && root != n
    requires SlotsOf(P, root)[0].key < SlotsOf(P, n)[0].key
    requires leaf ==> Sorted(SlotsOf(P, root)) && Sorted(SlotsOf(P, n)) && Before(SlotsOf(P, root), SlotsOf(P, n))
    ensures Link(Q, [r], [root, n], leaf, tight)
  {
    var F, lo := Q[r].slots, [root, n];
    FlatOne(Q, r);
    assert SlotsOf(Q, root) == SlotsOf(P, root) && SlotsOf(Q, n) == SlotsOf(P, n);
    if leaf {
      forall k | 0 <= k < |lo| ensures LeafBounded(Q, F, lo, k, tight) {
      }
    }
  }

  // The first key of the new page is greater than that of the old root.
  lemma RootOrder(P: Pages, lv: seq<seq<int>>, root: int, order: nat, h: nat, tight: bool)
    requires Pending(P, lv, root, order, h, 0, tight) && h + 1 == |lv|
    ensures SlotsOf(P, lv[h][0])[0].key < SlotsOf(P, lv[h][1])[0].key
  {
    var s, t := SlotsOf(P, lv[h][0]), SlotsOf(P, lv[h][1]);
    if h > 0 {
      var p, n := lv[h][0], lv[h][1];
      assert GoodPage(P, lv[h][0], false, order);
      assert SizeOK(P[lv[h][0]], IsTop(lv, h), order);
      LevelAscending(P, lv, h, h, tight);
      FlatAppend(P, [p], [n]);
      FlatOne(P, p);
      FlatOne(P, n);
      assert lv[h] == [p] + [n];
      assert Flat(P, lv[h])[0] == s[0] && Flat(P, lv[h])[1] == s[1] && Flat(P, lv[h])[|s|] == t[0];
    }
  }

  lemma RootSizes(P: Pages, Q: Pages, lv: seq<seq<int>>, root: int, n: int, r: int, order: nat)
    requires order >= 3 && Nodes(P, lv, order) && Sizes(P, lv, order, -1) && RootAdded(P, Q, root, n, r, order)
    requires |lv[|lv| - 1]| != 1
    ensures Sizes(Q, lv + [[r]], order, -1)
  {
    var lw := lv + [[r]];
    forall g, a | 0 <= g < |lw| && 0 <= a < |lw[g]|
      ensures lw[g][a] in Q && SizeOK(Q[lw[g][a]], IsTop(lw, g), order)
    {
      if g < |lv| {
        assert lw[g] == lv[g];
        assert GoodPage(P, lv[g][a], g == 0, order);
        assert SizeOK(P[lv[g][a]], IsTop(lv, g), order);
      }
    }
  }

  lemma RootLinks(P: Pages, Q: Pages, lv: seq<seq<int>>, root: int, order: nat, h: nat, r: int, tight: bool)
    requires Pending(P, lv, root, order, h, 0, tight) && h + 1 == |lv|
    requires RootAdded(P, Q, root, lv[h][1], r, order)
    ensures Links(Q, lv + [[r]], -1, tight)
  {
    var lw, n := lv + [[r]], lv[h][1];
    forall x | 0 <= x < |lw| - 1 ensures LinkAt(Q, lw, x, tight) {
      if x == h {
        RootOrder(P, lv, root, order, h, tight);
        RootLink(P, Q, root, n, r, order, h == 0, tight);
      } else {
        assert LinkAt(P, lv, x, tight);
        assert lw[x] == lv[x] && lw[x + 1] == lv[x + 1];
        RootFrame(P, Q, lv, root, order, h, r, tight, x);
        RootFrame(P, Q, lv, root, order, h, r, tight, x + 1);
        LinkFrame(P, Q, lv[x + 1], lv[x], x == 0, tight);
      }
    }
  }

  // The pages of the old levels keep their slots, those below the old top level also their parent.
  lemma RootFrame(P: Pages, Q: Pages, lv: seq<seq<int>>, root: int, order: nat, h: nat, r: int, tight: bool, x: nat)
    requires Pending(P, lv, root, order, h, 0, tight) && h + 1 == |lv|
    requires RootAdded(P, Q, root, lv[h][1], r, order) && x <= h
    ensures forall y :: y in lv[x] ==> SlotsOf(Q, y) == SlotsOf(P, y) && (x < h ==> Par(Q, y) == Par(P, y))
  {
    forall y | y in lv[x] ensures SlotsOf(Q, y) == SlotsOf(P, y) && (x < h ==> Par(Q, y) == Par(P, y)) {
      var k :| 0 <= k < |lv[x]| && lv[x][k] == y;
      assert GoodPage(P, lv[x][k], x == 0, order);
      if x < h {
        ElsewhereNot(lv, h, 0, x);
        ElsewhereNot(lv, h, 1, x);
      }
    }
  }

  /** A new root above the two halves of the old one completes the tree. */
  lemma NewRoot(P: Pages, Q: Pages, lv: seq<seq<int>>, root: int, order: nat, h: nat, r: int, tight: bool)
    requires Pending(P, lv, root, order, h, 0, tight) && h + 1 == |lv|
    requires RootAdded(P, Q, root, lv[h][1], r, order)
    ensures TreeBut(Q, lv + [[r]], r, order, -1, tight)
    ensures Flat(Q, lv[0]) == Flat(P, lv[0])
  {
    var n := lv[h][1];
    RootNodes(P, Q, lv, root, n, r, order);
    RootLinks(P, Q, lv, root, order, h, r, tight);
    RootSizes(P, Q, lv, root, n, r, order);
    RootFrame(P, Q, lv, root, order, h, r, tight, 0);
    FlatFrame(P, Q, lv[0]);
    forall y | y in lv[0] ensures SameRing(P, Q, y) {
      var k :| 0 <= k < |lv[0]| && lv[0][k] == y;
      assert GoodPage(P, lv[0][k], true, order);
    }
    ChainFrame(P, Q, lv[0]);
  }
}
