/** Insertion: a leaf changes, an overfull page is split, the new page gets a slot in the parent. */
module IxInsert {
  import opened IxNode
  import opened IxLevels
  import opened IxTree

  // ---- a leaf changes

  // a and b differ in their slots at most.
  ghost predicate SameHeader(a: Node, b: Node) {
    a.parent == b.parent && a.isLeaf == b.isLeaf && a.prev == b.prev && a.next == b.next
  }

  lemma NodesUpdate(P: Pages, lv: seq<seq<int>>, order: nat, p: int, n: Node)
    requires Nodes(P, lv, order) && p in P && SameHeader(P[p], n) && |n.slots| + |n.spare| == order + 1
    ensures Nodes(P[p := n], lv, order)
  {
    var Q := P[p := n];
    forall h, j | 0 <= h < |lv| && 0 <= j < |lv[h]| ensures GoodPage(Q, lv[h][j], h == 0, order) {
      assert GoodPage(P, lv[h][j], h == 0, order);
    }
  }

  lemma ChainUpdate(P: Pages, lo: seq<int>, p: int, n: Node)
    requires Chain(P, lo) && p in P && SameHeader(P[p], n)
    ensures Chain(P[p := n], lo)
  {
    var Q := P[p := n];
    forall j | 0 <= j < |lo| ensures ChainedAt(Q, lo, j) {
      assert ChainedAt(P, lo, j);
    }
  }

  lemma SizesUpdate(P: Pages, lv: seq<seq<int>>, order: nat, p: int, n: Node)
    requires Nodes(P, lv, order) && Sizes(P, lv, order, -1)
    ensures Sizes(P[p := n], lv, order, p)
  {
    forall h, j | 0 <= h < |lv| && 0 <= j < |lv[h]| && lv[h][j] != p
      ensures lv[h][j] in P && SizeOK(P[lv[h][j]], IsTop(lv, h), order)
    {
      assert GoodPage(P, lv[h][j], h == 0, order);
    }
  }

  // A level does not hold a page of another level.
  lemma ElsewhereNot(lv: seq<seq<int>>, h: nat, j: nat, g: nat)
    requires Distinct(lv) && h < |lv| && j < |lv[h]| && g < |lv| && g != h
    ensures lv[h][j] !in lv[g]
  {
  }

  lemma LinksBelowOrAbove(P: Pages, Q: Pages, lv: seq<seq<int>>, h: nat, j: nat, x: nat, tight: bool)
    requires Distinct(lv) && h < |lv| && j < |lv[h]| && x < |lv| - 1 && x != h && x + 1 != h
    requires LinkAt(P, lv, x, tight)
    requires forall p :: p != lv[h][j] ==> SlotsOf(P, p) == SlotsOf(Q, p) && Par(P, p) == Par(Q, p)
    ensures LinkAt(Q, lv, x, tight)
  {
    ElsewhereNot(lv, h, j, x);
    ElsewhereNot(lv, h, j, x + 1);
    LinkFrame(P, Q, lv[x + 1], lv[x], x == 0, tight);
  }

  // The link above the leaves after leaf j changed.
  lemma LeafLink(P: Pages, Q: Pages, up: seq<int>, lo: seq<int>, j: nat, tight: bool)
    requires Link(P, up, lo, true, true) && j < |lo|
    requires forall p :: p != lo[j] ==> SlotsOf(P, p) == SlotsOf(Q, p)
    requires forall p :: Par(P, p) == Par(Q, p)
    requires lo[j] !in up && (forall k :: 0 <= k < |lo| && k != j ==> lo[k] != lo[j])
    requires LeafBounded(Q, Flat(P, up), lo, j, tight)
    ensures Link(Q, up, lo, true, tight)
  {
    FlatFrame(P, Q, up);
    OwnedFrame(P, Q, up, lo);
    var F := Flat(P, up);
    forall k | 0 <= k < |lo| ensures LeafBounded(Q, F, lo, k, tight) {
      assert LeafBounded(P, F, lo, k, true);
    }
  }

  lemma LeafLinks(P: Pages, Q: Pages, lv: seq<seq<int>>, j: nat, tight: bool)
    requires |lv| >= 1 && Distinct(lv) && Links(P, lv, -1, true) && j < |lv[0]|
    requires forall p :: p != lv[0][j] ==> SlotsOf(P, p) == SlotsOf(Q, p)
    requires forall p :: Par(P, p) == Par(Q, p)
    requires |lv| > 1 ==> |Flat(P, lv[1])| == |lv[0]| && LeafBounded(Q, Flat(P, lv[1]), lv[0], j, tight)
    ensures Links(Q, lv, -1, tight)
  {
    forall x | 0 <= x < |lv| - 1 ensures LinkAt(Q, lv, x, tight) {
      assert LinkAt(P, lv, x, true);
      if x == 0 {
        ElsewhereNot(lv, 0, j, 1);
        LeafLink(P, Q, lv[1], lv[0], j, tight);
      } else {
        LinksBelowOrAbove(P, Q, lv, 0, j, x, true);
      }
    }
  }

  /** Leaf j gets other slots that fit between its separators. */
  lemma LeafChange(P: Pages, Q: Pages, lv: seq<seq<int>>, root: int, order: nat, j: nat, n: Node, tight: bool)
    requires Tree(P, lv, root, order) && j < |lv[0]| && lv[0][j] in P && Q == P[lv[0][j] := n]
    requires SameHeader(P[lv[0][j]], n) && |n.slots| + |n.spare| == order + 1 && Sorted(n.slots)
    requires |lv| > 1 ==> |Flat(P, lv[1])| == |lv[0]| && LeafBounded(Q, Flat(P, lv[1]), lv[0], j, tight)
    ensures TreeBut(Q, lv, root, order, lv[0][j], tight)
    ensures Flat(Q, lv[0]) == Flat(P, lv[0][..j]) + n.slots + Flat(P, lv[0][j + 1..])
  {
    hide Chain;
    var p := lv[0][j];
    assert GoodPage(P, p, true, order);
    NodesUpdate(P, lv, order, p, n);
    ChainUpdate(P, lv[0], p, n);
    SizesUpdate(P, lv, order, p, n);
    FlatSet(P, Q, lv[0], j);
    LeafLinks(P, Q, lv, j, tight);
  }

  // ---- a page is split

  // Page p of P has been split into p and the new page n.
  ghost predicate SplitOf(P: Pages, Q: Pages, p: int, n: int, order: nat) {
    && p in P && n !in P && n > IX_LEAF_HEADER_PAGE && Q.Keys == P.Keys + {n}
    && SlotsOf(P, p) == SlotsOf(Q, p) + SlotsOf(Q, n)
    && SlotsOf(Q, p) != [] && SlotsOf(Q, n) != []
    && SizeOK(Q[p], false, order) && SizeOK(Q[n], false, order)
    && Q[p].isLeaf == P[p].isLeaf == Q[n].isLeaf
    && |Q[p].slots| + |Q[p].spare| == order + 1 == |Q[n].slots| + |Q[n].spare|
    && Par(Q, p) == Par(P, p) == Par(Q, n)
    && (forall y :: y in P && y != p ==>
          Q[y].slots == P[y].slots && Q[y].spare == P[y].spare && Q[y].isLeaf == P[y].isLeaf)
    && (if P[p].isLeaf then LeafRelinked(P, Q, p, n) else ChildrenMoved(P, Q, p, n))
  }

  // The new leaf n stands between p and the leaf behind p.
  ghost predicate LeafRelinked(P: Pages, Q: Pages, p: int, n: int)
    requires p in P && Q.Keys == P.Keys + {n}
  {
    && Q[p].prev == P[p].prev && Q[p].next == n
    && Q[n].prev == p && Q[n].next == P[p].next
    && forall y :: y in P && y != p ==>
         && Q[y].parent == P[y].parent && Q[y].next == P[y].next
         && Q[y].prev == (if y == P[p].next then n else P[y].prev)
  }

  // The children of the new page n name it as their parent.
  ghost predicate ChildrenMoved(P: Pages, Q: Pages, p: int, n: int)
    requires p in P && Q.Keys == P.Keys + {n}
  {
    && (forall i :: 0 <= i < |SlotsOf(Q, n)| ==> Par(Q, SlotsOf(Q, n)[i].rid.pageNo) == n)
    && forall y :: y in P && y != p ==>
         && Q[y].prev == P[y].prev && Q[y].next == P[y].next
         && (Q[y].parent == P[y].parent || exists i :: 0 <= i < |SlotsOf(Q, n)| && SlotsOf(Q, n)[i].rid.pageNo == y)
  }

  // The levels with page n behind node j of level h.
  function WithPage(lv: seq<seq<int>>, h: nat, j: nat, n: int): seq<seq<int>>
    requires h < |lv| && j < |lv[h]|
  {
    lv[h := InsertAfter(lv[h], j, n)]
  }

  // All keys of s come before all keys of t.
  ghost predicate Before(s: seq<Slot>, t: seq<Slot>) {
    forall a, b :: 0 <= a < |s| && 0 <= b < |t| ==> s[a].key < t[b].key
  }

  // The keys of the new leaf t lie between separator j and the one after it.
  ghost predicate NewBounded(F: seq<Slot>, t: seq<Slot>, j: nat, tight: bool)
    requires j < |F|
  {
    forall b :: 0 <= b < |t| ==>
      && F[j].key <= t[b].key
      && (j > 0 || tight ==> F[j].key < t[b].key)
      && (j + 1 < |F| ==> t[b].key < F[j + 1].key)
  }

  /** Level `up` is the parent level of `lo`, but node j + 1 of `lo` has no slot in it yet. */
  ghost predicate PendLink(P: Pages, up: seq<int>, lo: seq<int>, j: nat, leaf: bool, tight: bool)
    requires j + 1 < |lo|
  {
    && Linked(Flat(P, up), Without(lo, j + 1))
    && Owned(P, up)
    && Separated(P, Flat(P, up), Without(lo, j + 1), leaf, tight)
    && Par(P, lo[j + 1]) == Par(P, lo[j])
    && (leaf ==> NewBounded(Flat(P, up), SlotsOf(P, lo[j + 1]), j, tight))
  }

  /** A B+ tree in which node j + 1 of level h, just split off node j, still lacks its slot one level up. */
  ghost predicate Pending(P: Pages, lv: seq<seq<int>>, root: int, order: nat, h: nat, j: nat, tight: bool) {
    && order >= 3
    && Nodes(P, lv, order)
    && Links(P, lv, h, tight)
    && LeavesSorted(P, lv[0])
    && Chain(P, lv[0])
    && Sizes(P, lv, order, -1)
    && h < |lv| && j + 1 < |lv[h]|
    && SlotsOf(P, lv[h][j]) != [] && SlotsOf(P, lv[h][j + 1]) != []
    && (h == 0 ==> Before(SlotsOf(P, lv[0][j]), SlotsOf(P, lv[0][j + 1])))
    && (if h + 1 == |lv| then
          lv[h] == [root, lv[h][j + 1]] && Par(P, root) == IX_NO_PAGE
        else
          Rooted(P, lv, root) && PendLink(P, lv[h + 1], lv[h], j, h == 0, tight))
  }

  lemma DistinctWithPage(lv: seq<seq<int>>, h: nat, j: nat, n: int)
    requires Distinct(lv) && h < |lv| && j < |lv[h]|
    requires forall g :: 0 <= g < |lv| ==> n !in lv[g]
    ensures Distinct(WithPage(lv, h, j, n))
  {
    var lw := WithPage(lv, h, j, n);
    forall g, a, g', a' | 0 <= g < |lw| && 0 <= a < |lw[g]| && 0 <= g' < |lw| && 0 <= a' < |lw[g']| && lw[g][a] == lw[g'][a']
      ensures g == g' && a == a'
    {
      // the place of a page other than n before the insertion
      var b := if g == h && a > j then a - 1 else a;
      var b' := if g' == h && a' > j then a' - 1 else a';
      if lw[g][a] != n {
        assert lw[g][a] == lv[g][b] && lw[g'][a'] == lv[g'][b'];
      }
    }
  }

  lemma NodesSplit(P: Pages, Q: Pages, lv: seq<seq<int>>, order: nat, h: nat, j: nat, n: int)
    requires Nodes(P, lv, order) && h < |lv| && j < |lv[h]| && SplitOf(P, Q, lv[h][j], n, order)
    ensures Nodes(Q, WithPage(lv, h, j, n), order)
  {
    var lw := WithPage(lv, h, j, n);
    forall g | 0 <= g < |lv| ensures n !in lv[g] {
      forall a | 0 <= a < |lv[g]| ensures lv[g][a] != n {
        assert GoodPage(P, lv[g][a], g == 0, order);
      }
    }
    DistinctWithPage(lv, h, j, n);
    assert GoodPage(P, lv[h][j], h == 0, order);
    forall g, a | 0 <= g < |lw| && 0 <= a < |lw[g]| ensures GoodPage(Q, lw[g][a], g == 0, order) {
      var b := if g == h && a > j then a - 1 else a;
      if lw[g][a] != n {
        assert lw[g][a] == lv[g][b];
        assert GoodPage(P, lv[g][b], g == 0, order);
      }
    }
  }

  // The children of the new page n have n as their parent, all others keep theirs.
  lemma OwnedSplit(P: Pages, Q: Pages, up: seq<int>, lo: seq<int>, j: nat, n: int)
    requires Linked(Flat(P, up), lo) && Owned(P, up) && j < |up|
    requires forall a, b :: 0 <= a < b < |lo| ==> lo[a] != lo[b]
    requires forall k :: 0 <= k < |up| && k != j ==> SlotsOf(P, up[k]) == SlotsOf(Q, up[k])
    requires SlotsOf(P, up[j]) == SlotsOf(Q, up[j]) + SlotsOf(Q, n)
    requires forall i :: 0 <= i < |SlotsOf(Q, n)| ==> Par(Q, SlotsOf(Q, n)[i].rid.pageNo) == n
    requires forall y :: y in lo ==>
      Par(Q, y) == Par(P, y) || exists i :: 0 <= i < |SlotsOf(Q, n)| && SlotsOf(Q, n)[i].rid.pageNo == y
    ensures Owned(Q, InsertAfter(up, j, n))
  {
    var uq := InsertAfter(up, j, n);
    FlatSplit(P, Q, up, j, n);
    forall q, i | 0 <= q < |uq| && 0 <= i < |SlotsOf(Q, uq[q])|
      ensures Par(Q, SlotsOf(Q, uq[q])[i].rid.pageNo) == uq[q]
    {
      if q != j + 1 {
        ChildAt(Q, uq, lo, q, i);
        forall b | 0 <= b < |SlotsOf(Q, n)| ensures SlotsOf(Q, n)[b].rid.pageNo != SlotsOf(Q, uq[q])[i].rid.pageNo {
          ChildrenDiffer(Q, uq, lo, q, i, j + 1, b);
        }
        OwnedBefore(P, Q, up, j, n, q, i);
      }
    }
  }

  // Different pages of a level have different children.
  lemma ChildrenDiffer(P: Pages, up: seq<int>, lo: seq<int>, q: nat, i: nat, q': nat, i': nat)
    requires Linked(Flat(P, up), lo) && (forall a, b :: 0 <= a < b < |lo| ==> lo[a] != lo[b])
    requires q < |up| && i < |SlotsOf(P, up[q])| && q' < |up| && i' < |SlotsOf(P, up[q'])| && q != q'
    ensures SlotsOf(P, up[q])[i].rid.pageNo != SlotsOf(P, up[q'])[i'].rid.pageNo
  {
    ChildAt(P, up, lo, q, i);
    ChildAt(P, up, lo, q', i');
    if Offset(P, up, q) + i == Offset(P, up, q') + i' {
      OffUnique(P, up, q, i, q', i');
    }
  }

  // The owner before the split of a slot that is not in the new page.
  lemma OwnedBefore(P: Pages, Q: Pages, up: seq<int>, j: nat, n: int, q: nat, i: nat)
    requires Owned(P, up) && j < |up| && q <= |up| && q != j + 1
    requires forall k :: 0 <= k < |up| && k != j ==> SlotsOf(P, up[k]) == SlotsOf(Q, up[k])
    requires SlotsOf(P, up[j]) == SlotsOf(Q, up[j]) + SlotsOf(Q, n)
    requires i < |SlotsOf(Q, InsertAfter(up, j, n)[q])|
    ensures Par(P, SlotsOf(Q, InsertAfter(up, j, n)[q])[i].rid.pageNo) == InsertAfter(up, j, n)[q]
  {
    var b := if q > j then q - 1 else q;
    assert InsertAfter(up, j, n)[q] == up[b];
    assert SlotsOf(P, up[b])[i] == SlotsOf(Q, up[b])[i];
  }

  // The link below a split inner page.
  lemma SplitLinkBelow(P: Pages, Q: Pages, up: seq<int>, lo: seq<int>, j: nat, n: int, leaf: bool, tight: bool)
    requires Link(P, up, lo, leaf, tight) && j < |up|
    requires forall a, b :: 0 <= a < b < |lo| ==> lo[a] != lo[b]
    requires forall k :: 0 <= k < |up| && k != j ==> SlotsOf(P, up[k]) == SlotsOf(Q, up[k])
    requires SlotsOf(P, up[j]) == SlotsOf(Q, up[j]) + SlotsOf(Q, n)
    requires forall y :: y in lo ==> SlotsOf(Q, y) == SlotsOf(P, y)
    requires forall i :: 0 <= i < |SlotsOf(Q, n)| ==> Par(Q, SlotsOf(Q, n)[i].rid.pageNo) == n
    requires forall y :: y in lo ==>
      Par(Q, y) == Par(P, y) || exists i :: 0 <= i < |SlotsOf(Q, n)| && SlotsOf(Q, n)[i].rid.pageNo == y
    ensures Link(Q, InsertAfter(up, j, n), lo, leaf, tight)
  {
    FlatSplit(P, Q, up, j, n);
    OwnedSplit(P, Q, up, lo, j, n);
    if leaf {
      BoundedFrame(P, Q, Flat(P, up), lo, tight);
    }
  }

  // The children of a page of level h are pages of level h - 1.
  lemma ChildrenBelow(P: Pages, up: seq<int>, lo: seq<int>, p: int, i: nat)
    requires Linked(Flat(P, up), lo) && p in up && i < |SlotsOf(P, p)|
    ensures SlotsOf(P, p)[i].rid.pageNo in lo
  {
    var q :| 0 <= q < |up| && up[q] == p;
    ChildAt(P, up, lo, q, i);
  }

  // Outside the level below h no parent field changes.
  lemma SplitParents(P: Pages, Q: Pages, lv: seq<seq<int>>, order: nat, h: nat, j: nat, n: int, tight: bool, x: nat, y: int)
    requires Nodes(P, lv, order) && Links(P, lv, -1, tight) && h < |lv| && j < |lv[h]|
    requires SplitOf(P, Q, lv[h][j], n, order)
    requires x < |lv| && x + 1 != h && y in lv[x]
    ensures Par(Q, y) == Par(P, y)
  {
    var p := lv[h][j];
    var k :| 0 <= k < |lv[x]| && lv[x][k] == y;
    assert GoodPage(P, lv[x][k], x == 0, order) && GoodPage(P, lv[h][j], h == 0, order);
    if h > 0 && y != p {
      forall i | 0 <= i < |SlotsOf(Q, n)| ensures SlotsOf(Q, n)[i].rid.pageNo != y {
        assert LinkAt(P, lv, h - 1, tight);
        assert SlotsOf(P, p)[|SlotsOf(Q, p)| + i] == SlotsOf(Q, n)[i];
        ChildrenBelow(P, lv[h], lv[h - 1], p, |SlotsOf(Q, p)| + i);
      }
    }
  }

  lemma SplitLinkAt(P: Pages, Q: Pages, lv: seq<seq<int>>, order: nat, h: nat, j: nat, n: int, tight: bool, x: nat)
    requires Nodes(P, lv, order) && Links(P, lv, -1, tight) && h < |lv| && j < |lv[h]|
    requires SplitOf(P, Q, lv[h][j], n, order)
    requires x < |lv| - 1 && x != h && x + 1 != h
    ensures Link(Q, lv[x + 1], lv[x], x == 0, tight)
  {
    assert LinkAt(P, lv, x, tight);
    SplitSlots(P, Q, lv, order, h, j, n, x);
    SplitSlots(P, Q, lv, order, h, j, n, x + 1);
    forall y | y in lv[x] ensures Par(Q, y) == Par(P, y) {
      SplitParents(P, Q, lv, order, h, j, n, tight, x, y);
    }
    LinkFrame(P, Q, lv[x + 1], lv[x], x == 0, tight);
  }

  lemma SplitLinkUnder(P: Pages, Q: Pages, lv: seq<seq<int>>, order: nat, h: nat, j: nat, n: int, tight: bool)
    requires Nodes(P, lv, order) && Links(P, lv, -1, tight) && 1 <= h < |lv| && j < |lv[h]|
    requires SplitOf(P, Q, lv[h][j], n, order)
    ensures Link(Q, InsertAfter(lv[h], j, n), lv[h - 1], h - 1 == 0, tight)
  {
    var lo := lv[h - 1];
    assert LinkAt(P, lv, h - 1, tight);
    assert GoodPage(P, lv[h][j], false, order);
    SplitSlots(P, Q, lv, order, h, j, n, h - 1);
    SplitSlots(P, Q, lv, order, h, j, n, h);
    forall y | y in lo
      ensures Par(Q, y) == Par(P, y) || exists i :: 0 <= i < |SlotsOf(Q, n)| && SlotsOf(Q, n)[i].rid.pageNo == y
    {
      var k :| 0 <= k < |lo| && lo[k] == y;
      assert GoodPage(P, lv[h - 1][k], h - 1 == 0, order);
    }
    SplitLinkBelow(P, Q, lv[h], lo, j, n, h - 1 == 0, tight);
  }

  lemma SplitLinks(P: Pages, Q: Pages, lv: seq<seq<int>>, order: nat, h: nat, j: nat, n: int, tight: bool)
    requires Nodes(P, lv, order) && Links(P, lv, -1, tight) && h < |lv| && j < |lv[h]|
    requires SplitOf(P, Q, lv[h][j], n, order)
    ensures Links(Q, WithPage(lv, h, j, n), h, tight)
  {
    var lw := WithPage(lv, h, j, n);
    forall x | 0 <= x < |lw| - 1 && x != h ensures LinkAt(Q, lw, x, tight) {
      if x + 1 == h {
        SplitLinkUnder(P, Q, lv, order, h, j, n, tight);
      } else {
        SplitLinkAt(P, Q, lv, order, h, j, n, tight, x);
      }
    }
  }

  // A split changes the slots of the split page only.
  lemma SplitSlots(P: Pages, Q: Pages, lv: seq<seq<int>>, order: nat, h: nat, j: nat, n: int, x: nat)
    requires Nodes(P, lv, order) && h < |lv| && j < |lv[h]| && x < |lv|
    requires SplitOf(P, Q, lv[h][j], n, order)
    ensures forall k :: 0 <= k < |lv[x]| && lv[x][k] != lv[h][j] ==> SlotsOf(Q, lv[x][k]) == SlotsOf(P, lv[x][k])
    ensures x != h ==> lv[h][j] !in lv[x]
  {
    forall k | 0 <= k < |lv[x]| && lv[x][k] != lv[h][j] ensures SlotsOf(Q, lv[x][k]) == SlotsOf(P, lv[x][k]) {
      assert GoodPage(P, lv[x][k], x == 0, order);
    }
  }

  lemma SplitChain(P: Pages, Q: Pages, lo: seq<int>, j: nat, n: int)
    requires Chain(P, lo) && j < |lo| && Q.Keys == P.Keys + {n} && n !in P && lo[j] in P && LeafRelinked(P, Q, lo[j], n)
    requires forall a, b :: 0 <= a < b < |lo| ==> lo[a] != lo[b]
    requires forall a :: 0 <= a < |lo| ==> lo[a] > IX_LEAF_HEADER_PAGE
    ensures Chain(Q, InsertAfter(lo, j, n))
  {
    var ln := InsertAfter(lo, j, n);
    assert ChainedAt(P, lo, j);
    forall k | 0 <= k < |ln| ensures ChainedAt(Q, ln, k) {
      var b := if k > j then k - 1 else k;
      if k != j + 1 {
        assert ln[k] == lo[b] && ChainedAt(P, lo, b);
      }
    }
  }

  ghost predicate SameRing(P: Pages, Q: Pages, y: int) {
    y in P && y in Q && Q[y].prev == P[y].prev && Q[y].next == P[y].next
  }

  lemma ChainFrame(P: Pages, Q: Pages, lo: seq<int>)
    requires Chain(P, lo)
    requires SameRing(P, Q, IX_LEAF_HEADER_PAGE) && forall y :: y in lo ==> SameRing(P, Q, y)
    ensures Chain(Q, lo)
  {
    forall j | 0 <= j < |lo| ensures ChainedAt(Q, lo, j) {
      assert ChainedAt(P, lo, j);
      assert SameRing(P, Q, lo[j]);
    }
  }

  lemma SplitSizes(P: Pages, Q: Pages, lv: seq<seq<int>>, order: nat, h: nat, j: nat, n: int)
    requires Nodes(P, lv, order) && h < |lv| && j < |lv[h]| && SplitOf(P, Q, lv[h][j], n, order)
    requires Sizes(P, lv, order, lv[h][j])
    requires h + 1 == |lv| ==> |lv[h]| == 1
    ensures Sizes(Q, WithPage(lv, h, j, n), order, -1)
  {
    var lw := WithPage(lv, h, j, n);
    forall g, a | 0 <= g < |lw| && 0 <= a < |lw[g]|
      ensures lw[g][a] in Q && SizeOK(Q[lw[g][a]], IsTop(lw, g), order)
    {
      var b := if g == h && a > j then a - 1 else a;
      if lw[g][a] != n && lw[g][a] != lv[h][j] {
        assert lw[g][a] == lv[g][b];
        assert GoodPage(P, lv[g][b], g == 0, order);
      }
    }
  }

  // Where the split-off leaf fits.
  lemma SplitBounds(s: seq<Slot>, t: seq<Slot>, F: seq<Slot>, j: nat, tight: bool)
    requires s != [] && Sorted(s + t) && j < |F|
    requires forall i :: 0 <= i < |s + t| ==>
      && (i > 0 || j > 0 || tight ==> F[j].key <= (s + t)[i].key)
      && (j + 1 < |F| ==> (s + t)[i].key < F[j + 1].key)
    ensures Sorted(s) && Sorted(t) && Before(s, t) && NewBounded(F, t, j, tight)
  {
    SplitSorted(s, t);
    forall b | 0 <= b < |t|
      ensures F[j].key <= t[b].key
      ensures j > 0 || tight ==> F[j].key < t[b].key
      ensures j + 1 < |F| ==> t[b].key < F[j + 1].key
    {
      assert (s + t)[|s| + b] == t[b] && (s + t)[0] == s[0];
    }
  }

  lemma SplitSorted(s: seq<Slot>, t: seq<Slot>)
    requires Sorted(s + t)
    ensures Sorted(s) && Sorted(t) && Before(s, t)
  {
    forall a, b | 0 <= a < b < |s| ensures s[a].key < s[b].key {
      assert (s + t)[a] == s[a] && (s + t)[b] == s[b];
    }
    forall a, b | 0 <= a < b < |t| ensures t[a].key < t[b].key {
      assert (s + t)[|s| + a] == t[a] && (s + t)[|s| + b] == t[b];
    }
    forall a, b | 0 <= a < |s| && 0 <= b < |t| ensures s[a].key < t[b].key {
      assert (s + t)[a] == s[a] && (s + t)[|s| + b] == t[b];
    }
  }

  // The bounds of the leaves after leaf j was split.
  lemma SplitLeafBounds(P: Pages, Q: Pages, F: seq<Slot>, lo: seq<int>, j: nat, n: int, tight: bool)
    requires Bounded(P, F, lo, tight) && j < |lo| && Sorted(SlotsOf(P, lo[j]))
    requires forall k :: 0 <= k < |lo| && k != j ==> SlotsOf(P, lo[k]) == SlotsOf(Q, lo[k])
    requires SlotsOf(P, lo[j]) == SlotsOf(Q, lo[j]) + SlotsOf(Q, n) && SlotsOf(Q, lo[j]) != []
    ensures Bounded(Q, F, lo, tight) && NewBounded(F, SlotsOf(Q, n), j, tight)
  {
    hide SlotsOf, Sorted;
    assert LeafBounded(P, F, lo, j, tight);
    SplitBounds(SlotsOf(Q, lo[j]), SlotsOf(Q, n), F, j, tight);
    forall k | 0 <= k < |lo| ensures LeafBounded(Q, F, lo, k, tight) {
      assert LeafBounded(P, F, lo, k, tight);
      if k == j {
        assert forall i :: 0 <= i < |SlotsOf(Q, lo[j])| ==> SlotsOf(Q, lo[j])[i] == SlotsOf(P, lo[j])[i];
      }
    }
  }

  lemma SplitPendLink(P: Pages, Q: Pages, up: seq<int>, lo: seq<int>, j: nat, n: int, leaf: bool, tight: bool)
    requires Link(P, up, lo, leaf, tight) && j < |lo|
    requires forall p :: p in up ==> SlotsOf(P, p) == SlotsOf(Q, p)
    requires forall p :: p in lo ==> Par(P, p) == Par(Q, p)
    requires forall k :: 0 <= k < |lo| && k != j ==> SlotsOf(P, lo[k]) == SlotsOf(Q, lo[k])
    requires SlotsOf(P, lo[j]) == SlotsOf(Q, lo[j]) + SlotsOf(Q, n) && SlotsOf(Q, lo[j]) != []
    requires Par(Q, n) == Par(Q, lo[j])
    requires leaf ==> Sorted(SlotsOf(P, lo[j]))
    ensures PendLink(Q, up, InsertAfter(lo, j, n), j, leaf, tight)
  {
    hide SlotsOf, Sorted, Flat, Without, Bounded, NewBounded, Owned, Linked;
    WithoutInserted(lo, j, n);
    FlatFrame(P, Q, up);
    OwnedFrame(P, Q, up, lo);
    if leaf {
      SplitLeafBounds(P, Q, Flat(P, up), lo, j, n, tight);
    } else {
      SplitFirsts(P, Q, Flat(P, up), lo, j, n);
    }
  }

  // The first keys after a split.
  lemma SplitFirsts(P: Pages, Q: Pages, F: seq<Slot>, lo: seq<int>, j: nat, n: int)
    requires FirstsMatch(P, F, lo, -1) && j < |lo|
    requires forall k :: 0 <= k < |lo| && k != j ==> SlotsOf(P, lo[k]) == SlotsOf(Q, lo[k])
    requires SlotsOf(P, lo[j]) == SlotsOf(Q, lo[j]) + SlotsOf(Q, n) && SlotsOf(Q, lo[j]) != []
    ensures FirstsMatch(Q, F, lo, -1)
  {
  }

  lemma SplitRing(P: Pages, Q: Pages, lv: seq<seq<int>>, order: nat, h: nat, j: nat, n: int)
    requires Nodes(P, lv, order) && Chain(P, lv[0]) && h < |lv| && j < |lv[h]| && SplitOf(P, Q, lv[h][j], n, order)
    ensures Chain(Q, WithPage(lv, h, j, n)[0])
  {
    assert GoodPage(P, lv[h][j], h == 0, order);
    forall a | 0 <= a < |lv[0]| ensures lv[0][a] > IX_LEAF_HEADER_PAGE && lv[0][a] in P {
      assert GoodPage(P, lv[0][a], true, order);
    }
    if h == 0 {
      SplitChain(P, Q, lv[0], j, n);
    } else {
      ElsewhereNot(lv, h, j, 0);
      ChainFrame(P, Q, lv[0]);
    }
  }

  lemma SplitLeavesSorted(P: Pages, Q: Pages, lv: seq<seq<int>>, order: nat, h: nat, j: nat, n: int)
    requires Nodes(P, lv, order) && LeavesSorted(P, lv[0]) && h < |lv| && j < |lv[h]|
    requires SplitOf(P, Q, lv[h][j], n, order)
    ensures LeavesSorted(Q, WithPage(lv, h, j, n)[0])
    ensures h == 0 ==> Before(SlotsOf(Q, lv[0][j]), SlotsOf(Q, n))
    ensures Flat(Q, WithPage(lv, h, j, n)[0]) == Flat(P, lv[0])
  {
    hide Flat;
    SplitSlots(P, Q, lv, order, h, j, n, 0);
    if h == 0 {
      SplitSorted(SlotsOf(Q, lv[0][j]), SlotsOf(Q, n));
      FlatSplit(P, Q, lv[0], j, n);
    } else {
      FlatFrame(P, Q, lv[0]);
    }
  }

  lemma SplitPendLinkAt(P: Pages, Q: Pages, lv: seq<seq<int>>, order: nat, h: nat, j: nat, n: int, tight: bool)
    requires Nodes(P, lv, order) && Links(P, lv, -1, tight) && LeavesSorted(P, lv[0]) && h + 1 < |lv| && j < |lv[h]|
    requires SplitOf(P, Q, lv[h][j], n, order)
    ensures PendLink(Q, lv[h + 1], InsertAfter(lv[h], j, n), j, h == 0, tight)
  {
    assert LinkAt(P, lv, h, tight);
    SplitSlots(P, Q, lv, order, h, j, n, h);
    SplitSlots(P, Q, lv, order, h, j, n, h + 1);
    forall y | y in lv[h] ensures Par(Q, y) == Par(P, y) {
      SplitParents(P, Q, lv, order, h, j, n, tight, h, y);
    }
    SplitPendLink(P, Q, lv[h + 1], lv[h], j, n, h == 0, tight);
  }

  /** Splitting an overfull page leaves a tree whose new page waits for its slot one level up. */
  lemma SplitPending(P: Pages, Q: Pages, lv: seq<seq<int>>, root: int, order: nat, h: nat, j: nat, n: int, tight: bool)
    requires h < |lv| && j < |lv[h]| && TreeBut(P, lv, root, order, lv[h][j], tight)
    requires SplitOf(P, Q, lv[h][j], n, order)
    ensures Pending(Q, WithPage(lv, h, j, n), root, order, h, j, tight)
    ensures Flat(Q, WithPage(lv, h, j, n)[0]) == Flat(P, lv[0])
  {
    hide LeavesSorted, Nodes, Flat, SlotsOf, Sorted, GoodPage;
    NodesSplit(P, Q, lv, order, h, j, n);
    SplitLinks(P, Q, lv, order, h, j, n, tight);
    SplitLeavesSorted(P, Q, lv, order, h, j, n);
    SplitRing(P, Q, lv, order, h, j, n);
    SplitSizes(P, Q, lv, order, h, j, n);
    SplitParents(P, Q, lv, order, h, j, n, tight, |lv| - 1, root);
    if h + 1 < |lv| {
      SplitPendLinkAt(P, Q, lv, order, h, j, n, tight);
    }
  }
}
