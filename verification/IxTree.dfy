/** When a set of pages is a B+ tree, as predicates over the pages and their levels.
    Each predicate speaks of one level or of two neighbouring ones, so that a step which
    changes one page disturbs few of them. */
module IxTree {
  import opened IxNode
  import opened IxLevels

  ghost function Par(P: Pages, p: int): int {
    if p in P then P[p].parent else 0
  }

  // No page occurs twice.
  ghost predicate Distinct(lv: seq<seq<int>>) {
    forall g, j, g', j' ::
      0 <= g < |lv| && 0 <= j < |lv[g]| && 0 <= g' < |lv| && 0 <= j' < |lv[g']| && lv[g][j] == lv[g'][j']
      ==> g == g' && j == j'
  }

  ghost predicate GoodPage(P: Pages, p: int, leaf: bool, order: nat) {
    p in P && p > IX_LEAF_HEADER_PAGE && P[p].isLeaf == leaf && |P[p].slots| + |P[p].spare| == order + 1
  }

  ghost predicate Nodes(P: Pages, lv: seq<seq<int>>, order: nat) {
    && |lv| >= 1
    && (forall h :: 0 <= h < |lv| ==> lv[h] != [])
    && (forall h, j :: 0 <= h < |lv| && 0 <= j < |lv[h]| ==> GoodPage(P, lv[h][j], h == 0, order))
    && Distinct(lv)
  }

  // The child pages in F are the pages of the level below, in order.
  ghost predicate Linked(F: seq<Slot>, lo: seq<int>) {
    |F| == |lo| && forall j :: 0 <= j < |lo| ==> F[j].rid.pageNo == lo[j]
  }

  // The parent field of every child names the page that holds it.
  ghost predicate Owned(P: Pages, up: seq<int>) {
    forall q, i :: 0 <= q < |up| && 0 <= i < |SlotsOf(P, up[q])| ==> Par(P, SlotsOf(P, up[q])[i].rid.pageNo) == up[q]
  }

  // The separator of every child but number `ex` is the child's first key.
  ghost predicate FirstsMatch(P: Pages, F: seq<Slot>, lo: seq<int>, ex: int) {
    |F| == |lo| &&
    forall j :: 0 <= j < |lo| ==>
      SlotsOf(P, lo[j]) != [] && (j != ex ==> F[j].key == SlotsOf(P, lo[j])[0].key)
  }

  /** The separators ascend. The first one routes nothing: while a new smallest key is on its way up
      the left edge of the tree (`tight` is false) it may coincide with the second. */
  ghost predicate Ascending(F: seq<Slot>, tight: bool) {
    forall a, b :: 0 <= a < b < |F| ==> F[a].key <= F[b].key && (a > 0 || tight ==> F[a].key < F[b].key)
  }

  // Leaf j holds keys from its separator up to the next separator, but for a new smallest key not yet `tight`.
  ghost predicate LeafBounded(P: Pages, F: seq<Slot>, lo: seq<int>, j: int, tight: bool)
    requires 0 <= j < |lo| == |F|
  {
    forall i :: 0 <= i < |SlotsOf(P, lo[j])| ==>
      && (i > 0 || j > 0 || tight ==> F[j].key <= SlotsOf(P, lo[j])[i].key)
      && (j + 1 < |lo| ==> SlotsOf(P, lo[j])[i].key < F[j + 1].key)
  }

  ghost predicate Bounded(P: Pages, F: seq<Slot>, lo: seq<int>, tight: bool) {
    && |F| == |lo|
    && Ascending(F, tight)
    && forall j :: 0 <= j < |lo| ==> LeafBounded(P, F, lo, j, tight)
  }

  ghost predicate Separated(P: Pages, F: seq<Slot>, lo: seq<int>, leaf: bool, tight: bool) {
    if leaf then Bounded(P, F, lo, tight) else FirstsMatch(P, F, lo, -1)
  }

  /** Level `up` is the parent level of level `lo`. */
  ghost predicate Link(P: Pages, up: seq<int>, lo: seq<int>, leaf: bool, tight: bool) {
    && Linked(Flat(P, up), lo)
    && Owned(P, up)
    && Separated(P, Flat(P, up), lo, leaf, tight)
  }

  ghost predicate LinkAt(P: Pages, lv: seq<seq<int>>, h: int, tight: bool)
    requires 0 <= h < |lv| - 1
  {
    Link(P, lv[h + 1], lv[h], h == 0, tight)
  }

  // All neighbouring levels are linked, but for the pair (skip, skip + 1).
  ghost predicate Links(P: Pages, lv: seq<seq<int>>, skip: int, tight: bool) {
    forall h :: 0 <= h < |lv| - 1 && h != skip ==> LinkAt(P, lv, h, tight)
  }

  ghost predicate LeavesSorted(P: Pages, lo: seq<int>) {
    forall j :: 0 <= j < |lo| ==> Sorted(SlotsOf(P, lo[j]))
  }

  // The doubly linked ring of the leaves through the header page.
  ghost predicate Chain(P: Pages, lo: seq<int>) {
    && lo != []
    && IX_LEAF_HEADER_PAGE in P
    && P[IX_LEAF_HEADER_PAGE].next == lo[0]
    && P[IX_LEAF_HEADER_PAGE].prev == lo[|lo| - 1]
    && forall j :: 0 <= j < |lo| ==> ChainedAt(P, lo, j)
  }

  // The neighbours of leaf j in the ring.
  ghost predicate ChainedAt(P: Pages, lo: seq<int>, j: int)
    requires 0 <= j < |lo|
  {
    && lo[j] in P
    && P[lo[j]].next == (if j + 1 < |lo| then lo[j + 1] else IX_LEAF_HEADER_PAGE)
    && P[lo[j]].prev == (if j > 0 then lo[j - 1] else IX_LEAF_HEADER_PAGE)
  }

  // The number of slots a page may hold between two operations.
  ghost predicate SizeOK(n: Node, root: bool, order: nat) {
    if n.isLeaf then
      (root || MinSize(order) - 1 <= |n.slots|) && |n.slots| <= order - 1
    else
      (if root then 2 else MinSize(order)) <= |n.slots| <= order
  }

  ghost predicate IsTop(lv: seq<seq<int>>, h: int)
    requires 0 <= h < |lv|
  {
    h == |lv| - 1 && |lv[h]| == 1
  }

  // Every page but `ex` has a legal size.
  ghost predicate Sizes(P: Pages, lv: seq<seq<int>>, order: nat, ex: int) {
    forall h, j :: 0 <= h < |lv| && 0 <= j < |lv[h]| && lv[h][j] != ex ==>
      lv[h][j] in P && SizeOK(P[lv[h][j]], IsTop(lv, h), order)
  }

  ghost predicate Rooted(P: Pages, lv: seq<seq<int>>, root: int) {
    |lv| >= 1 && lv[|lv| - 1] == [root] && Par(P, root) == IX_NO_PAGE
  }

  /** The pages form a B+ tree of the given order; page `ex` alone may have an illegal size. */
  ghost predicate TreeBut(P: Pages, lv: seq<seq<int>>, root: int, order: nat, ex: int, tight: bool) {
    && order >= 3
    && Nodes(P, lv, order)
    && Links(P, lv, -1, tight)
    && LeavesSorted(P, lv[0])
    && Chain(P, lv[0])
    && Sizes(P, lv, order, ex)
    && Rooted(P, lv, root)
  }

  ghost predicate Tree(P: Pages, lv: seq<seq<int>>, root: int, order: nat) {
    TreeBut(P, lv, root, order, -1, true)
  }

  // ---- facts about one pair of levels

  /** The page holding child j of level `lo`, and the index of the child in it. */
  lemma ParentOf(P: Pages, up: seq<int>, lo: seq<int>, j: nat) returns (q: nat, i: nat)
    requires Linked(Flat(P, up), lo) && Owned(P, up) && j < |lo|
    ensures q < |up| && i < |SlotsOf(P, up[q])| && j == Offset(P, up, q) + i
    ensures SlotsOf(P, up[q])[i] == Flat(P, up)[j] && SlotsOf(P, up[q])[i].rid.pageNo == lo[j]
    ensures Par(P, lo[j]) == up[q]
  {
    q, i := FlatLocate(P, up, j);
  }

  /** The slots of an inner page point to consecutive pages of the level below. */
  lemma ChildAt(P: Pages, up: seq<int>, lo: seq<int>, q: nat, i: nat)
    requires Linked(Flat(P, up), lo) && q < |up| && i < |SlotsOf(P, up[q])|
    ensures Offset(P, up, q) + i < |lo|
    ensures SlotsOf(P, up[q])[i] == Flat(P, up)[Offset(P, up, q) + i]
    ensures SlotsOf(P, up[q])[i].rid.pageNo == lo[Offset(P, up, q) + i]
  {
    FlatAt(P, up, q, i);
  }

  /** Changing pages outside two levels leaves their link alone. */
  lemma LinkFrame(P: Pages, Q: Pages, up: seq<int>, lo: seq<int>, leaf: bool, tight: bool)
    requires Link(P, up, lo, leaf, tight)
    requires forall p :: p in up ==> SlotsOf(P, p) == SlotsOf(Q, p)
    requires forall p :: p in lo ==> SlotsOf(P, p) == SlotsOf(Q, p) && Par(P, p) == Par(Q, p)
    ensures Link(Q, up, lo, leaf, tight)
  {
    FlatFrame(P, Q, up);
    OwnedFrame(P, Q, up, lo);
    if leaf {
      BoundedFrame(P, Q, Flat(P, up), lo, tight);
    }
  }

  lemma BoundedFrame(P: Pages, Q: Pages, F: seq<Slot>, lo: seq<int>, tight: bool)
    requires Bounded(P, F, lo, tight)
    requires forall p :: p in lo ==> SlotsOf(P, p) == SlotsOf(Q, p)
    ensures Bounded(Q, F, lo, tight)
  {
    forall j | 0 <= j < |lo| ensures LeafBounded(Q, F, lo, j, tight) {
      assert LeafBounded(P, F, lo, j, tight);
    }
  }

  lemma OwnedFrame(P: Pages, Q: Pages, up: seq<int>, lo: seq<int>)
    requires Linked(Flat(P, up), lo) && Owned(P, up)
    requires forall p :: p in up ==> SlotsOf(P, p) == SlotsOf(Q, p)
    requires forall p :: p in lo ==> Par(P, p) == Par(Q, p)
    ensures Owned(Q, up)
  {
    forall q, i | 0 <= q < |up| && 0 <= i < |SlotsOf(Q, up[q])|
      ensures Par(Q, SlotsOf(Q, up[q])[i].rid.pageNo) == up[q]
    {
      ChildAt(P, up, lo, q, i);
    }
  }

  // ---- facts about the whole tree

  /** The separators of every inner level ascend. */
  lemma {:induction false} LevelAscending(P: Pages, lv: seq<seq<int>>, h: nat, skip: int, tight: bool)
    requires 1 <= h < |lv| && Links(P, lv, skip, tight) && (skip < 0 || h <= skip)
    ensures Ascending(Flat(P, lv[h]), tight)
    decreases h
  {
    assert LinkAt(P, lv, h - 1, tight);
    if h > 1 {
      LevelAscending(P, lv, h - 1, skip, tight);
      var F, G, lo := Flat(P, lv[h]), Flat(P, lv[h - 1]), lv[h - 1];
      forall a, b | 0 <= a < b < |F|
        ensures F[a].key <= F[b].key && (a > 0 || tight ==> F[a].key < F[b].key)
      {
        FlatAt(P, lo, a, 0);
        FlatAt(P, lo, b, 0);
        OffMonotone(P, lo, a, b);
        OffMonotone(P, lo, 0, a);
      }
    }
  }

  /** The keys of an inner page ascend. */
  lemma InnerSorted(P: Pages, lv: seq<seq<int>>, h: nat, j: nat, tight: bool)
    requires 1 <= h < |lv| && j < |lv[h]| && Links(P, lv, -1, tight)
    ensures Ascending(SlotsOf(P, lv[h][j]), tight)
  {
    LevelAscending(P, lv, h, -1, tight);
    var F, s := Flat(P, lv[h]), SlotsOf(P, lv[h][j]);
    forall a, b | 0 <= a < b < |s|
      ensures s[a].key <= s[b].key && (a > 0 || tight ==> s[a].key < s[b].key)
    {
      FlatAt(P, lv[h], j, a);
      FlatAt(P, lv[h], j, b);
    }
  }

  // `key` is not before separator j and before the next one.
  ghost predicate InSlot(F: seq<Slot>, j: nat, key: int) {
    && j < |F|
    && (j == 0 || F[j].key <= key)
    && (j + 1 < |F| ==> key < F[j + 1].key)
  }

  /** `key` belongs below node j of level h. */
  ghost predicate Covers(P: Pages, lv: seq<seq<int>>, h: nat, j: nat, key: int)
    requires h < |lv|
  {
    j < |lv[h]| && (h + 1 < |lv| ==> |Flat(P, lv[h + 1])| == |lv[h]| && InSlot(Flat(P, lv[h + 1]), j, key))
  }

  // The separator after the last one of an inner page is the next page's own separator.
  lemma NextSeparator(P: Pages, lv: seq<seq<int>>, h: nat, j: nat, key: int)
    requires 1 <= h < |lv| && Links(P, lv, -1, true) && |lv[|lv| - 1]| == 1
    requires Covers(P, lv, h, j, key)
    ensures Offset(P, lv[h], j + 1) < |Flat(P, lv[h])| ==> key < Flat(P, lv[h])[Offset(P, lv[h], j + 1)].key
  {
    var up := lv[h];
    if j + 1 < |up| {
      assert LinkAt(P, lv, h, true);
      FlatAt(P, up, j + 1, 0);
    } else {
      assert up[..j + 1] == up;
    }
  }

  // The first separator of an inner page is the page's own separator.
  lemma OwnSeparator(P: Pages, lv: seq<seq<int>>, h: nat, j: nat, key: int)
    requires 1 <= h < |lv| && Links(P, lv, -1, true) && |lv[|lv| - 1]| == 1
    requires Covers(P, lv, h, j, key) && SlotsOf(P, lv[h][j]) != []
    ensures Offset(P, lv[h], j) == 0 || SlotsOf(P, lv[h][j])[0].key <= key
  {
    if j > 0 {
      assert LinkAt(P, lv, h, true);
    } else {
      assert lv[h][..0] == [];
    }
  }

  /** One step down from an inner page: the chosen child covers the key again. */
  lemma RouteStep(P: Pages, lv: seq<seq<int>>, h: nat, j: nat, key: int) returns (j': nat)
    requires 1 <= h < |lv| && Links(P, lv, -1, true) && |lv[|lv| - 1]| == 1
    requires Covers(P, lv, h, j, key) && SlotsOf(P, lv[h][j]) != []
    ensures Covers(P, lv, h - 1, j', key)
    ensures lv[h - 1][j'] == SlotsOf(P, lv[h][j])[Pick(SlotsOf(P, lv[h][j]), key)].rid.pageNo
  {
    hide Flat, InSlot, SlotsOf, Owned, Separated;
    assert LinkAt(P, lv, h - 1, true);
    NextSeparator(P, lv, h, j, key);
    OwnSeparator(P, lv, h, j, key);
    LevelAscending(P, lv, h, -1, true);
    j' := RoutePair(P, lv[h], lv[h - 1], j, key);
  }

  lemma RoutePair(P: Pages, up: seq<int>, lo: seq<int>, j: nat, key: int) returns (j': nat)
    requires Linked(Flat(P, up), lo) && Ascending(Flat(P, up), true)
    requires j < |up| && SlotsOf(P, up[j]) != []
    requires Offset(P, up, j) == 0 || SlotsOf(P, up[j])[0].key <= key
    requires Offset(P, up, j + 1) < |Flat(P, up)| ==> key < Flat(P, up)[Offset(P, up, j + 1)].key
    ensures InSlot(Flat(P, up), j', key)
    ensures j' < |lo| && lo[j'] == SlotsOf(P, up[j])[Pick(SlotsOf(P, up[j]), key)].rid.pageNo
  {
    hide Flat;
    FlatStretch(P, up, j);
    j' := RouteFlat(Flat(P, up), Offset(P, up, j), SlotsOf(P, up[j]), key);
    ChildAt(P, up, lo, j, Pick(SlotsOf(P, up[j]), key));
  }

  lemma RouteFlat(F: seq<Slot>, off: nat, s: seq<Slot>, key: int) returns (g: nat)
    requires Ascending(F, true) && s != [] && off + |s| <= |F| && s == F[off..off + |s|]
    requires off == 0 || s[0].key <= key
    requires off + |s| < |F| ==> key < F[off + |s|].key
    ensures g == off + Pick(s, key) && InSlot(F, g, key)
  {
    assert Sorted(s) by {
      assert forall a :: 0 <= a < |s| ==> s[a] == F[off + a];
    }
    PickRoutes(s, key);
    var i := Pick(s, key);
    g := off + i;
    assert s[i] == F[g];
    if i + 1 < |s| {
      assert s[i + 1] == F[g + 1];
    }
  }

  lemma OneSlotCovers(F: seq<Slot>, a: nat, b: nat, key: int)
    requires Ascending(F, true) && InSlot(F, a, key) && InSlot(F, b, key)
    ensures a == b
  {
  }

  /** A key is stored in the leaf that covers it, if anywhere. */
  lemma OnlyInCovering(P: Pages, lv: seq<seq<int>>, j: nat, key: int, g: nat)
    requires |lv| >= 1 && Links(P, lv, -1, true)
    requires Covers(P, lv, 0, j, key)
    requires g < |Flat(P, lv[0])| && Flat(P, lv[0])[g].key == key
    requires |lv| == 1 ==> |lv[0]| == 1
    ensures exists i :: 0 <= i < |SlotsOf(P, lv[0][j])| && SlotsOf(P, lv[0][j])[i] == Flat(P, lv[0])[g] && g == Offset(P, lv[0], j) + i
  {
    var j', i := FlatLocate(P, lv[0], g);
    if |lv| > 1 {
      assert LinkAt(P, lv, 0, true);
      var F := Flat(P, lv[1]);
      assert LeafBounded(P, F, lv[0], j', true);
      OneSlotCovers(F, j, j', key);
    }
  }

  /** The stored pairs, leaf after leaf, are strictly sorted by key. */
  lemma EntriesSorted(P: Pages, lv: seq<seq<int>>, tight: bool)
    requires |lv| >= 1 && Links(P, lv, -1, tight) && LeavesSorted(P, lv[0])
    requires |lv| == 1 ==> |lv[0]| == 1
    ensures Sorted(Flat(P, lv[0]))
  {
    var E := Flat(P, lv[0]);
    forall a, b | 0 <= a < b < |E| ensures E[a].key < E[b].key {
      var ja, ia := FlatLocate(P, lv[0], a);
      var jb, ib := FlatLocate(P, lv[0], b);
      if jb < ja {
        OffStep(P, lv[0], jb);
        OffMonotone(P, lv[0], jb + 1, ja);
        assert false;
      }
      if ja < jb {
        assert LinkAt(P, lv, 0, tight);
        var F := Flat(P, lv[1]);
        assert LeafBounded(P, F, lv[0], ja, tight) && LeafBounded(P, F, lv[0], jb, tight);
        assert F[ja + 1].key <= F[jb].key;
      }
    }
  }
}
