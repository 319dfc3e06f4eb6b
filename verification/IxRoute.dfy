/** When the way down from the root ends in the leaf that covers the key.

    The search goes wrong only where an inner page is `Misled`. This module says for which keys that can happen:
    for none but those of stale slots, and when a page is merged away, for its separator alone.
  */
module IxRoute {
  import opened IxNode
  import opened IxLevels
  import opened IxTree
  import opened IxInsert
  import opened IxMaintain
  import opened IxMerge
  import opened IxClimb
  import opened IxOps
  import opened IxShrink
  import opened IxSpare

  // ---- clear ways

  /** No inner page that covers the key is misled by its spare slots. */
  ghost predicate Unmisled(P: Pages, lv: seq<seq<int>>, upto: nat, key: int)
    requires upto < |lv|
  {
    forall h, j :: 1 <= h <= upto && 0 <= j < |lv[h]| && Covers(P, lv, h, j, key) ==>
      lv[h][j] in P && P[lv[h][j]].slots != [] && !Misled(P[lv[h][j]], key)
  }

  // The root covers every key.
  lemma CoversTop(P: Pages, lv: seq<seq<int>>, root: int, order: nat, key: int)
    requires Tree(P, lv, root, order)
    ensures |lv| >= 1 && lv[|lv| - 1] != [] && lv[|lv| - 1][0] == root && Covers(P, lv, |lv| - 1, 0, key)
  {
    CoversRoot(P, lv, root, key);
    TopIsRoot(P, lv, root);
  }

  // A level has one page that covers a key.
  lemma CoversOnce(P: Pages, lv: seq<seq<int>>, root: int, order: nat, h: nat, a: nat, b: nat, key: int)
    requires Tree(P, lv, root, order) && h < |lv| && Covers(P, lv, h, a, key) && Covers(P, lv, h, b, key)
    ensures a == b
  {
    TopIsRoot(P, lv, root);
    if h + 1 < |lv| {
      LevelAscending(P, lv, h + 1, -1, true);
      OneSlotCovers(Flat(P, lv[h + 1]), a, b, key);
    }
  }

  // The way down from the page of level h that covers the key is clear exactly if no page below is misled.
  lemma {:induction false} ClearFrom(P: Pages, lv: seq<seq<int>>, root: int, order: nat, h: nat, j: nat, key: int)
    requires Tree(P, lv, root, order) && h < |lv| && Covers(P, lv, h, j, key)
    ensures ClearBelow(P, lv[h][j], h, key) <==> Unmisled(P, lv, h, key)
    decreases h
  {
    hide Flat, InSlot, Misled, TreeBut;
    if h > 0 {
      InnerNonempty(P, lv, root, order, h, j);
      var j' := StepDown(P, lv, root, order, h, j, key);
      ClearFrom(P, lv, root, order, h - 1, j', key);
      forall b | 0 <= b < |lv[h]| && Covers(P, lv, h, b, key) ensures b == j {
        CoversOnce(P, lv, root, order, h, j, b, key);
      }
    }
  }

  lemma StepDown(P: Pages, lv: seq<seq<int>>, root: int, order: nat, h: nat, j: nat, key: int) returns (j': nat)
    requires Tree(P, lv, root, order) && 1 <= h < |lv| && Covers(P, lv, h, j, key) && SlotsOf(P, lv[h][j]) != []
    ensures Covers(P, lv, h - 1, j', key)
    ensures lv[h - 1][j'] == SlotsOf(P, lv[h][j])[Pick(SlotsOf(P, lv[h][j]), key)].rid.pageNo
  {
    TopIsRoot(P, lv, root);
    j' := RouteStep(P, lv, h, j, key);
  }

  /** The way down for a key is clear exactly if no inner page that covers the key is misled. */
  lemma ClearExact(P: Pages, lv: seq<seq<int>>, root: int, order: nat, key: int)
    requires Tree(P, lv, root, order)
    ensures ClearBelow(P, root, |lv| - 1, key) <==> Unmisled(P, lv, |lv| - 1, key)
  {
    hide TreeBut, Covers;
    CoversTop(P, lv, root, order, key);
    ClearFrom(P, lv, root, order, |lv| - 1, 0, key);
  }

  /** The leaf at the end of the right way down covers the key. */
  lemma {:induction false} LeafCovers(P: Pages, lv: seq<seq<int>>, root: int, order: nat, h: nat, j: nat, key: int) returns (k: nat)
    requires Tree(P, lv, root, order) && h < |lv| && Covers(P, lv, h, j, key)
    ensures Covers(P, lv, 0, k, key) && lv[0][k] == LeafBelow(P, lv[h][j], h, key)
    decreases h
  {
    hide Flat, TreeBut, InSlot;
    if h == 0 {
      k := j;
    } else {
      InnerNonempty(P, lv, root, order, h, j);
      var j' := StepDown(P, lv, root, order, h, j, key);
      k := LeafCovers(P, lv, root, order, h - 1, j', key);
    }
  }

  // ---- the walk of the code

  /** The page reached after h lookups, wherever they lead. */
  ghost function Walk(P: Pages, p: int, key: int, h: nat): int
    decreases h
  {
    if h == 0 then p
    else if p in P && P[p].spare != [] then Walk(P, InternalLookup(P[p], key), key, h - 1)
    else IX_NO_PAGE
  }

  /** On a clear way every lookup leads to the right child, and the walk ends in the leaf that covers the key. */
  lemma {:induction false} WalkClear(P: Pages, lv: seq<seq<int>>, root: int, order: nat, h: nat, j: nat, key: int)
    requires Tree(P, lv, root, order) && h < |lv| && Covers(P, lv, h, j, key) && ClearBelow(P, lv[h][j], h, key)
    ensures Walk(P, lv[h][j], key, h) == LeafBelow(P, lv[h][j], h, key)
    decreases h
  {
    hide Flat, TreeBut, Misled, InSlot;
    if h > 0 {
      InnerNonempty(P, lv, root, order, h, j);
      InternalLookupExact(P[lv[h][j]], key);
      var j' := StepDown(P, lv, root, order, h, j, key);
      WalkClear(P, lv, root, order, h - 1, j', key);
    }
  }

  /** From a page above the leaves one lookup leads to the leaf that covers the key exactly if the page is not misled. */
  lemma LastStep(P: Pages, lv: seq<seq<int>>, root: int, order: nat, j: nat, key: int)
    requires Tree(P, lv, root, order) && |lv| > 1 && Covers(P, lv, 1, j, key)
    ensures lv[1][j] in P && P[lv[1][j]].slots != []
    ensures Walk(P, lv[1][j], key, 1) == LeafBelow(P, lv[1][j], 1, key) <==> !Misled(P[lv[1][j]], key)
  {
    hide Flat, TreeBut, Misled, InSlot;
    InnerNonempty(P, lv, root, order, 1, j);
    InternalLookupExact(P[lv[1][j]], key);
  }

  /** In a tree of two levels the walk ends in the leaf that covers the key exactly if the way is clear.

      In higher trees it may still do so after a wrong step: see `ReleasedLeadsBack`. */
  lemma WalkExact(P: Pages, lv: seq<seq<int>>, root: int, order: nat, key: int)
    requires Tree(P, lv, root, order)
    ensures ClearBelow(P, root, |lv| - 1, key) ==> Walk(P, root, key, |lv| - 1) == LeafBelow(P, root, |lv| - 1, key)
    ensures |lv| <= 2 && Walk(P, root, key, |lv| - 1) == LeafBelow(P, root, |lv| - 1, key) ==> ClearBelow(P, root, |lv| - 1, key)
  {
    hide TreeBut, Covers;
    CoversTop(P, lv, root, order, key);
    if ClearBelow(P, root, |lv| - 1, key) {
      WalkClear(P, lv, root, order, |lv| - 1, 0, key);
    } else if |lv| == 2 {
      LastStep(P, lv, root, order, 0, key);
    }
  }

  // ---- quiet spare slots mislead no search

  // A key below a page is smaller than the first key of the next page of its level.
  lemma BelowNext(P: Pages, lv: seq<seq<int>>, root: int, order: nat, h: nat, j: nat, key: int)
    requires Tree(P, lv, root, order) && h < |lv| && Covers(P, lv, h, j, key)
    ensures !Beyond(P, lv[h], j, key)
  {
    TopIsRoot(P, lv, root);
    if j + 1 < |lv[h]| {
      assert LinkAt(P, lv, h, true);
      var F := Flat(P, lv[h + 1]);
      if h == 0 {
        assert LeafBounded(P, F, lv[0], j + 1, true);
      }
    }
  }

  // The lookup in a page that covers the key does not hit a spare slot, unless a stale one holds the key.
  lemma NoStaleHit(P: Pages, lv: seq<seq<int>>, root: int, order: nat, h: nat, j: nat, key: int, stale: set<Slot>)
    requires Tree(P, lv, root, order) && h < |lv| && Covers(P, lv, h, j, key) && QuietLevel(P, lv[h], stale)
    requires forall s :: s in stale ==> s.key != key
    ensures lv[h][j] in P && !StaleHit(P[lv[h][j]], key)
  {
    hide Flat, InSlot, TreeBut, LowerBound;
    BelowNext(P, lv, root, order, h, j, key);
    PageThere(P, lv, root, order, h, j);
    var n := P[lv[h][j]];
    forall s | s in n.spare ensures s.key != key {
      assert s in SpareOf(P, lv[h][j]);
    }
  }

  lemma PageThere(P: Pages, lv: seq<seq<int>>, root: int, order: nat, h: nat, j: nat)
    requires Tree(P, lv, root, order) && h < |lv| && j < |lv[h]|
    ensures lv[h][j] in P
  {
    assert GoodPage(P, lv[h][j], h == 0, order);
  }

  /** The way down is clear for every key that no stray slot of an inner page holds; where no stray slot of a leaf holds
      it either, its leaf has no spare slot with the key in the way. */
  lemma RouteClear(P: Pages, lv: seq<seq<int>>, root: int, order: nat, key: int, stale: Strays)
    requires Tree(P, lv, root, order) && Quiet(P, lv, stale)
    ensures (forall s :: s in stale.inner ==> s.key != key) ==> ClearBelow(P, root, |lv| - 1, key)
    ensures LeafBelow(P, root, |lv| - 1, key) in P
    ensures (forall s :: s in stale.leaf ==> s.key != key) ==> !StaleHit(P[LeafBelow(P, root, |lv| - 1, key)], key)
  {
    hide Flat, InSlot, StaleHit, QuietLevel, TreeBut, Nodes;
    CoversTop(P, lv, root, order, key);
    if forall s :: s in stale.inner ==> s.key != key {
      forall h, j | 1 <= h <= |lv| - 1 && 0 <= j < |lv[h]| && Covers(P, lv, h, j, key)
        ensures lv[h][j] in P && P[lv[h][j]].slots != [] && !Misled(P[lv[h][j]], key)
      {
        assert QuietLevel(P, lv[h], stale.At(h));
        InnerNonempty(P, lv, root, order, h, j);
        NoStaleHit(P, lv, root, order, h, j, key, stale.inner);
      }
      ClearExact(P, lv, root, order, key);
    }
    var k := LeafCovers(P, lv, root, order, |lv| - 1, 0, key);
    PageThere(P, lv, root, order, 0, k);
    if forall s :: s in stale.leaf ==> s.key != key {
      assert QuietLevel(P, lv[0], stale.At(0));
      NoStaleHit(P, lv, root, order, 0, k, key, stale.leaf);
    }
  }

  /** Other slots on a leaf leave the ways down alone. */
  lemma {:induction false} ClearFrame(P: Pages, Q: Pages, lv: seq<seq<int>>, root: int, order: nat, p: int, h: nat, j: nat, key: int)
    requires Tree(P, lv, root, order) && h < |lv| && Covers(P, lv, h, j, key)
    requires p in lv[0] && Q.Keys == P.Keys && forall y :: y in P && y != p ==> Q[y] == P[y]
    ensures ClearBelow(Q, lv[h][j], h, key) <==> ClearBelow(P, lv[h][j], h, key)
    ensures LeafBelow(Q, lv[h][j], h, key) == LeafBelow(P, lv[h][j], h, key)
    decreases h
  {
    hide Flat, TreeBut, Misled, InSlot;
    if h > 0 {
      InnerNonempty(P, lv, root, order, h, j);
      InnerNotLeaf(P, lv, root, order, h, j, p);
      var j' := StepDown(P, lv, root, order, h, j, key);
      ClearFrame(P, Q, lv, root, order, p, h - 1, j', key);
    }
  }

  lemma InnerNotLeaf(P: Pages, lv: seq<seq<int>>, root: int, order: nat, h: nat, j: nat, p: int)
    requires Tree(P, lv, root, order) && 0 < h < |lv| && j < |lv[h]| && p in lv[0]
    ensures lv[h][j] != p
  {
    ElsewhereNot(lv, h, j, 0);
  }

  // ---- zeros

  /** A page that covers 0 misleads the search for it exactly if its keys are negative and the slot behind them holds 0
      and names another page than the last child; on a quiet page that slot is a stray one. Where it is a slot of
      zeros, negative keys are enough. */
  lemma ZeroExact(P: Pages, lv: seq<seq<int>>, root: int, order: nat, h: nat, j: nat, stale: Strays)
    requires Tree(P, lv, root, order) && 1 <= h < |lv| && Covers(P, lv, h, j, 0)
    ensures lv[h][j] in P && P[lv[h][j]].slots != [] && P[lv[h][j]].spare != []
    ensures var n := P[lv[h][j]];
      && (Misled(n, 0) <==> n.spare[0].key == 0 && n.spare[0].rid.pageNo != n.slots[|n.slots| - 1].rid.pageNo
                            && forall i :: 0 <= i < |n.slots| ==> n.slots[i].key < 0)
      && (n.spare[0] == ZERO ==> (Misled(n, 0) <==> forall i :: 0 <= i < |n.slots| ==> n.slots[i].key < 0))
      && (Quiet(P, lv, stale) && n.spare[0].key == 0 ==> n.spare[0] in stale.inner)
  {
    hide Flat, Nodes, Links;
    InnerNonempty(P, lv, root, order, h, j);
    var n := P[lv[h][j]];
    LastChild(P, lv, root, order, h, j);
    if forall i :: 0 <= i < |n.slots| ==> n.slots[i].key < 0 {
      LowerBoundIs(n.slots, 0, |n.slots|);
    }
    if Quiet(P, lv, stale) && n.spare[0].key == 0 {
      assert QuietLevel(P, lv[h], stale.At(h));
      assert n.spare[0] in SpareOf(P, lv[h][j]);
      BelowNext(P, lv, root, order, h, j, 0);
    }
  }

  // The last child of an inner page is a page of the tree, and so not page 0.
  lemma LastChild(P: Pages, lv: seq<seq<int>>, root: int, order: nat, h: nat, j: nat)
    requires Tree(P, lv, root, order) && 1 <= h < |lv| && j < |lv[h]| && SlotsOf(P, lv[h][j]) != []
    ensures SlotsOf(P, lv[h][j])[|SlotsOf(P, lv[h][j])| - 1].rid.pageNo > IX_LEAF_HEADER_PAGE
  {
    var i := |SlotsOf(P, lv[h][j])| - 1;
    assert LinkAt(P, lv, h - 1, true);
    ChildAt(P, lv[h], lv[h - 1], j, i);
    assert GoodPage(P, lv[h - 1][Offset(P, lv[h], j) + i], h - 1 == 0, order);
  }

  // Every separator is at or below the first key of a leaf.
  lemma {:induction false} SeparatorBelow(P: Pages, lv: seq<seq<int>>, root: int, order: nat, h: nat, g: nat) returns (k: nat)
    requires Tree(P, lv, root, order) && 1 <= h < |lv| && g < |Flat(P, lv[h])|
    ensures k < |lv[0]| && SlotsOf(P, lv[0][k]) != [] && Flat(P, lv[h])[g].key <= SlotsOf(P, lv[0][k])[0].key
    decreases h
  {
    assert LinkAt(P, lv, h - 1, true);
    if h == 1 {
      assert LeafBounded(P, Flat(P, lv[1]), lv[0], g, true);
      FilledLeaf(P, lv, root, order, g);
      k := g;
    } else {
      InnerNonempty(P, lv, root, order, h - 1, g);
      FlatAt(P, lv[h - 1], g, 0);
      k := SeparatorBelow(P, lv, root, order, h - 1, Offset(P, lv[h - 1], g));
    }
  }

  lemma FilledLeaf(P: Pages, lv: seq<seq<int>>, root: int, order: nat, j: nat)
    requires Tree(P, lv, root, order) && |lv| > 1 && j < |lv[0]|
    ensures SlotsOf(P, lv[0][j]) != []
  {
    LeafSize(P, lv, root, order, j);
    assert GoodPage(P, lv[0][j], true, order);
  }

  /** Where every leaf begins with a negative key and there is an inner page, the search for 0 leaves the root through
      the slot behind its keys if that slot holds 0, and is right there if it does not. In an index that has only been
      inserted into it is a slot of zeros: the search goes to page 0, even if 0 is stored. */
  lemma NegativeFirstsMislead(P: Pages, lv: seq<seq<int>>, root: int, order: nat, stale: Strays)
    requires Tree(P, lv, root, order) && |lv| > 1 && Quiet(P, lv, stale)
    requires forall k :: 0 <= k < |lv[0]| && SlotsOf(P, lv[0][k]) != [] ==> SlotsOf(P, lv[0][k])[0].key < 0
    ensures root in P && P[root].slots != [] && P[root].spare != [] && P[root].spare[0] in stale.inner
    ensures var n := P[root]; var s := n.spare[0];
      && InternalLookup(n, 0) == (if s.key == 0 then s.rid.pageNo else n.slots[|n.slots| - 1].rid.pageNo)
      && (s.key == 0 && s.rid.pageNo != n.slots[|n.slots| - 1].rid.pageNo ==> !ClearBelow(P, root, |lv| - 1, 0))
      && (s == ZERO ==> InternalLookup(n, 0) == 0 && !ClearBelow(P, root, |lv| - 1, 0))
  {
    hide TreeBut, InternalLookup, QuietLevel;
    var top := |lv| - 1;
    CoversTop(P, lv, root, order, 0);
    InnerNonempty(P, lv, root, order, top, 0);
    NegativeRoot(P, lv, root, order);
    TopSpare(P, lv, root, order, stale);
    assert P[root].slots == SlotsOf(P, root) && P[root].spare == SpareOf(P, root);
    BehindNegative(P[root]);
    LastChild(P, lv, root, order, top, 0);
  }

  lemma NegativeRoot(P: Pages, lv: seq<seq<int>>, root: int, order: nat)
    requires Tree(P, lv, root, order) && |lv| > 1
    requires forall k :: 0 <= k < |lv[0]| && SlotsOf(P, lv[0][k]) != [] ==> SlotsOf(P, lv[0][k])[0].key < 0
    ensures forall i :: 0 <= i < |SlotsOf(P, root)| ==> SlotsOf(P, root)[i].key < 0
  {
    hide Flat, Nodes, Links;
    TopIsRoot(P, lv, root);
    forall i | 0 <= i < |SlotsOf(P, root)| ensures SlotsOf(P, root)[i].key < 0 {
      FlatAt(P, lv[|lv| - 1], 0, i);
      var k := SeparatorBelow(P, lv, root, order, |lv| - 1, Offset(P, lv[|lv| - 1], 0) + i);
    }
  }

  // No page lies behind the root: all its spare slots are strays.
  lemma TopSpare(P: Pages, lv: seq<seq<int>>, root: int, order: nat, stale: Strays)
    requires Tree(P, lv, root, order) && |lv| > 1 && Quiet(P, lv, stale)
    ensures forall s :: s in SpareOf(P, root) ==> s in stale.inner
  {
    TopIsRoot(P, lv, root);
    assert QuietLevel(P, lv[|lv| - 1], stale.At(|lv| - 1));
  }

  // Behind negative keys 0 is compared with the first spare slot.
  lemma BehindNegative(n: Node)
    requires n.slots != [] && n.spare != [] && forall i :: 0 <= i < |n.slots| ==> n.slots[i].key < 0
    ensures InternalLookup(n, 0) == (if n.spare[0].key == 0 then n.spare[0].rid.pageNo else n.slots[|n.slots| - 1].rid.pageNo)
    ensures StaleHit(n, 0) <==> n.spare[0].key == 0
  {
    LowerBoundIs(n.slots, 0, |n.slots|);
  }

  // ---- a page is merged away

  /** Erasing slot `place` of an inner page misleads the search for its key if it was the last slot, and no other. */
  lemma MergeMisleads(n: Node, place: nat, key: int)
    requires Sorted(n.slots) && 1 <= place < |n.slots|
    requires n.slots[|n.slots| - 1].rid.pageNo != n.slots[|n.slots| - 2].rid.pageNo
    ensures Misled(EraseAt(n, place), key) <==> place == |n.slots| - 1 && key == n.slots[place].key
  {
    var last := |n.slots| - 1;
    var r := EraseAt(n, place);
    assert forall i :: 0 <= i < |r.slots| ==> r.slots[i] == n.slots[if i < place then i else i + 1];
    if place == last && key == n.slots[last].key {
      LowerBoundIs(r.slots, key, last);
    }
  }

  // The slots of an inner page ascend and name different pages.
  lemma ParentApart(P: Pages, lv: seq<seq<int>>, root: int, order: nat, ex: int, h: nat, q: nat)
    requires TreeBut(P, lv, root, order, ex, true) && h + 1 < |lv| && q < |lv[h + 1]|
    ensures var s := SlotsOf(P, lv[h + 1][q]); Sorted(s) && forall a, b :: 0 <= a < b < |s| ==> s[a].rid.pageNo != s[b].rid.pageNo
  {
    hide SlotsOf;
    InnerSorted(P, lv, h + 1, q, true);
    assert LinkAt(P, lv, h, true);
    var s := SlotsOf(P, lv[h + 1][q]);
    forall a, b | 0 <= a < b < |s| ensures s[a].rid.pageNo != s[b].rid.pageNo {
      ChildAt(P, lv[h + 1], lv[h], q, a);
      ChildAt(P, lv[h + 1], lv[h], q, b);
    }
  }

  /** After a merge below page q of level h + 1 exactly one search is misled there, if the page merged away was its
      last child: that for the separator of this page. */
  lemma MergedMisleads(P: Pages, n: Node, lv: seq<seq<int>>, root: int, order: nat, ex: int, h: nat, q: nat, place: nat, key: int)
    requires TreeBut(P, lv, root, order, ex, true) && h + 1 < |lv| && q < |lv[h + 1]| && lv[h + 1][q] in P
    requires 1 <= place < |P[lv[h + 1][q]].slots|
    requires n.slots == EraseAt(P[lv[h + 1][q]], place).slots && n.spare == EraseAt(P[lv[h + 1][q]], place).spare
    ensures n.slots != []
    ensures Misled(n, key) <==> place == |P[lv[h + 1][q]].slots| - 1 && key == P[lv[h + 1][q]].slots[place].key
  {
    hide TreeBut;
    ParentApart(P, lv, root, order, ex, h, q);
    MergeMisleads(P[lv[h + 1][q]], place, key);
  }

  /** The search for the key of slot `sep`, which names no live child, leaves an inner page through this slot. */
  ghost predicate Misleads(n: Node, sep: Slot) {
    && n.slots != [] && n.spare != [] && n.spare[0] == sep
    && (forall i :: 0 <= i < |n.slots| ==> n.slots[i].key < sep.key)
    && n.slots[|n.slots| - 1].rid.pageNo != sep.rid.pageNo
  }

  lemma MisleadsExact(n: Node, sep: Slot, key: int)
    requires Misleads(n, sep)
    ensures Misled(n, key) <==> key == sep.key
    ensures InternalLookup(n, sep.key) == sep.rid.pageNo
  {
    LowerBoundIs(n.slots, sep.key, |n.slots|);
  }

  /** Leaf j has become too small and is the last child of page q above; its left neighbour there has no key to lend,
      and the page can do without a child. */
  ghost predicate LastChildGoes(P: Pages, lv: seq<seq<int>>, order: nat, j: nat, q: nat) {
    && |lv| > 1 && 0 < j < |lv[0]| && q < |lv[1]|
    && var s := SlotsOf(P, lv[1][q]);
    && 2 <= |s| && j == Offset(P, lv[1], q) + |s| - 1 && |s| > (if IsTop(lv, 1) then 2 else MinSize(order))
    && |SlotsOf(P, lv[0][j])| < MinSize(order) - 1 == |SlotsOf(P, lv[0][j - 1])|
  }

  /** Leaf j is merged away: its separator misleads the search in the page above, which leads to the released leaf,
      where all slots are spare ones now. */
  ghost predicate LastChildGone(P: Pages, lv: seq<seq<int>>, Q: Pages, lw: seq<seq<int>>, j: nat, q: nat) {
    && |lv| > 1 && j < |lv[0]| && q < |lv[1]| && SlotsOf(P, lv[1][q]) != []
    && lw == WithoutPage(lv, 0, j)
    && lv[1][q] in Q && Misleads(Q[lv[1][q]], SlotsOf(P, lv[1][q])[|SlotsOf(P, lv[1][q])| - 1])
    && lv[0][j] in P && lv[0][j] in Q && Q[lv[0][j]].slots == [] && Q[lv[0][j]].spare == P[lv[0][j]].Physical()
  }

  // The place of the left neighbour in the page above, after the merge.
  lemma LastChildLeft(P1: Pages, P2: Pages, lw: seq<seq<int>>, order: nat, j: nat, q: nat)
    requires Nodes(P1, lw, order) && |lw| > 1 && j < |lw[0]| && q < |lw[1]| && SlotsOf(P1, lw[1][q]) != []
    requires var s := SlotsOf(P1, lw[1][q]); s[|s| - 1].rid.pageNo == lw[0][j]
    requires Settled(P1, P2, lw, 0, j)
    ensures SlotsOf(P1, lw[0][j]) != []
    ensures var t := SlotsOf(P2, lw[1][q]);
      && |t| == |SlotsOf(P1, lw[1][q])| && t[|t| - 1].rid.pageNo == lw[0][j] && t[|t| - 1].key == SlotsOf(P1, lw[0][j])[0].key
    ensures lw[1][q] in P1 && lw[1][q] in P2 && P2[lw[1][q]].spare == P1[lw[1][q]].spare
  {
    hide Flat;
    assert GoodPage(P1, lw[1][q], false, order);
    assert SameButKeys(P1[lw[1][q]], P2[lw[1][q]]);
    assert UpLinkAt(P2, lw, 0, -1, -1);
    var last := |SlotsOf(P2, lw[1][q])| - 1;
    ChildAt(P2, lw[1], lw[0], q, last);
  }

  /** A merge of the last child away from its page, and the correction of the separator that follows. */
  lemma LastChildMerged(P: Pages, P1: Pages, P2: Pages, lv: seq<seq<int>>, root: int, order: nat, j: nat, q: nat, ex: int)
    requires TreeBut(P, lv, root, order, ex, true) && |lv| > 1 && j + 1 < |lv[0]| && q < |lv[1]|
    requires |SlotsOf(P, lv[1][q])| >= 2 && MergeAt(P, P1, lv, order, 0, j, q, |SlotsOf(P, lv[1][q])| - 2)
    requires SlotsOf(P, lv[0][j]) != [] && lv[1][q] in P && lv[1][q] in P1
    requires P1[lv[1][q]].spare == EraseAt(P[lv[1][q]], |SlotsOf(P, lv[1][q])| - 1).spare
    requires Settled(P1, P2, WithoutPage(lv, 0, j + 1), 0, j)
    requires TreeBut(P2, WithoutPage(lv, 0, j + 1), root, order, lv[1][q], true)
    ensures lv[1][q] in P2 && Misleads(P2[lv[1][q]], SlotsOf(P, lv[1][q])[|SlotsOf(P, lv[1][q])| - 1])
    ensures |P2[lv[1][q]].slots| == |SlotsOf(P, lv[1][q])| - 1 && IsTop(WithoutPage(lv, 0, j + 1), 1) == IsTop(lv, 1)
  {
    hide Flat, TreeBut, Links, Settled, MergeAt;
    var lw, s := WithoutPage(lv, 0, j + 1), SlotsOf(P, lv[1][q]);
    LastChildBefore(P, P1, lv, root, order, j, q, ex);
    MergedReady(P, P1, lv, root, order, 0, j, q, |s| - 2, ex);
    LastChildLeft(P1, P2, lw, order, j, q);
    ParentApart(P2, lw, root, order, lv[1][q], 0, q);
  }

  // Before the correction: the slots of the page above, and the two leaves and their separators.
  lemma LastChildBefore(P: Pages, P1: Pages, lv: seq<seq<int>>, root: int, order: nat, j: nat, q: nat, ex: int)
    requires TreeBut(P, lv, root, order, ex, true) && |lv| > 1 && j + 1 < |lv[0]| && q < |lv[1]|
    requires |SlotsOf(P, lv[1][q])| >= 2 && MergeAt(P, P1, lv, order, 0, j, q, |SlotsOf(P, lv[1][q])| - 2)
    requires SlotsOf(P, lv[0][j]) != []
    ensures var s, t := SlotsOf(P, lv[1][q]), SlotsOf(P1, lv[1][q]);
      && |t| == |s| - 1 && t[|t| - 1].rid.pageNo == lv[0][j] != s[|s| - 1].rid.pageNo
    ensures SlotsOf(P1, lv[0][j]) != []
      && SlotsOf(P1, lv[0][j])[0].key < SlotsOf(P, lv[1][q])[|SlotsOf(P, lv[1][q])| - 1].key
  {
    hide Flat, SlotsOf, LeavesSorted, Chain, Sizes;
    assert LinkAt(P, lv, 0, true);
    var F, s := Flat(P, lv[1]), SlotsOf(P, lv[1][q]);
    ChildAt(P, lv[1], lv[0], q, |s| - 2);
    ChildAt(P, lv[1], lv[0], q, |s| - 1);
    assert LeafBounded(P, F, lv[0], j, true);
    assert SlotsOf(P1, lv[0][j])[0] == SlotsOf(P, lv[0][j])[0];
  }

  // The released leaf is not touched by the correction of separators.
  lemma ReleasedStays(P1: Pages, P2: Pages, lw: seq<seq<int>>, j: nat, r: int)
    requires Settled(P1, P2, lw, 0, j) && r in P1 && P1[r].slots == []
    ensures r in P2 && P2[r].slots == [] && P2[r].spare == P1[r].spare
  {
    assert SameButKeys(P1[r], P2[r]);
  }

  /** A misled search may come back to the right way: where the inner page b, the last child of p, has been merged
      into a, the search for its separator enters b, whose slots are all spare now, and leaves it for the child that
      holds the key and is a child of a now. */
  lemma ReleasedLeadsBack(P: Pages, C: Pages, Q: Pages, a: int, b: int, p: int, index: nat, order: nat, key: int)
    requires Mergeable(P, a, b, p, index, order) && JoinedInto(P, C, a, b) && !P[a].isLeaf && P[b].slots != []
    requires b in C && p in C && index < |C[p].slots| && Q == C[b := C[b].WithSize(0)][p := EraseAt(C[p], index)]
    requires index == |P[p].slots| - 1 && Sorted(P[p].slots) && Sorted(P[a].slots + P[b].slots)
    requires P[p].slots[index].rid.pageNo == b && key == P[p].slots[index].key == P[b].slots[0].key
    ensures InternalLookup(Q[p], key) == b
    ensures Q[b].spare != [] && InternalLookup(Q[b], key) == P[b].slots[0].rid.pageNo
    ensures a in Q && Q[a].slots != [] && Q[a].slots[Pick(Q[a].slots, key)].rid.pageNo == P[b].slots[0].rid.pageNo
  {
    hide Mergeable, JoinedInto;
    MergeSpace(P, a, b, p, index, order);
    JoinedFrame(P, C, a, b, p);
    assert Q[b].slots == [] && Q[b].spare == C[b].Physical();
    LowerBoundIs(Q[p].slots, key, |Q[p].slots|);
    var s := P[a].slots + P[b].slots;
    assert s[|P[a].slots|] == P[b].slots[0];
    SortedFind(s, key, |P[a].slots|);
  }
}
