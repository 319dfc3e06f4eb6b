/** The steps of deletion on single pages, put together for the operations. */
module IxShrink {
  import opened IxNode
  import opened IxLevels
  import opened IxTree
  import opened IxMaintain
  import opened IxInsert
  import opened IxBorrow
  import opened IxMerge
  import opened IxClimb
  import opened IxRestore
  import opened IxOps

  /** The page has become just too small: by one slot below the top, and at the root below what the root needs. */
  ghost predicate Underfull(n: Node, top: bool, order: nat) {
    if top then
      if n.isLeaf then |n.slots| <= 1 else 1 <= |n.slots| < MinSize(order)
    else
      |n.slots| == if n.isLeaf then MinSize(order) - 2 else MinSize(order) - 1
  }

  // The place of a page below the root in its parent.
  lemma PlaceInParent(P: Pages, lv: seq<seq<int>>, root: int, order: nat, h: nat, j: nat) returns (q: nat, i: nat)
    requires h < |lv| && j < |lv[h]| && TreeBut(P, lv, root, order, lv[h][j], true)
    requires Par(P, lv[h][j]) != IX_NO_PAGE
    ensures h + 1 < |lv| && q < |lv[h + 1]| && lv[h + 1][q] == Par(P, lv[h][j]) && lv[h + 1][q] in P
    ensures i < |P[lv[h + 1][q]].slots| && j == Offset(P, lv[h + 1], q) + i
    ensures P[lv[h + 1][q]].slots[i].rid.pageNo == lv[h][j]
  {
    UpLinksOf(P, lv, h, j, true);
    q, i := ParentPlace(P, lv, order, root, h, h, j);
  }

  lemma PlaceUnique(P: Pages, lv: seq<seq<int>>, root: int, order: nat, h: nat, j: nat, ex: int, q: nat, i: nat, i': nat)
    requires TreeBut(P, lv, root, order, ex, true) && h + 1 < |lv| && q < |lv[h + 1]|
    requires i < |SlotsOf(P, lv[h + 1][q])| && i' < |SlotsOf(P, lv[h + 1][q])|
    requires SlotsOf(P, lv[h + 1][q])[i].rid.pageNo == SlotsOf(P, lv[h + 1][q])[i'].rid.pageNo
    ensures i == i'
  {
    assert LinkAt(P, lv, h, true);
    ChildIndexUnique(P, lv[h + 1], lv[h], q, i, i');
  }

  // The child in slot i of an inner page and the size it may have.
  lemma ChildPage(P: Pages, lv: seq<seq<int>>, root: int, order: nat, ex: int, h: nat, q: nat, i: nat)
    requires TreeBut(P, lv, root, order, ex, true) && h + 1 < |lv| && q < |lv[h + 1]| && i < |SlotsOf(P, lv[h + 1][q])|
    ensures Offset(P, lv[h + 1], q) + i < |lv[h]|
    ensures var c := lv[h][Offset(P, lv[h + 1], q) + i];
            && SlotsOf(P, lv[h + 1][q])[i].rid.pageNo == c
            && GoodPage(P, c, h == 0, order)
            && Par(P, c) == lv[h + 1][q]
            && (c != ex ==> SizeOK(P[c], false, order))
  {
    assert LinkAt(P, lv, h, true);
    ChildAt(P, lv[h + 1], lv[h], q, i);
    assert GoodPage(P, lv[h][Offset(P, lv[h + 1], q) + i], h == 0, order);
  }

  // The parent of a page below the root is large enough to hold a sibling of it.
  lemma ParentSize(P: Pages, lv: seq<seq<int>>, root: int, order: nat, h: nat, j: nat, q: nat)
    requires h + 1 < |lv| && j < |lv[h]| && TreeBut(P, lv, root, order, lv[h][j], true) && q < |lv[h + 1]|
    ensures GoodPage(P, lv[h + 1][q], false, order) && SizeOK(P[lv[h + 1][q]], IsTop(lv, h + 1), order)
    ensures |P[lv[h + 1][q]].slots| >= 2
    ensures lv[h + 1][q] !in lv[h]
  {
    assert GoodPage(P, lv[h + 1][q], false, order);
    ElsewhereNot(lv, h + 1, q, h);
    assert lv[h + 1][q] != lv[h][j];
  }

  // ---- borrowing

  lemma ShiftFromRight(P: Pages, Q: Pages, a: int, b: int, order: nat)
    requires a in P && b in P && a != b && P[a].isLeaf == P[b].isLeaf && order >= 3
    requires |P[a].slots| + |P[a].spare| == order + 1 == |P[b].slots| + |P[b].spare|
    requires Underfull(P[a], false, order) && SizeOK(P[b], false, order)
    requires |P[b].slots| > if P[b].isLeaf then MinSize(order) - 1 else MinSize(order)
    requires Q == P[a := InsertAt(P[a], |P[a].slots|, P[b].slots[0])][b := EraseAt(P[b], 0)]
    ensures Shifted(P, Q, a, b, order)
    ensures Within(SlotsOf(Q, b), SlotsOf(P, b))
  {
    RemovedWithin(P[b].slots, 0);
    assert RemoveSlot(P[b].slots, 0) == Q[b].slots;
  }

  lemma ShiftFromLeft(P: Pages, Q: Pages, a: int, b: int, order: nat)
    requires a in P && b in P && a != b && P[a].isLeaf == P[b].isLeaf && order >= 3
    requires |P[a].slots| + |P[a].spare| == order + 1 == |P[b].slots| + |P[b].spare|
    requires Underfull(P[b], false, order) && SizeOK(P[a], false, order)
    requires |P[a].slots| > if P[a].isLeaf then MinSize(order) - 1 else MinSize(order)
    requires Q == P[b := InsertAt(P[b], 0, P[a].slots[|P[a].slots| - 1])][a := EraseAt(P[a], |P[a].slots| - 1)]
    ensures Shifted(P, Q, a, b, order)
    ensures Within(SlotsOf(Q, a), SlotsOf(P, a))
  {
    RemovedWithin(P[a].slots, |P[a].slots| - 1);
    assert RemoveSlot(P[a].slots, |P[a].slots| - 1) == Q[a].slots;
  }

  // The borrow up to the correction of the separator.
  lemma ShiftedReady(P: Pages, Q: Pages, lv: seq<seq<int>>, root: int, order: nat, h: nat, j: nat, ex: int)
    requires TreeBut(P, lv, root, order, ex, true) && h + 1 < |lv| && j + 1 < |lv[h]|
    requires Shifted(P, Q, lv[h][j], lv[h][j + 1], order)
    ensures Nodes(Q, lv, order) && UpLinks(Q, lv, h, h, j + 1) && Rooted(Q, lv, root)
    ensures SlotsOf(Q, lv[h][j + 1]) != []
    ensures Flat(Q, lv[h + 1]) == Flat(P, lv[h + 1])
  {
    ShiftedNodes(P, Q, lv, order, h, j);
    ShiftedUpLinks(P, Q, lv, order, h, j);
    TopIsRoot(P, lv, root);
    ShiftedFlat(P, Q, lv, order, h, j);
    assert GoodPage(P, lv[|lv| - 1][0], false, order);
  }

  // The children of a page are pages of the level below, however the slots of the level are spread.
  lemma ChildrenThere(P: Pages, Q: Pages, lv: seq<seq<int>>, order: nat, h: nat, m: nat)
    requires Nodes(P, lv, order) && 0 < h < |lv| && m < |lv[h]| && Linked(Flat(Q, lv[h]), lv[h - 1])
    ensures forall i :: 0 <= i < |SlotsOf(Q, lv[h][m])| ==> SlotsOf(Q, lv[h][m])[i].rid.pageNo in P
  {
    forall i | 0 <= i < |SlotsOf(Q, lv[h][m])| ensures SlotsOf(Q, lv[h][m])[i].rid.pageNo in P {
      ChildAt(Q, lv[h], lv[h - 1], m, i);
      assert GoodPage(P, lv[h - 1][Offset(Q, lv[h], m) + i], h - 1 == 0, order);
    }
  }

  // The children of a page of the tree are pages, after a borrow too.
  lemma ShiftedChildren(P: Pages, Q: Pages, lv: seq<seq<int>>, root: int, order: nat, h: nat, j: nat, m: nat, ex: int)
    requires TreeBut(P, lv, root, order, ex, true) && h + 1 < |lv| && j + 1 < |lv[h]| && (m == j || m == j + 1)
    requires Shifted(P, Q, lv[h][j], lv[h][j + 1], order) && h > 0
    ensures lv[h][m] in Q
    ensures forall i :: 0 <= i < |Q[lv[h][m]].slots| ==> Q[lv[h][m]].slots[i].rid.pageNo in Q
  {
    hide Nodes;
    assert LinkAt(P, lv, h - 1, true);
    ShiftedFlat(P, Q, lv, order, h, j);
    ChildrenThere(P, Q, lv, order, h, m);
  }

  /** A borrow in three steps: the shift (P1), maintain_parent on the right page (P2), the loop over the children (P3). */
  lemma BorrowDone(P: Pages, P1: Pages, P2: Pages, P3: Pages, lv: seq<seq<int>>, root: int, order: nat, h: nat, j: nat, m: nat)
    requires h + 1 < |lv| && j + 1 < |lv[h]| && (m == j || m == j + 1) && TreeBut(P, lv, root, order, lv[h][m], true)
    requires Shifted(P, P1, lv[h][j], lv[h][j + 1], order)
    requires m == j ==> Within(SlotsOf(P1, lv[h][j + 1]), SlotsOf(P, lv[h][j + 1]))
    requires m == j + 1 ==> Within(SlotsOf(P1, lv[h][j]), SlotsOf(P, lv[h][j]))
    requires Settled(P1, P2, lv, h, j + 1)
    requires if h == 0 then P3 == P2 else Adopted(P2, P3, lv[h][m])
    ensures Tree(P3, lv, root, order)
    ensures Flat(P3, lv[0]) == Flat(P, lv[0])
  {
    ShiftedReady(P, P1, lv, root, order, h, j, lv[h][m]);
    assert Borrowed(P, P1, P2, P3, lv, order, h, j, m);
    BorrowedTree(P, P1, P2, P3, lv, root, order, h, j, m);
  }

  // ---- merging

  // Coalesce: the slots of m are appended to those of n.
  function Joined(n: Node, m: Node): Node
    requires |m.slots| <= |n.spare|
  {
    n.(slots := n.slots + m.slots, spare := n.spare[|m.slots|..])
  }

  // erase_leaf: the neighbours of leaf b point past it.
  ghost predicate Unlinked(P: Pages, Q: Pages, b: int) {
    && b in P && Q.Keys == P.Keys && Q[b] == P[b]
    && forall y :: y in P && y != b ==>
         Q[y] == P[y].(next := if y == P[b].prev then P[b].next else P[y].next,
                       prev := if y == P[b].next then P[b].prev else P[y].prev)
  }

  // What a merge of pages a and b below page p needs.
  ghost predicate Mergeable(P: Pages, a: int, b: int, p: int, index: nat, order: nat) {
    && order >= 3 && a in P && b in P && p in P && a != b && a != p && b != p
    && P[a].isLeaf == P[b].isLeaf && !P[p].isLeaf
    && |P[a].slots| + |P[a].spare| == order + 1 == |P[p].slots| + |P[p].spare|
    && |P[b].slots| <= |P[a].spare| && P[a].slots + P[b].slots != [] && (!P[a].isLeaf ==> P[a].slots != [])
    && (if P[a].isLeaf then MinSize(order) - 1 else MinSize(order)) <= |P[a].slots| + |P[b].slots|
    && |P[a].slots| + |P[b].slots| <= (if P[a].isLeaf then order - 1 else order)
    && 1 <= index < |P[p].slots|
    && (P[a].isLeaf ==> P[b].prev in P && P[b].next in P && P[b].prev != b && P[b].next != b)
    && (!P[a].isLeaf ==> ChildrenApart(P, P[a].slots, a, p) && ChildrenApart(P, P[b].slots, a, p))
  }

  // The children named in s are pages other than a and p.
  ghost predicate ChildrenApart(P: Pages, s: seq<Slot>, a: int, p: int) {
    forall i :: 0 <= i < |s| ==> s[i].rid.pageNo in P && s[i].rid.pageNo != a && s[i].rid.pageNo != p
  }

  // Coalesce, before the right page is emptied: the slots of b are in a too.
  ghost predicate JoinedInto(P: Pages, C: Pages, a: int, b: int) {
    && a in P && b in P && |P[b].slots| <= |P[a].spare|
    && var B := P[a := Joined(P[a], P[b])];
    if P[a].isLeaf then Unlinked(B, C, b) else Adopted(B, C, a)
  }

  lemma MergeSpace(P: Pages, a: int, b: int, p: int, index: nat, order: nat)
    requires Mergeable(P, a, b, p, index, order)
    ensures a in P && b in P && p in P && a != b && a != p && b != p
    ensures |P[b].slots| <= |P[a].spare| && P[a].isLeaf == P[b].isLeaf && index < |P[p].slots|
  {
  }

  lemma JoinedFrame(P: Pages, C: Pages, a: int, b: int, p: int)
    requires JoinedInto(P, C, a, b) && a != b && p in P && p != a && P[a].isLeaf == P[b].isLeaf
    ensures C.Keys == P.Keys
    ensures forall y :: y in P ==>
      var n := if y == a then Joined(P[a], P[b]) else P[y]; C[y].slots == n.slots && C[y].spare == n.spare && C[y].isLeaf == P[y].isLeaf
    ensures C[p].slots == P[p].slots
    ensures C[b].isLeaf == P[b].isLeaf && C[b].next == P[b].next && C[b].prev == P[b].prev
  {
  }

  lemma MergedOf(P: Pages, C: Pages, Q: Pages, a: int, b: int, p: int, index: nat, order: nat)
    requires Mergeable(P, a, b, p, index, order) && JoinedInto(P, C, a, b)
    requires b in C && p in C && index < |C[p].slots| && Q == C[b := C[b].WithSize(0)][p := EraseAt(C[p], index)]
    ensures MergeOf(P, Q, a, b, p, index - 1, order)
  {
    hide Mergeable, MergeOf, Unlinked, Adopted;
    MergeSpace(P, a, b, p, index, order);
    var B := P[a := Joined(P[a], P[b])];
    if P[a].isLeaf {
      MergeLeafOf(P, B, C, Q, a, b, p, index, order);
    } else {
      MergeInnerOf(P, B, C, Q, a, b, p, index, order);
    }
  }

  lemma MergeLeafOf(P: Pages, B: Pages, C: Pages, Q: Pages, a: int, b: int, p: int, index: nat, order: nat)
    requires Mergeable(P, a, b, p, index, order) && P[a].isLeaf
    requires B == P[a := Joined(P[a], P[b])] && Unlinked(B, C, b)
    requires Q == C[b := C[b].WithSize(0)][p := EraseAt(C[p], index)]
    ensures MergeOf(P, Q, a, b, p, index - 1, order)
  {
    assert RemoveSlot(P[p].slots, index) == Q[p].slots;
  }

  lemma MergeInnerOf(P: Pages, B: Pages, C: Pages, Q: Pages, a: int, b: int, p: int, index: nat, order: nat)
    requires Mergeable(P, a, b, p, index, order) && !P[a].isLeaf
    requires B == P[a := Joined(P[a], P[b])] && Adopted(B, C, a)
    requires Q == C[b := C[b].WithSize(0)][p := EraseAt(C[p], index)]
    ensures MergeOf(P, Q, a, b, p, index - 1, order)
  {
    assert RemoveSlot(P[p].slots, index) == Q[p].slots;
    assert SlotsOf(Q, a) == SlotsOf(B, a);
    JoinedChildren(P, a, b, p);
    forall i | 0 <= i < |SlotsOf(Q, a)| ensures Par(Q, SlotsOf(Q, a)[i].rid.pageNo) == a {
      assert Par(C, SlotsOf(B, a)[i].rid.pageNo) == a;
    }
    assert C[a].parent == B[a].parent && C[p].parent == B[p].parent;
  }

  lemma JoinedChildren(P: Pages, a: int, b: int, p: int)
    requires a in P && b in P && ChildrenApart(P, P[a].slots, a, p) && ChildrenApart(P, P[b].slots, a, p)
    ensures ChildrenApart(P, P[a].slots + P[b].slots, a, p)
  {
  }

  // Two siblings one of which is too small and the other no larger than it must be can be merged.
  lemma MergeReady(P: Pages, lv: seq<seq<int>>, root: int, order: nat, h: nat, j: nat, q: nat, i: nat, ex: int)
    requires h + 1 < |lv| && j + 1 < |lv[h]| && q < |lv[h + 1]| && TreeBut(P, lv, root, order, ex, true)
    requires i + 1 < |SlotsOf(P, lv[h + 1][q])| && j == Offset(P, lv[h + 1], q) + i
    requires GoodPage(P, lv[h][j], h == 0, order) && GoodPage(P, lv[h][j + 1], h == 0, order)
    requires |P[lv[h][j]].slots| + |P[lv[h][j + 1]].slots| == if h == 0 then 2 * MinSize(order) - 3 else 2 * MinSize(order) - 1
    requires h > 0 ==> P[lv[h][j]].slots != []
    ensures Mergeable(P, lv[h][j], lv[h][j + 1], lv[h + 1][q], i + 1, order)
  {
    hide Flat, LeavesSorted, Offset;
    assert GoodPage(P, lv[h + 1][q], false, order);
    assert lv[h][j] != lv[h + 1][q] && lv[h][j + 1] != lv[h + 1][q] && lv[h][j] != lv[h][j + 1];
    if h == 0 {
      assert ChainedAt(P, lv[0], j + 1);
      if j + 2 < |lv[0]| {
        assert GoodPage(P, lv[0][j + 2], true, order);
      }
    } else {
      assert LinkAt(P, lv, h - 1, true);
      ChildrenElsewhere(P, lv, order, h, j, lv[h][j], lv[h + 1][q]);
      ChildrenElsewhere(P, lv, order, h, j + 1, lv[h][j], lv[h + 1][q]);
    }
  }

  lemma ChildrenElsewhere(P: Pages, lv: seq<seq<int>>, order: nat, h: nat, m: nat, a: int, p: int)
    requires Nodes(P, lv, order) && h + 1 < |lv| && 0 < h && m < |lv[h]| && Linked(Flat(P, lv[h]), lv[h - 1])
    requires a in lv[h] && p in lv[h + 1]
    ensures ChildrenApart(P, SlotsOf(P, lv[h][m]), a, p)
  {
    ChildrenThere(P, P, lv, order, h, m);
    forall i | 0 <= i < |SlotsOf(P, lv[h][m])|
      ensures SlotsOf(P, lv[h][m])[i].rid.pageNo != a && SlotsOf(P, lv[h][m])[i].rid.pageNo != p
    {
      ChildAt(P, lv[h], lv[h - 1], m, i);
    }
  }

  // The merge up to the correction of the separator.
  lemma MergedReady(P: Pages, Q: Pages, lv: seq<seq<int>>, root: int, order: nat, h: nat, j: nat, q: nat, i: nat, ex: int)
    requires TreeBut(P, lv, root, order, ex, true) && MergeAt(P, Q, lv, order, h, j, q, i)
    ensures Nodes(Q, WithoutPage(lv, h, j + 1), order)
    ensures UpLinks(Q, WithoutPage(lv, h, j + 1), h, h, j)
    ensures Rooted(Q, WithoutPage(lv, h, j + 1), root)
  {
    MergeNodes(P, Q, lv, order, h, j, q, i);
    MergeUpLinks(P, Q, lv, order, h, j, q, i);
    MergePar(P, Q, lv, order, h, j, q, i, |lv| - 1);
    TopIsRoot(P, lv, root);
  }

  /** A merge in two steps: the pages (P1), and maintain_parent on the left page (P2). */
  lemma MergeDone(P: Pages, P1: Pages, P2: Pages, lv: seq<seq<int>>, root: int, order: nat, h: nat, j: nat, q: nat, i: nat, ex: int)
    requires TreeBut(P, lv, root, order, ex, true) && MergeAt(P, P1, lv, order, h, j, q, i)
    requires ex == lv[h][j] || ex == lv[h][j + 1]
    requires Settled(P1, P2, WithoutPage(lv, h, j + 1), h, j)
    ensures TreeBut(P2, WithoutPage(lv, h, j + 1), root, order, lv[h + 1][q], true)
    ensures Flat(P2, WithoutPage(lv, h, j + 1)[0]) == Flat(P, lv[0])
  {
    assert MergedUp(P, P1, P2, lv, order, h, j, q, i);
    MergedTree(P, P1, P2, lv, root, order, h, j, q, i, ex);
  }

  // First and last leaf after leaf j + 1 was merged into leaf j.
  lemma MergeEnds(P: Pages, lv: seq<seq<int>>, root: int, order: nat, ex: int, h: nat, j: nat)
    requires h < |lv| && j + 1 < |lv[h]| && TreeBut(P, lv, root, order, ex, true)
    ensures var lw := WithoutPage(lv, h, j + 1);
            && lv[0] != [] && lw[0] != [] && lw[0][0] == lv[0][0]
            && lv[h][j + 1] in P && P[lv[h][j + 1]].isLeaf == (h == 0)
            && lw[0][|lw[0]| - 1] ==
                 (if h == 0 && lv[h][j + 1] == lv[0][|lv[0]| - 1] then P[lv[h][j + 1]].prev else lv[0][|lv[0]| - 1])
            && (h == 0 ==> lv[h][j + 1] != lv[0][0])
            && Total(lw) == Total(lv) - 1
  {
    hide LeavesSorted;
    assert GoodPage(P, lv[h][j + 1], h == 0, order);
    TotalUpdate(lv, h, Without(lv[h], j + 1));
    if h == 0 {
      assert ChainedAt(P, lv[0], j + 1);
      assert j + 2 < |lv[0]| ==> lv[0][|lv[0]| - 1] != lv[0][j + 1];
    }
  }

  // The parent after it lost a slot.
  lemma ParentShrunk(P: Pages, P1: Pages, P2: Pages, lv: seq<seq<int>>, root: int, order: nat, h: nat, j: nat, q: nat, i: nat, ex: int)
    requires TreeBut(P, lv, root, order, ex, true) && MergeAt(P, P1, lv, order, h, j, q, i)
    requires ex == lv[h][j] || ex == lv[h][j + 1]
    requires KeysAbove(P1, P2, WithoutPage(lv, h, j + 1), h)
    ensures lv[h + 1][q] in P2 && !P2[lv[h + 1][q]].isLeaf
    ensures var n := P2[lv[h + 1][q]]; var top := IsTop(WithoutPage(lv, h, j + 1), h + 1);
            if |n.slots| < MinSize(order) then Underfull(n, top, order) else SizeOK(n, top, order)
  {
    var p := lv[h + 1][q];
    assert GoodPage(P, lv[h + 1][q], false, order);
    assert p != lv[h][j] && p != lv[h][j + 1];
    assert SizeOK(P[lv[h + 1][q]], IsTop(lv, h + 1), order);
    assert SameButKeys(P1[p], P2[p]);
  }

  // ---- the root

  // A page has no parent exactly on the top level.
  lemma ParentlessIsTop(P: Pages, lv: seq<seq<int>>, root: int, order: nat, ex: int, h: nat, j: nat)
    requires h < |lv| && j < |lv[h]| && TreeBut(P, lv, root, order, ex, true)
    ensures lv[h][j] in P && (P[lv[h][j]].isLeaf <==> h == 0) && (P[lv[h][j]].parent == IX_NO_PAGE <==> IsTop(lv, h))
    ensures IsTop(lv, h) ==> j == 0 && lv[h][j] == root
    ensures GoodPage(P, lv[h][j], h == 0, order) && order >= 3
  {
    assert GoodPage(P, lv[h][j], h == 0, order);
    TopIsRoot(P, lv, root);
    if h + 1 < |lv| {
      assert LinkAt(P, lv, h, true);
      var q, i := ParentOf(P, lv[h + 1], lv[h], j);
      assert GoodPage(P, lv[h + 1][q], false, order);
    }
  }

  lemma CollapseReady(P: Pages, lv: seq<seq<int>>, root: int, order: nat)
    requires TreeBut(P, lv, root, order, root, true) && root in P && !P[root].isLeaf && |P[root].slots| == 1
    ensures |lv| > 1 && P[root].slots[0].rid.pageNo in P
    ensures lv[..|lv| - 1] != [] && lv[..|lv| - 1][0] == lv[0]
    ensures Total(lv[..|lv| - 1]) == Total(lv) - 1
  {
    TopIsRoot(P, lv, root);
    assert GoodPage(P, lv[|lv| - 1][0], |lv| == 1, order);
    CollapsedTop(P, lv, root, P[root].slots[0].rid.pageNo);
    assert GoodPage(P, lv[|lv| - 2][0], |lv| == 2, order);
    assert lv == lv[..|lv| - 1] + [lv[|lv| - 1]];
    TotalAppend(lv[..|lv| - 1], lv[|lv| - 1]);
  }

  // Neither an inner root with one child nor an empty leaf: the root is large enough.
  lemma RootStays(P: Pages, lv: seq<seq<int>>, root: int, order: nat)
    requires TreeBut(P, lv, root, order, root, true) && root in P && Underfull(P[root], true, order)
    requires if P[root].isLeaf then P[root].slots != [] else |P[root].slots| != 1
    ensures Tree(P, lv, root, order)
  {
    TopIsRoot(P, lv, root);
    AllSizes(P, lv, root, order, |lv| - 1, 0, true);
  }

  // A root without slots is all that is left of the tree.
  lemma LastLeaf(P: Pages, lv: seq<seq<int>>, root: int, order: nat)
    requires TreeBut(P, lv, root, order, root, true) && root in P && P[root].isLeaf && P[root].slots == []
    ensures lv == [[root]] && Flat(P, lv[0]) == [] && Total(lv) == 1
    ensures P[root].next == IX_LEAF_HEADER_PAGE == P[root].prev && IX_LEAF_HEADER_PAGE in P && root > IX_LEAF_HEADER_PAGE
  {
    TopIsRoot(P, lv, root);
    assert GoodPage(P, lv[|lv| - 1][0], |lv| == 1, order);
    FlatOne(P, root);
    assert ChainedAt(P, lv[0], 0);
    assert Total(lv) == |lv[0]| + Total(lv[1..]);
  }

  // ---- siblings

  /** The neighbour of a page in slot `at` of their parent. */
  lemma Sibling(P: Pages, lv: seq<seq<int>>, root: int, order: nat, h: nat, j: nat, q: nat, i: nat, at: nat)
    requires h + 1 < |lv| && j < |lv[h]| && TreeBut(P, lv, root, order, lv[h][j], true)
    requires q < |lv[h + 1]| && lv[h + 1][q] in P && i < |P[lv[h + 1][q]].slots| && j == Offset(P, lv[h + 1], q) + i
    requires at < |P[lv[h + 1][q]].slots| && (at == i + 1 || at == i - 1)
    ensures var s := if at == i + 1 then j + 1 else j - 1;
            && 0 <= s < |lv[h]| && P[lv[h + 1][q]].slots[at].rid.pageNo == lv[h][s]
            && GoodPage(P, lv[h][s], h == 0, order) && SizeOK(P[lv[h][s]], false, order)
            && lv[h][s] != lv[h][j]
  {
    ChildPage(P, lv, root, order, lv[h][j], h, q, at);
  }

  // ---- the last pair

  // Above a leaf that is not the root there is a second leaf, and it is not empty.
  lemma OnlyLeaf(P: Pages, lv: seq<seq<int>>, root: int, order: nat, j: nat)
    requires lv != [] && j < |lv[0]| && TreeBut(P, lv, root, order, lv[0][j], true)
    ensures lv[0][j] in P
    ensures Flat(P, lv[0]) == [] <==> IsTop(lv, 0) && P[lv[0][j]].slots == []
  {
    hide Flat;
    assert GoodPage(P, lv[0][j], true, order);
    if |lv| == 1 {
      FlatOne(P, root);
      assert lv[0] == [root];
    } else {
      assert LinkAt(P, lv, 0, true);
      var up, k := lv[1][0], if j == 0 then 1 else 0;
      assert up != lv[0][j] by {
        assert Distinct(lv);
      }
      assert SizeOK(P[up], IsTop(lv, 1), order);
      assert GoodPage(P, up, false, order);
      FlatStretch(P, lv[1], 0);
      assert lv[0][k] != lv[0][j];
      assert SizeOK(P[lv[0][k]], IsTop(lv, 0), order);
      assert GoodPage(P, lv[0][k], true, order);
      FlatStretch(P, lv[0], k);
    }
  }

  // In a tree with a pair no leaf is empty.
  lemma LeafFilled(P: Pages, lv: seq<seq<int>>, root: int, order: nat, j: nat)
    requires Tree(P, lv, root, order) && j < |lv[0]| && Flat(P, lv[0]) != []
    ensures lv[0][j] in P && P[lv[0][j]].slots != [] && |P[lv[0][j]].slots| + |P[lv[0][j]].spare| == order + 1
  {
    LeafSize(P, lv, root, order, j);
    assert GoodPage(P, lv[0][j], true, order);
    if |lv| == 1 {
      FlatOne(P, root);
      assert lv[0] == [root];
    }
  }
}
