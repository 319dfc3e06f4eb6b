/** Deletion: an underfull page is merged with a sibling, and the parent loses the slot of the right one. */
module IxMerge {
  import opened IxNode
  import opened IxLevels
  import opened IxTree
  import opened IxMaintain
  import opened IxInsert
  import opened IxBorrow

  ghost function RemoveSlot(F: seq<Slot>, g: nat): seq<Slot>
    requires g < |F|
  {
    F[..g] + F[g + 1..]
  }

  // The levels without node j of level h.
  function WithoutPage(lv: seq<seq<int>>, h: nat, j: nat): seq<seq<int>>
    requires h < |lv| && j < |lv[h]|
  {
    lv[h := Without(lv[h], j)]
  }

  /** Merging two neighbours of a level leaves its flat sequence alone. */
  lemma FlatMerge(P: Pages, Q: Pages, s: seq<int>, j: nat)
    requires j + 1 < |s|
    requires forall k :: 0 <= k < |s| && k != j && k != j + 1 ==> SlotsOf(P, s[k]) == SlotsOf(Q, s[k])
    requires SlotsOf(P, s[j]) + SlotsOf(P, s[j + 1]) == SlotsOf(Q, s[j])
    ensures Flat(Q, Without(s, j + 1)) == Flat(P, s)
  {
    var A, B := s[..j], s[j + 2..];
    assert s == A + ([s[j]] + [s[j + 1]]) + B;
    FlatThree(P, A, s[j], s[j + 1], B);
    assert Without(s, j + 1) == A + [s[j]] + B;
    FlatAppend(Q, A + [s[j]], B);
    FlatAppend(Q, A, [s[j]]);
    FlatOne(Q, s[j]);
    FlatFrame(P, Q, A);
    FlatFrame(P, Q, B);
  }

  lemma RemoveWithin(A: seq<Slot>, s: seq<Slot>, B: seq<Slot>, i: nat)
    requires i < |s|
    ensures |A| + i < |A + s + B|
    ensures RemoveSlot(A + s + B, |A| + i) == A + RemoveSlot(s, i) + B
  {
  }

  lemma RemoveFlat(P: Pages, Q: Pages, up: seq<int>, q: nat, i: nat)
    requires q < |up| && i < |SlotsOf(P, up[q])| && SlotsOf(Q, up[q]) == RemoveSlot(SlotsOf(P, up[q]), i)
    requires forall k :: 0 <= k < |up| && k != q ==> SlotsOf(P, up[k]) == SlotsOf(Q, up[k])
    ensures Offset(P, up, q) + i < |Flat(P, up)|
    ensures Flat(Q, up) == RemoveSlot(Flat(P, up), Offset(P, up, q) + i)
  {
    hide Flat;
    FlatSet(P, Q, up, q);
    FlatAround(P, up, q);
    RemoveWithin(Flat(P, up[..q]), SlotsOf(P, up[q]), Flat(P, up[q + 1..]), i);
  }

  /** Page b has been merged into its left neighbour a, and slot i + 1 of their parent p removed. */
  ghost predicate MergeOf(P: Pages, Q: Pages, a: int, b: int, p: int, i: nat, order: nat) {
    && a in P && b in P && p in P && a != b && a != p && b != p && Q.Keys == P.Keys
    && SlotsOf(Q, a) == SlotsOf(P, a) + SlotsOf(P, b) && SlotsOf(Q, a) != []
    && i + 1 < |SlotsOf(P, p)| && SlotsOf(Q, p) == RemoveSlot(SlotsOf(P, p), i + 1)
    && |Q[a].slots| + |Q[a].spare| == order + 1 == |Q[p].slots| + |Q[p].spare|
    && SizeOK(Q[a], false, order)
    && Q[a].isLeaf == P[a].isLeaf && Q[p].isLeaf == P[p].isLeaf
    && Par(Q, a) == Par(P, a) && Par(Q, p) == Par(P, p)
    && (!P[a].isLeaf ==> SlotsOf(P, a) != [])
    && (forall y :: y in P && y != a && y != b && y != p ==>
          Q[y].slots == P[y].slots && Q[y].spare == P[y].spare && Q[y].isLeaf == P[y].isLeaf)
    && (if P[a].isLeaf then LeafUnlinked(P, Q, b) else ChildrenJoined(P, Q, a))
  }

  // Leaf b is taken out of the ring.
  ghost predicate LeafUnlinked(P: Pages, Q: Pages, b: int)
    requires b in P && Q.Keys == P.Keys
  {
    forall y :: y in P && y != b ==>
      && Q[y].parent == P[y].parent
      && Q[y].next == (if y == P[b].prev then P[b].next else P[y].next)
      && Q[y].prev == (if y == P[b].next then P[b].prev else P[y].prev)
  }

  // The children of page a name it as their parent.
  ghost predicate ChildrenJoined(P: Pages, Q: Pages, a: int)
    requires Q.Keys == P.Keys
  {
    && (forall i :: 0 <= i < |SlotsOf(Q, a)| ==> Par(Q, SlotsOf(Q, a)[i].rid.pageNo) == a)
    && forall y :: y in P ==>
         && Q[y].prev == P[y].prev && Q[y].next == P[y].next
         && (Q[y].parent == P[y].parent || exists i :: 0 <= i < |SlotsOf(Q, a)| && SlotsOf(Q, a)[i].rid.pageNo == y)
  }

  // The places of the merge in the levels.
  ghost predicate MergeAt(P: Pages, Q: Pages, lv: seq<seq<int>>, order: nat, h: nat, j: nat, q: nat, i: nat) {
    && h + 1 < |lv| && j + 1 < |lv[h]| && q < |lv[h + 1]|
    && j == Offset(P, lv[h + 1], q) + i
    && MergeOf(P, Q, lv[h][j], lv[h][j + 1], lv[h + 1][q], i, order)
  }

  lemma DistinctWithout(lv: seq<seq<int>>, h: nat, j: nat)
    requires Distinct(lv) && h < |lv| && j < |lv[h]|
    ensures Distinct(WithoutPage(lv, h, j))
  {
    var lw := WithoutPage(lv, h, j);
    forall g, a, g', a' | 0 <= g < |lw| && 0 <= a < |lw[g]| && 0 <= g' < |lw| && 0 <= a' < |lw[g']| && lw[g][a] == lw[g'][a']
      ensures g == g' && a == a'
    {
      var b := if g == h && a >= j then a + 1 else a;
      var b' := if g' == h && a' >= j then a' + 1 else a';
      assert lw[g][a] == lv[g][b] && lw[g'][a'] == lv[g'][b'];
    }
  }

  lemma MergeNodes(P: Pages, Q: Pages, lv: seq<seq<int>>, order: nat, h: nat, j: nat, q: nat, i: nat)
    requires Nodes(P, lv, order) && MergeAt(P, Q, lv, order, h, j, q, i)
    ensures Nodes(Q, WithoutPage(lv, h, j + 1), order)
  {
    var lw := WithoutPage(lv, h, j + 1);
    DistinctWithout(lv, h, j + 1);
    assert GoodPage(P, lv[h][j], h == 0, order) && GoodPage(P, lv[h + 1][q], false, order);
    forall g, k | 0 <= g < |lw| && 0 <= k < |lw[g]| ensures GoodPage(Q, lw[g][k], g == 0, order) {
      var b := if g == h && k > j then k + 1 else k;
      assert lw[g][k] == lv[g][b];
      assert GoodPage(P, lv[g][b], g == 0, order);
      assert lv[g][b] != lv[h][j + 1];
    }
  }

  // A merge changes the slots of three pages.
  lemma MergeSlots(P: Pages, Q: Pages, lv: seq<seq<int>>, order: nat, h: nat, j: nat, q: nat, i: nat, x: nat)
    requires Nodes(P, lv, order) && MergeAt(P, Q, lv, order, h, j, q, i) && x < |lv|
    ensures forall k :: 0 <= k < |lv[x]| && !(x == h && (k == j || k == j + 1)) && !(x == h + 1 && k == q) ==>
      SlotsOf(Q, lv[x][k]) == SlotsOf(P, lv[x][k])
  {
    forall k | 0 <= k < |lv[x]| && !(x == h && (k == j || k == j + 1)) && !(x == h + 1 && k == q)
      ensures SlotsOf(Q, lv[x][k]) == SlotsOf(P, lv[x][k])
    {
      assert GoodPage(P, lv[x][k], x == 0, order);
      assert lv[x][k] != lv[h][j] && lv[x][k] != lv[h][j + 1] && lv[x][k] != lv[h + 1][q];
    }
  }

  // Outside the level below h no page left in the tree changes its parent.
  lemma MergePar(P: Pages, Q: Pages, lv: seq<seq<int>>, order: nat, h: nat, j: nat, q: nat, i: nat, x: nat)
    requires Nodes(P, lv, order) && Links(P, lv, -1, true) && MergeAt(P, Q, lv, order, h, j, q, i)
    requires x < |lv| && x + 1 != h
    ensures forall k :: 0 <= k < |lv[x]| && !(x == h && k == j + 1) ==> Par(Q, lv[x][k]) == Par(P, lv[x][k])
  {
    forall k | 0 <= k < |lv[x]| && !(x == h && k == j + 1) ensures Par(Q, lv[x][k]) == Par(P, lv[x][k]) {
      assert GoodPage(P, lv[x][k], x == 0, order) && GoodPage(P, lv[h][j], h == 0, order);
      assert lv[x][k] != lv[h][j + 1];
      if h > 0 {
        MergeFlat(P, Q, lv, order, h, j, q, i);
        assert LinkAt(P, lv, h - 1, true);
        forall s | 0 <= s < |SlotsOf(Q, lv[h][j])| ensures SlotsOf(Q, lv[h][j])[s].rid.pageNo != lv[x][k] {
          ChildAt(Q, Without(lv[h], j + 1), lv[h - 1], j, s);
        }
      }
    }
  }

  lemma MergeFlat(P: Pages, Q: Pages, lv: seq<seq<int>>, order: nat, h: nat, j: nat, q: nat, i: nat)
    requires Nodes(P, lv, order) && MergeAt(P, Q, lv, order, h, j, q, i)
    ensures Flat(Q, Without(lv[h], j + 1)) == Flat(P, lv[h])
    ensures j + 1 < |Flat(P, lv[h + 1])|
    ensures Flat(Q, lv[h + 1]) == RemoveSlot(Flat(P, lv[h + 1]), j + 1)
  {
    hide Flat;
    MergeSlots(P, Q, lv, order, h, j, q, i, h);
    MergeSlots(P, Q, lv, order, h, j, q, i, h + 1);
    FlatMerge(P, Q, lv[h], j);
    RemoveFlat(P, Q, lv[h + 1], q, i + 1);
  }

  // A level that lost slots is owned as before if no remaining child changed its parent.
  lemma OwnedLess(P: Pages, Q: Pages, up: seq<int>, lo: seq<int>)
    requires Linked(Flat(Q, up), lo) && Owned(P, up)
    requires forall k :: 0 <= k < |up| ==> Within(SlotsOf(Q, up[k]), SlotsOf(P, up[k]))
    requires forall y :: y in lo ==> Par(Q, y) == Par(P, y)
    ensures Owned(Q, up)
  {
    forall k, i | 0 <= k < |up| && 0 <= i < |SlotsOf(Q, up[k])| ensures Par(Q, SlotsOf(Q, up[k])[i].rid.pageNo) == up[k] {
      ChildAt(Q, up, lo, k, i);
      assert Within(SlotsOf(Q, up[k]), SlotsOf(P, up[k]));
      var s :| 0 <= s < |SlotsOf(P, up[k])| && SlotsOf(P, up[k])[s] == SlotsOf(Q, up[k])[i];
      assert Par(P, SlotsOf(P, up[k])[s].rid.pageNo) == up[k];
    }
  }

  lemma RemovedLinked(F: seq<Slot>, lo: seq<int>, g: nat)
    requires Linked(F, lo) && g < |lo|
    ensures Linked(RemoveSlot(F, g), Without(lo, g))
  {
  }

  lemma RemovedFirsts(P: Pages, Q: Pages, F: seq<Slot>, lo: seq<int>, j: nat)
    requires FirstsMatch(P, F, lo, -1) && j + 1 < |lo| && SlotsOf(Q, lo[j]) != []
    requires forall k :: 0 <= k < |lo| && k != j && k != j + 1 ==> SlotsOf(Q, lo[k]) == SlotsOf(P, lo[k])
    ensures FirstsMatch(Q, RemoveSlot(F, j + 1), Without(lo, j + 1), j)
  {
    var G, rest := RemoveSlot(F, j + 1), Without(lo, j + 1);
    forall k | 0 <= k < |rest|
      ensures SlotsOf(Q, rest[k]) != [] && (k != j ==> G[k].key == SlotsOf(Q, rest[k])[0].key)
    {
      var b := if k > j then k + 1 else k;
      assert rest[k] == lo[b] && G[k] == F[b];
    }
  }

  lemma RemovedWithin(s: seq<Slot>, g: nat)
    requires g < |s|
    ensures Within(RemoveSlot(s, g), s)
  {
    var r := RemoveSlot(s, g);
    forall k | 0 <= k < |r| ensures r[k] in s {
      assert r[k] == s[if k >= g then k + 1 else k];
    }
  }

  lemma MergeOwnedHere(P: Pages, Q: Pages, lv: seq<seq<int>>, order: nat, h: nat, j: nat, q: nat, i: nat)
    requires Nodes(P, lv, order) && Links(P, lv, -1, true) && MergeAt(P, Q, lv, order, h, j, q, i)
    requires Owned(P, lv[h + 1]) && Linked(Flat(Q, lv[h + 1]), Without(lv[h], j + 1))
    ensures Owned(Q, lv[h + 1])
  {
    var up, lo, rest := lv[h + 1], lv[h], Without(lv[h], j + 1);
    MergePar(P, Q, lv, order, h, j, q, i, h);
    forall y | y in rest ensures Par(Q, y) == Par(P, y) {
      var k :| 0 <= k < |rest| && rest[k] == y;
      assert rest[k] == lo[if k > j then k + 1 else k];
    }
    MergeSlots(P, Q, lv, order, h, j, q, i, h + 1);
    RemovedWithin(SlotsOf(P, up[q]), i + 1);
    OwnedLess(P, Q, up, rest);
  }

  lemma MergeLinkHere(P: Pages, Q: Pages, lv: seq<seq<int>>, order: nat, h: nat, j: nat, q: nat, i: nat)
    requires Nodes(P, lv, order) && Links(P, lv, -1, true) && MergeAt(P, Q, lv, order, h, j, q, i)
    ensures UpLink(Q, lv[h + 1], Without(lv[h], j + 1), h == 0, j)
  {
    var up, lo := lv[h + 1], lv[h];
    assert LinkAt(P, lv, h, true);
    MergeFlat(P, Q, lv, order, h, j, q, i);
    RemovedLinked(Flat(P, up), lo, j + 1);
    if h > 0 {
      MergeSlots(P, Q, lv, order, h, j, q, i, h);
      RemovedFirsts(P, Q, Flat(P, up), lo, j);
    }
    MergeOwnedHere(P, Q, lv, order, h, j, q, i);
  }

  lemma MergeLinkAbove(P: Pages, Q: Pages, lv: seq<seq<int>>, order: nat, h: nat, j: nat, q: nat, i: nat, x: nat)
    requires Nodes(P, lv, order) && Links(P, lv, -1, true) && MergeAt(P, Q, lv, order, h, j, q, i)
    requires h < x < |lv| - 1
    ensures UpLink(Q, lv[x + 1], lv[x], false, -1)
    ensures Flat(Q, lv[x + 1]) == Flat(P, lv[x + 1])
  {
    assert LinkAt(P, lv, x, true);
    MergeSlots(P, Q, lv, order, h, j, q, i, x);
    MergeSlots(P, Q, lv, order, h, j, q, i, x + 1);
    MergePar(P, Q, lv, order, h, j, q, i, x);
    FlatFrame(P, Q, lv[x + 1]);
    OwnedFrame(P, Q, lv[x + 1], lv[x]);
  }

  lemma MergeUpLinks(P: Pages, Q: Pages, lv: seq<seq<int>>, order: nat, h: nat, j: nat, q: nat, i: nat)
    requires Nodes(P, lv, order) && Links(P, lv, -1, true) && MergeAt(P, Q, lv, order, h, j, q, i)
    ensures UpLinks(Q, WithoutPage(lv, h, j + 1), h, h, j)
  {
    var lw := WithoutPage(lv, h, j + 1);
    forall x | h <= x && 0 <= x < |lw| - 1 ensures UpLinkAt(Q, lw, x, h, j) {
      if x == h {
        MergeLinkHere(P, Q, lv, order, h, j, q, i);
      } else {
        MergeLinkAbove(P, Q, lv, order, h, j, q, i, x);
      }
    }
  }

  // The children of a, old and joined, name it; the other pages of the level keep theirs.
  lemma OwnedJoined(P: Pages, Q: Pages, up: seq<int>, lo: seq<int>, j: nat)
    requires j + 1 < |up| && Linked(Flat(Q, Without(up, j + 1)), lo) && Owned(P, up)
    requires forall a, b :: 0 <= a < b < |lo| ==> lo[a] != lo[b]
    requires forall k :: 0 <= k < |up| && k != j && k != j + 1 ==> SlotsOf(Q, up[k]) == SlotsOf(P, up[k])
    requires forall i :: 0 <= i < |SlotsOf(Q, up[j])| ==> Par(Q, SlotsOf(Q, up[j])[i].rid.pageNo) == up[j]
    requires forall y :: y in lo ==>
      Par(Q, y) == Par(P, y) || exists i :: 0 <= i < |SlotsOf(Q, up[j])| && SlotsOf(Q, up[j])[i].rid.pageNo == y
    ensures Owned(Q, Without(up, j + 1))
  {
    var rest := Without(up, j + 1);
    assert Owned(P, rest) by {
      forall k, i | 0 <= k < |rest| && 0 <= i < |SlotsOf(P, rest[k])| ensures Par(P, SlotsOf(P, rest[k])[i].rid.pageNo) == rest[k] {
        assert rest[k] == up[if k > j then k + 1 else k];
      }
    }
    forall k, i | 0 <= k < |rest| && k != j && 0 <= i < |SlotsOf(Q, rest[k])| ensures SlotsOf(Q, rest[k])[i] in SlotsOf(P, rest[k]) {
      assert rest[k] == up[if k > j then k + 1 else k];
    }
    OwnedShift(P, Q, rest, lo, j);
  }

  lemma MergeLinkUnder(P: Pages, Q: Pages, lv: seq<seq<int>>, order: nat, h: nat, j: nat, q: nat, i: nat)
    requires Nodes(P, lv, order) && Links(P, lv, -1, true) && MergeAt(P, Q, lv, order, h, j, q, i) && h > 0
    ensures Link(Q, Without(lv[h], j + 1), lv[h - 1], h - 1 == 0, true)
  {
    var up, lo := lv[h], lv[h - 1];
    assert LinkAt(P, lv, h - 1, true);
    assert GoodPage(P, lv[h][j], false, order);
    MergeFlat(P, Q, lv, order, h, j, q, i);
    MergeSlots(P, Q, lv, order, h, j, q, i, h);
    MergeSlots(P, Q, lv, order, h, j, q, i, h - 1);
    forall y | y in lo
      ensures Par(Q, y) == Par(P, y) || exists s :: 0 <= s < |SlotsOf(Q, up[j])| && SlotsOf(Q, up[j])[s].rid.pageNo == y
    {
      var k :| 0 <= k < |lo| && lo[k] == y;
      assert GoodPage(P, lv[h - 1][k], h - 1 == 0, order);
    }
    OwnedJoined(P, Q, up, lo, j);
    if h == 1 {
      BoundedFrame(P, Q, Flat(P, up), lo, true);
    }
  }

  lemma MergeLinkBelow(P: Pages, Q: Pages, lv: seq<seq<int>>, order: nat, h: nat, j: nat, q: nat, i: nat, x: nat)
    requires Nodes(P, lv, order) && Links(P, lv, -1, true) && MergeAt(P, Q, lv, order, h, j, q, i) && x + 1 < h
    ensures Link(Q, lv[x + 1], lv[x], x == 0, true)
  {
    assert LinkAt(P, lv, x, true);
    MergeSlots(P, Q, lv, order, h, j, q, i, x);
    MergeSlots(P, Q, lv, order, h, j, q, i, x + 1);
    MergePar(P, Q, lv, order, h, j, q, i, x);
    LinkFrame(P, Q, lv[x + 1], lv[x], x == 0, true);
  }

  // The leaves after a merge and the correction of the separator of the left one.
  lemma MergedBounded(P: Pages, Q: Pages, F: seq<Slot>, lo: seq<int>, j: nat)
    requires Bounded(P, F, lo, true) && j + 1 < |lo|
    requires Sorted(SlotsOf(P, lo[j])) && Sorted(SlotsOf(P, lo[j + 1]))
    requires SlotsOf(Q, lo[j]) == SlotsOf(P, lo[j]) + SlotsOf(P, lo[j + 1]) && SlotsOf(Q, lo[j]) != []
    requires forall k :: 0 <= k < |lo| && k != j && k != j + 1 ==> SlotsOf(Q, lo[k]) == SlotsOf(P, lo[k])
    ensures Bounded(Q, Rekey(RemoveSlot(F, j + 1), j, SlotsOf(Q, lo[j])[0].key), Without(lo, j + 1), true)
    ensures Sorted(SlotsOf(Q, lo[j]))
  {
    var s := SlotsOf(Q, lo[j]);
    var G, rest := Rekey(RemoveSlot(F, j + 1), j, s[0].key), Without(lo, j + 1);
    JoinedBounds(P, F, lo, j);
    forall a, b | 0 <= a < b < |G| ensures G[a].key < G[b].key {
      var a', b' := if a > j then a + 1 else a, if b > j then b + 1 else b;
      assert G[a].key == (if a == j then s[0].key else F[a'].key);
      assert G[b].key == (if b == j then s[0].key else F[b'].key);
      assert j + 2 < |F| ==> s[0].key < F[j + 2].key;
    }
    forall k | 0 <= k < |rest| ensures LeafBounded(Q, G, rest, k, true) {
      MergedLeaf(P, Q, F, lo, j, k);
    }
  }

  lemma MergedLeaf(P: Pages, Q: Pages, F: seq<Slot>, lo: seq<int>, j: nat, k: nat)
    requires Bounded(P, F, lo, true) && j + 1 < |lo| && k + 1 < |lo|
    requires Sorted(SlotsOf(P, lo[j])) && Sorted(SlotsOf(P, lo[j + 1]))
    requires SlotsOf(Q, lo[j]) == SlotsOf(P, lo[j]) + SlotsOf(P, lo[j + 1]) && SlotsOf(Q, lo[j]) != []
    requires forall k :: 0 <= k < |lo| && k != j && k != j + 1 ==> SlotsOf(Q, lo[k]) == SlotsOf(P, lo[k])
    ensures LeafBounded(Q, Rekey(RemoveSlot(F, j + 1), j, SlotsOf(Q, lo[j])[0].key), Without(lo, j + 1), k, true)
  {
    var s := SlotsOf(Q, lo[j]);
    var G, rest := Rekey(RemoveSlot(F, j + 1), j, s[0].key), Without(lo, j + 1);
    JoinedBounds(P, F, lo, j);
    var b := if k > j then k + 1 else k;
    assert rest[k] == lo[b];
    assert k != j ==> G[k] == F[b];
    assert k + 1 < |rest| ==> G[k + 1].key == if k + 1 == j then s[0].key else F[b + (if k == j then 2 else 1)].key;
    assert LeafBounded(P, F, lo, b, true);
    assert k + 1 == j ==> F[j].key <= s[0].key;
  }

  // ---- the merge and the correction of the separator together

  /** The whole course of a merge: b is merged into a (P1), then the separator of a is corrected (P2). */
  ghost predicate MergedUp(P: Pages, P1: Pages, P2: Pages, lv: seq<seq<int>>, order: nat, h: nat, j: nat, q: nat, i: nat) {
    && MergeAt(P, P1, lv, order, h, j, q, i)
    && var lw := WithoutPage(lv, h, j + 1);
    && KeysAbove(P1, P2, lw, h)
    && UpLinks(P2, lw, h, -1, -1)
    && j < |Flat(P1, lw[h + 1])|
    && Flat(P2, lw[h + 1]) == Rekey(Flat(P1, lw[h + 1]), j, SlotsOf(P1, lv[h][j])[0].key)
  }

  lemma MergedLow(P: Pages, P1: Pages, P2: Pages, lv: seq<seq<int>>, lw: seq<seq<int>>, order: nat, h: nat, j: nat, q: nat, i: nat)
    requires Nodes(P, lv, order) && MergedUp(P, P1, P2, lv, order, h, j, q, i) && lw == WithoutPage(lv, h, j + 1)
    ensures Nodes(P1, lw, order) && Nodes(P2, lw, order)
    ensures forall g, k :: 0 <= g < |lw| && g <= h && 0 <= k < |lw[g]| ==> P2[lw[g][k]] == P1[lw[g][k]]
  {
    MergeNodes(P, P1, lv, order, h, j, q, i);
    KeysAboveNodes(P1, P2, lw, order, h);
  }

  lemma MergeLinkLow(P: Pages, Q: Pages, lv: seq<seq<int>>, lw: seq<seq<int>>, order: nat, h: nat, j: nat, q: nat, i: nat, x: nat)
    requires Nodes(P, lv, order) && Links(P, lv, -1, true) && MergeAt(P, Q, lv, order, h, j, q, i)
    requires x < h && lw == WithoutPage(lv, h, j + 1)
    ensures Link(Q, lw[x + 1], lw[x], x == 0, true)
  {
    if x + 1 == h {
      MergeLinkUnder(P, Q, lv, order, h, j, q, i);
    } else {
      MergeLinkBelow(P, Q, lv, order, h, j, q, i, x);
    }
  }

  lemma MergedLinkLow(P: Pages, P1: Pages, P2: Pages, lv: seq<seq<int>>, lw: seq<seq<int>>, order: nat, h: nat, j: nat, q: nat, i: nat, x: nat)
    requires Nodes(P, lv, order) && Links(P, lv, -1, true) && MergedUp(P, P1, P2, lv, order, h, j, q, i)
    requires x < h && lw == WithoutPage(lv, h, j + 1)
    ensures Link(P2, lw[x + 1], lw[x], x == 0, true)
  {
    MergeLinkLow(P, P1, lv, lw, order, h, j, q, i, x);
    MergedLow(P, P1, P2, lv, lw, order, h, j, q, i);
    LinkFrame(P1, P2, lw[x + 1], lw[x], x == 0, true);
  }

  lemma MergedLink(P: Pages, P1: Pages, P2: Pages, lv: seq<seq<int>>, lw: seq<seq<int>>, order: nat, h: nat, j: nat, q: nat, i: nat, x: nat)
    requires Nodes(P, lv, order) && Links(P, lv, -1, true) && MergedUp(P, P1, P2, lv, order, h, j, q, i)
    requires LeavesSorted(P, lv[0]) && x < |lv| - 1 && lw == WithoutPage(lv, h, j + 1)
    ensures Link(P2, lw[x + 1], lw[x], x == 0, true)
  {
    if x < h {
      MergedLinkLow(P, P1, P2, lv, lw, order, h, j, q, i, x);
    } else {
      assert UpLinkAt(P2, lw, x, -1, -1);
      if x == 0 {
        MergedLeafLink(P, P1, P2, lv, order, j, q, i);
      }
    }
  }

  lemma MergedLeafSlots(P: Pages, P1: Pages, P2: Pages, lv: seq<seq<int>>, order: nat, j: nat, q: nat, i: nat)
    requires Nodes(P, lv, order) && MergedUp(P, P1, P2, lv, order, 0, j, q, i)
    ensures forall k :: 0 <= k < |lv[0]| && k != j + 1 ==>
      SlotsOf(P2, lv[0][k]) == if k == j then SlotsOf(P, lv[0][j]) + SlotsOf(P, lv[0][j + 1]) else SlotsOf(P, lv[0][k])
    ensures SlotsOf(P2, lv[0][j]) == SlotsOf(P1, lv[0][j])
  {
    var lw := WithoutPage(lv, 0, j + 1);
    MergedLow(P, P1, P2, lv, lw, order, 0, j, q, i);
    MergeSlots(P, P1, lv, order, 0, j, q, i, 0);
    forall k | 0 <= k < |lv[0]| && k != j + 1 ensures SlotsOf(P2, lv[0][k]) == SlotsOf(P1, lv[0][k]) {
      assert lw[0][if k > j then k - 1 else k] == lv[0][k];
    }
  }

  lemma MergedLeafLink(P: Pages, P1: Pages, P2: Pages, lv: seq<seq<int>>, order: nat, j: nat, q: nat, i: nat)
    requires Nodes(P, lv, order) && Links(P, lv, -1, true) && MergedUp(P, P1, P2, lv, order, 0, j, q, i)
    requires LeavesSorted(P, lv[0])
    ensures Bounded(P2, Flat(P2, lv[1]), Without(lv[0], j + 1), true)
    ensures Sorted(SlotsOf(P2, lv[0][j]))
  {
    assert LinkAt(P, lv, 0, true);
    MergeFlat(P, P1, lv, order, 0, j, q, i);
    MergedLeafSlots(P, P1, P2, lv, order, j, q, i);
    MergedBounded(P, P2, Flat(P, lv[1]), lv[0], j);
  }

  lemma MergedLinks(P: Pages, P1: Pages, P2: Pages, lv: seq<seq<int>>, order: nat, h: nat, j: nat, q: nat, i: nat)
    requires Nodes(P, lv, order) && Links(P, lv, -1, true) && MergedUp(P, P1, P2, lv, order, h, j, q, i)
    requires LeavesSorted(P, lv[0])
    ensures Links(P2, WithoutPage(lv, h, j + 1), -1, true)
  {
    var lw := WithoutPage(lv, h, j + 1);
    forall x | 0 <= x < |lw| - 1 ensures LinkAt(P2, lw, x, true) {
      MergedLink(P, P1, P2, lv, lw, order, h, j, q, i, x);
    }
  }

  lemma MergedLeaves(P: Pages, P1: Pages, P2: Pages, lv: seq<seq<int>>, order: nat, h: nat, j: nat, q: nat, i: nat)
    requires Nodes(P, lv, order) && Links(P, lv, -1, true) && MergedUp(P, P1, P2, lv, order, h, j, q, i)
    requires LeavesSorted(P, lv[0])
    ensures LeavesSorted(P2, WithoutPage(lv, h, j + 1)[0])
    ensures Flat(P2, WithoutPage(lv, h, j + 1)[0]) == Flat(P, lv[0])
  {
    hide Flat, KeysAbove, Links, Distinct;
    var lw := WithoutPage(lv, h, j + 1);
    MergedLow(P, P1, P2, lv, lw, order, h, j, q, i);
    FlatFrame(P1, P2, lw[0]);
    MergeSlots(P, P1, lv, order, h, j, q, i, 0);
    if h == 0 {
      MergeFlat(P, P1, lv, order, h, j, q, i);
      MergedLeafLink(P, P1, P2, lv, order, j, q, i);
      forall k | 0 <= k < |lw[0]| ensures Sorted(SlotsOf(P2, lw[0][k])) {
        assert lw[0][k] == lv[0][if k > j then k + 1 else k];
      }
    } else {
      FlatFrame(P, P1, lw[0]);
    }
  }

  // The ring without leaf j + 1.
  lemma UnlinkedChain(P: Pages, Q: Pages, lo: seq<int>, j: nat)
    requires Chain(P, lo) && j + 1 < |lo| && lo[j + 1] in P && Q.Keys == P.Keys && LeafUnlinked(P, Q, lo[j + 1])
    requires forall a, b :: 0 <= a < b < |lo| ==> lo[a] != lo[b]
    requires forall a :: 0 <= a < |lo| ==> lo[a] > IX_LEAF_HEADER_PAGE
    ensures Chain(Q, Without(lo, j + 1))
  {
    var rest := Without(lo, j + 1);
    assert ChainedAt(P, lo, j + 1);
    forall k | 0 <= k < |rest| ensures ChainedAt(Q, rest, k) {
      var b := if k > j then k + 1 else k;
      assert rest[k] == lo[b] && ChainedAt(P, lo, b);
    }
  }

  lemma MergedChain(P: Pages, P1: Pages, P2: Pages, lv: seq<seq<int>>, order: nat, h: nat, j: nat, q: nat, i: nat)
    requires Nodes(P, lv, order) && MergedUp(P, P1, P2, lv, order, h, j, q, i) && Chain(P, lv[0])
    ensures Chain(P2, WithoutPage(lv, h, j + 1)[0])
  {
    var lw := WithoutPage(lv, h, j + 1);
    assert GoodPage(P, lv[h][j], h == 0, order);
    forall a | 0 <= a < |lv[0]| ensures lv[0][a] in P && lv[0][a] > IX_LEAF_HEADER_PAGE {
      assert GoodPage(P, lv[0][a], true, order);
    }
    if h == 0 {
      UnlinkedChain(P, P1, lv[0], j);
    } else {
      ChainFrame(P, P1, lv[0]);
    }
    forall y | y in P1 ensures SameRing(P1, P2, y) {
      assert SameButKeys(P1[y], P2[y]);
    }
    assert forall k :: 0 <= k < |lw[0]| ==> ChainedAt(P1, lw[0], k);
    ChainFrame(P1, P2, lw[0]);
  }

  lemma MergedSize(P: Pages, P1: Pages, P2: Pages, lv: seq<seq<int>>, order: nat, h: nat, j: nat, q: nat, i: nat, ex: int, g: nat, k: nat)
    requires Nodes(P, lv, order) && MergedUp(P, P1, P2, lv, order, h, j, q, i)
    requires Sizes(P, lv, order, ex) && (ex == lv[h][j] || ex == lv[h][j + 1])
    requires g < |lv| && k < |lv[g]| && lv[g][k] != lv[h][j + 1] && lv[g][k] != lv[h + 1][q]
    ensures lv[g][k] in P2
    ensures SizeOK(P2[lv[g][k]], IsTop(lv, g), order)
  {
    assert GoodPage(P, lv[g][k], g == 0, order);
    assert SameButKeys(P1[lv[g][k]], P2[lv[g][k]]);
    assert lv[g][k] == lv[h][j] ==> g == h;
  }

  lemma MergedSizes(P: Pages, P1: Pages, P2: Pages, lv: seq<seq<int>>, order: nat, h: nat, j: nat, q: nat, i: nat, ex: int)
    requires Nodes(P, lv, order) && MergedUp(P, P1, P2, lv, order, h, j, q, i)
    requires Sizes(P, lv, order, ex) && (ex == lv[h][j] || ex == lv[h][j + 1]) && |lv[|lv| - 1]| == 1
    ensures Sizes(P2, WithoutPage(lv, h, j + 1), order, lv[h + 1][q])
  {
    var lw := WithoutPage(lv, h, j + 1);
    forall g, k | 0 <= g < |lw| && 0 <= k < |lw[g]| && lw[g][k] != lv[h + 1][q]
      ensures lw[g][k] in P2 && SizeOK(P2[lw[g][k]], IsTop(lw, g), order)
    {
      var b := if g == h && k > j then k + 1 else k;
      assert lw[g][k] == lv[g][b];
      assert lv[g][b] != lv[h][j + 1];
      MergedSize(P, P1, P2, lv, order, h, j, q, i, ex, g, b);
    }
  }

  /** A merge mends the pages merged and moves no pair out of key order; the parent may have become too small. */
  lemma MergedTree(P: Pages, P1: Pages, P2: Pages, lv: seq<seq<int>>, root: int, order: nat, h: nat, j: nat, q: nat, i: nat, ex: int)
    requires MergedUp(P, P1, P2, lv, order, h, j, q, i)
    requires TreeBut(P, lv, root, order, ex, true) && (ex == lv[h][j] || ex == lv[h][j + 1])
    ensures TreeBut(P2, WithoutPage(lv, h, j + 1), root, order, lv[h + 1][q], true)
    ensures Flat(P2, WithoutPage(lv, h, j + 1)[0]) == Flat(P, lv[0])
  {
    MergedLow(P, P1, P2, lv, WithoutPage(lv, h, j + 1), order, h, j, q, i);
    MergedLinks(P, P1, P2, lv, order, h, j, q, i);
    MergedLeaves(P, P1, P2, lv, order, h, j, q, i);
    MergedChain(P, P1, P2, lv, order, h, j, q, i);
    MergedSizes(P, P1, P2, lv, order, h, j, q, i, ex);
    MergedRoot(P, P1, P2, lv, root, order, h, j, q, i);
  }

  lemma MergedRoot(P: Pages, P1: Pages, P2: Pages, lv: seq<seq<int>>, root: int, order: nat, h: nat, j: nat, q: nat, i: nat)
    requires Nodes(P, lv, order) && Links(P, lv, -1, true) && MergedUp(P, P1, P2, lv, order, h, j, q, i)
    requires Rooted(P, lv, root)
    ensures Rooted(P2, WithoutPage(lv, h, j + 1), root)
  {
    hide Rekey, SlotsOf;
    var top := |lv| - 1;
    MergePar(P, P1, lv, order, h, j, q, i, top);
    assert lv[top][0] == root;
    assert GoodPage(P, lv[top][0], top == 0, order);
    assert SameButKeys(P1[root], P2[root]);
  }

  // ---- the root

  // Page c, the only child of the root, becomes the root.
  ghost predicate Collapsed(P: Pages, Q: Pages, lv: seq<seq<int>>, root: int, c: int) {
    |lv| > 1 && |SlotsOf(P, root)| == 1 && SlotsOf(P, root)[0].rid.pageNo == c && c in P && Q == P[c := P[c].(parent := IX_NO_PAGE)]
  }

  lemma CollapsedTop(P: Pages, lv: seq<seq<int>>, root: int, c: int)
    requires |lv| > 1 && Links(P, lv, -1, true) && Rooted(P, lv, root)
    requires |SlotsOf(P, root)| == 1 && SlotsOf(P, root)[0].rid.pageNo == c
    ensures lv[|lv| - 2] == [c]
  {
    var top := |lv| - 1;
    assert LinkAt(P, lv, top - 1, true);
    FlatOne(P, root);
    assert lv[top - 1] == [c];
  }

  lemma CollapsedLinks(P: Pages, Q: Pages, lv: seq<seq<int>>, root: int, c: int)
    requires Distinct(lv) && Links(P, lv, -1, true) && Rooted(P, lv, root) && Collapsed(P, Q, lv, root, c)
    ensures Links(Q, lv[..|lv| - 1], -1, true)
  {
    var top, lw := |lv| - 1, lv[..|lv| - 1];
    CollapsedTop(P, lv, root, c);
    forall x | 0 <= x < |lw| - 1 ensures LinkAt(Q, lw, x, true) {
      assert LinkAt(P, lv, x, true);
      ElsewhereNot(lv, top - 1, 0, x);
      LinkFrame(P, Q, lv[x + 1], lv[x], x == 0, true);
    }
  }

  lemma CollapsedNodes(P: Pages, Q: Pages, lv: seq<seq<int>>, root: int, order: nat, c: int)
    requires order >= 3 && Nodes(P, lv, order) && Sizes(P, lv, order, root) && Rooted(P, lv, root)
    requires Collapsed(P, Q, lv, root, c)
    ensures Nodes(Q, lv[..|lv| - 1], order)
    ensures Sizes(Q, lv[..|lv| - 1], order, -1)
  {
    var top, lw := |lv| - 1, lv[..|lv| - 1];
    forall g, k | 0 <= g < |lw| && 0 <= k < |lw[g]|
      ensures GoodPage(Q, lw[g][k], g == 0, order)
      ensures SizeOK(Q[lw[g][k]], IsTop(lw, g), order)
    {
      assert GoodPage(P, lv[g][k], g == 0, order);
      assert lv[top][0] == root && lv[g][k] != root;
      assert SizeOK(P[lv[g][k]], IsTop(lv, g), order);
    }
  }

  /** An inner root with a single child hands the root over to it. */
  lemma CollapseRoot(P: Pages, Q: Pages, lv: seq<seq<int>>, root: int, order: nat, c: int)
    requires TreeBut(P, lv, root, order, root, true) && Collapsed(P, Q, lv, root, c)
    ensures Tree(Q, lv[..|lv| - 1], c, order)
    ensures Flat(Q, lv[0]) == Flat(P, lv[0])
  {
    CollapsedTop(P, lv, root, c);
    CollapsedLinks(P, Q, lv, root, c);
    CollapsedNodes(P, Q, lv, root, order, c);
    forall k | 0 <= k < |lv[0]| ensures lv[0][k] in P {
      assert GoodPage(P, lv[0][k], true, order);
    }
    ChainFrame(P, Q, lv[0]);
    FlatFrame(P, Q, lv[0]);
  }
}
