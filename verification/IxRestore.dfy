/** What maintain_parent achieves when it is called on a leaf of a complete tree. */
module IxRestore {
  import opened IxNode
  import opened IxLevels
  import opened IxTree
  import opened IxMaintain
  import opened IxInsert
  import opened IxBorrow
  import opened IxClimb

  lemma UpLinksOf(P: Pages, lv: seq<seq<int>>, h: nat, k: nat, tight: bool)
    requires Links(P, lv, -1, tight)
    ensures UpLinks(P, lv, h, h, k)
  {
    forall x | h <= x && 0 <= x < |lv| - 1 ensures UpLinkAt(P, lv, x, h, k) {
      assert LinkAt(P, lv, x, tight);
    }
  }

  // The separator of leaf j becomes its first key.
  lemma RekeyedBounded(P: Pages, Q: Pages, F: seq<Slot>, lo: seq<int>, j: nat, tight: bool)
    requires Bounded(P, F, lo, tight) && j < |lo| && (tight || j == 0) && SlotsOf(P, lo[j]) != [] && Sorted(SlotsOf(P, lo[j]))
    requires forall k :: 0 <= k < |lo| ==> SlotsOf(Q, lo[k]) == SlotsOf(P, lo[k])
    ensures Bounded(Q, Rekey(F, j, SlotsOf(P, lo[j])[0].key), lo, true)
  {
    var key := SlotsOf(P, lo[j])[0].key;
    var G := Rekey(F, j, key);
    assert LeafBounded(P, F, lo, j, tight);
    forall a, b | 0 <= a < b < |G| ensures G[a].key < G[b].key {
      assert a == j ==> F[j + 1].key <= F[b].key;
    }
    forall k | 0 <= k < |lo| ensures LeafBounded(Q, G, lo, k, true) {
      assert LeafBounded(P, F, lo, k, tight);
    }
  }

  lemma MaintainedLinks(P: Pages, Q: Pages, lv: seq<seq<int>>, order: nat, j: nat, tight: bool)
    requires Nodes(P, lv, order) && Links(P, lv, -1, tight) && LeavesSorted(P, lv[0])
    requires Settled(P, Q, lv, 0, j) && (tight || j == 0)
    ensures Links(Q, lv, -1, true)
  {
    KeysAboveNodes(P, Q, lv, order, 0);
    forall x | 0 <= x < |lv| - 1 ensures LinkAt(Q, lv, x, true) {
      assert LinkAt(P, lv, x, tight);
      assert UpLinkAt(Q, lv, x, -1, -1);
      if x == 0 {
        RekeyedBounded(P, Q, Flat(P, lv[1]), lv[0], j, tight);
      }
    }
  }

  lemma MaintainedSizes(P: Pages, Q: Pages, lv: seq<seq<int>>, order: nat, j: nat)
    requires Nodes(P, lv, order) && Sizes(P, lv, order, -1) && Settled(P, Q, lv, 0, j)
    ensures Nodes(Q, lv, order) && Sizes(Q, lv, order, -1)
  {
    KeysAboveNodes(P, Q, lv, order, 0);
    forall g, k | 0 <= g < |lv| && 0 <= k < |lv[g]|
      ensures lv[g][k] in Q && SizeOK(Q[lv[g][k]], IsTop(lv, g), order)
    {
      assert GoodPage(P, lv[g][k], g == 0, order);
      assert SameButKeys(P[lv[g][k]], Q[lv[g][k]]);
    }
  }

  lemma MaintainedChain(P: Pages, Q: Pages, lv: seq<seq<int>>, j: nat)
    requires Settled(P, Q, lv, 0, j) && Chain(P, lv[0])
    ensures Chain(Q, lv[0])
  {
    forall y | y in P ensures SameRing(P, Q, y) {
      assert SameButKeys(P[y], Q[y]);
    }
    forall k | 0 <= k < |lv[0]| ensures lv[0][k] in P {
      assert ChainedAt(P, lv[0], k);
    }
    ChainFrame(P, Q, lv[0]);
  }

  /** maintain_parent on a leaf leaves a tree with exact separators on the way up. */
  lemma MaintainedTree(P: Pages, Q: Pages, lv: seq<seq<int>>, root: int, order: nat, j: nat, tight: bool)
    requires TreeBut(P, lv, root, order, -1, tight) && Settled(P, Q, lv, 0, j) && (tight || j == 0)
    ensures Tree(Q, lv, root, order)
    ensures Flat(Q, lv[0]) == Flat(P, lv[0])
  {
    MaintainedLinks(P, Q, lv, order, j, tight);
    MaintainedSizes(P, Q, lv, order, j);
    MaintainedChain(P, Q, lv, j);
    KeysAboveNodes(P, Q, lv, order, 0);
    FlatFrame(P, Q, lv[0]);
    var top := |lv| - 1;
    assert lv[top][0] == root;
    assert GoodPage(P, lv[top][0], top == 0, order);
    assert SameButKeys(P[root], Q[root]);
  }
}
