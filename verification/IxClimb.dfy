/** The walk of maintain_parent, round by round. */
module IxClimb {
  import opened IxNode
  import opened IxLevels
  import opened IxTree
  import opened IxMaintain
  import opened IxInsert
  import opened IxOps

  /** What maintain_parent achieves: above level h everything is linked again, and of the separators of
      level h only that of node j is new. */
  ghost predicate Settled(P: Pages, Q: Pages, lv: seq<seq<int>>, h: nat, j: nat) {
    && h < |lv| && j < |lv[h]| && SlotsOf(P, lv[h][j]) != []
    && KeysAbove(P, Q, lv, h)
    && UpLinks(Q, lv, h, -1, -1)
    && (h + 1 < |lv| ==>
          j < |Flat(P, lv[h + 1])| && Flat(Q, lv[h + 1]) == Rekey(Flat(P, lv[h + 1]), j, SlotsOf(P, lv[h][j])[0].key))
  }

  // maintain_parent on its way, at node k of level g.
  ghost predicate Climbing(P: Pages, Q: Pages, lv: seq<seq<int>>, order: nat, root: int, h: nat, g: nat, k: nat, j: nat) {
    && h <= g < |lv| && k < |lv[g]| && j < |lv[h]| && SlotsOf(P, lv[h][j]) != []
    && Nodes(Q, lv, order) && Rooted(Q, lv, root) && UpLinks(Q, lv, h, g, k)
    && SlotsOf(Q, lv[g][k]) != [] && KeysAbove(P, Q, lv, h)
    && Rekeyed(P, Q, lv, h, g, j) && (g == h ==> k == j)
  }

  lemma ClimbStart(P: Pages, lv: seq<seq<int>>, order: nat, root: int, h: nat, j: nat)
    requires h < |lv| && j < |lv[h]| && SlotsOf(P, lv[h][j]) != []
    requires Nodes(P, lv, order) && UpLinks(P, lv, h, h, j) && Rooted(P, lv, root)
    ensures Climbing(P, P, lv, order, root, h, h, j, j)
  {
    if h + 1 < |lv| {
      assert UpLinkAt(P, lv, h, h, j);
    }
    assert GoodPage(P, lv[h][j], h == 0, order);
  }

  lemma ClimbRound(P: Pages, B: Pages, Q: Pages, lv: seq<seq<int>>, order: nat, root: int, h: nat, g: nat, k: nat, q: nat, i: nat, j: nat)
    requires Climbing(P, B, lv, order, root, h, g, k, j)
    requires g + 1 < |lv| && q < |lv[g + 1]| && lv[g + 1][q] in B && i < |B[lv[g + 1][q]].slots|
    requires k == Offset(B, lv[g + 1], q) + i && k < |Flat(B, lv[g + 1])|
    requires Q == B[lv[g + 1][q] := SetKey(B[lv[g + 1][q]], i, SlotsOf(B, lv[g][k])[0].key)]
    ensures Climbing(P, Q, lv, order, root, h, g + 1, q, j)
  {
    hide Flat;
    MaintainRound(B, Q, lv, h, g, k, q, i);
    KeysAboveRound(P, B, Q, lv, order, root, h, g + 1, q, i, SlotsOf(B, lv[g][k])[0].key);
    RekeyedRound(P, B, Q, lv, h, g, k, q, i, j);
  }

  // The separator turns out to be right already.
  lemma ClimbStop(P: Pages, Q: Pages, lv: seq<seq<int>>, order: nat, root: int, h: nat, g: nat, k: nat, j: nat)
    requires Climbing(P, Q, lv, order, root, h, g, k, j)
    requires g + 1 < |lv| && k < |Flat(Q, lv[g + 1])| && Flat(Q, lv[g + 1])[k].key == SlotsOf(Q, lv[g][k])[0].key
    ensures Settled(P, Q, lv, h, j)
  {
    MaintainStop(Q, lv, h, g, k);
  }

  lemma ClimbTop(P: Pages, Q: Pages, lv: seq<seq<int>>, order: nat, root: int, h: nat, g: nat, k: nat, j: nat)
    requires Climbing(P, Q, lv, order, root, h, g, k, j) && Par(Q, lv[g][k]) == IX_NO_PAGE
    ensures Settled(P, Q, lv, h, j)
  {
    AtTop(Q, lv, order, h, g, k);
    MaintainTop(Q, lv, h, g, k);
  }

  // How far maintain_parent has come: the separator of node j of level h is right once the walk has left level h.
  ghost predicate Rekeyed(P: Pages, Q: Pages, lv: seq<seq<int>>, h: nat, g: nat, j: nat)
    requires h < |lv| && j < |lv[h]|
  {
    && (h + 1 < |lv| ==> j < |Flat(P, lv[h + 1])|)
    && (g == h ==> Q == P)
    && (g > h && h + 1 < |lv| ==>
          SlotsOf(P, lv[h][j]) != [] && Flat(Q, lv[h + 1]) == Rekey(Flat(P, lv[h + 1]), j, SlotsOf(P, lv[h][j])[0].key))
  }

  // The place of the parent of a page that is not the root.
  lemma ParentPlace(P: Pages, lv: seq<seq<int>>, order: nat, root: int, h: nat, g: nat, k: nat) returns (q: nat, i: nat)
    requires Nodes(P, lv, order) && UpLinks(P, lv, h, g, k) && Rooted(P, lv, root)
    requires h <= g < |lv| && k < |lv[g]| && Par(P, lv[g][k]) != IX_NO_PAGE
    ensures g + 1 < |lv| && q < |lv[g + 1]| && lv[g + 1][q] == Par(P, lv[g][k]) && lv[g + 1][q] in P
    ensures i < |P[lv[g + 1][q]].slots| && k == Offset(P, lv[g + 1], q) + i
    ensures P[lv[g + 1][q]].slots[i].rid.pageNo == lv[g][k]
    ensures k < |Flat(P, lv[g + 1])| && P[lv[g + 1][q]].slots[i] == Flat(P, lv[g + 1])[k]
  {
    assert lv[|lv| - 1][0] == root;
    assert UpLinkAt(P, lv, g, g, k);
    q, i := ParentOf(P, lv[g + 1], lv[g], k);
    assert GoodPage(P, lv[g + 1][q], false, order);
  }

  // find_child finds that very slot.
  lemma RankIs(P: Pages, lv: seq<seq<int>>, h: nat, g: nat, k: nat, q: nat, i: nat, rank: nat)
    requires Distinct(lv) && UpLinks(P, lv, h, g, k) && h <= g && g + 1 < |lv| && q < |lv[g + 1]|
    requires i < |SlotsOf(P, lv[g + 1][q])| && rank < |SlotsOf(P, lv[g + 1][q])|
    requires SlotsOf(P, lv[g + 1][q])[i].rid.pageNo == SlotsOf(P, lv[g + 1][q])[rank].rid.pageNo
    ensures rank == i
  {
    assert UpLinkAt(P, lv, g, g, k);
    ChildIndexUnique(P, lv[g + 1], lv[g], q, i, rank);
  }

  // Only the root has no parent.
  lemma AtTop(P: Pages, lv: seq<seq<int>>, order: nat, h: nat, g: nat, k: nat)
    requires Nodes(P, lv, order) && UpLinks(P, lv, h, g, k)
    requires h <= g < |lv| && k < |lv[g]| && Par(P, lv[g][k]) == IX_NO_PAGE
    ensures g == |lv| - 1
  {
    if g + 1 < |lv| {
      assert UpLinkAt(P, lv, g, g, k);
      var up := lv[g + 1];
      forall q | 0 <= q < |up| ensures up[q] != IX_NO_PAGE {
        assert GoodPage(P, lv[g + 1][q], false, order);
      }
      var q, i := ParentOf(P, up, lv[g], k);
    }
  }

  // One rewritten separator changes no more than keys above level h.
  lemma KeysAboveRound(P: Pages, B: Pages, Q: Pages, lv: seq<seq<int>>, order: nat, root: int, h: nat, g: nat, q: nat, i: nat, key: int)
    requires KeysAbove(P, B, lv, h) && Nodes(B, lv, order) && Rooted(B, lv, root)
    requires h < g < |lv| && q < |lv[g]| && lv[g][q] in B && i < |B[lv[g][q]].slots|
    requires Q == B[lv[g][q] := SetKey(B[lv[g][q]], i, key)]
    ensures KeysAbove(P, Q, lv, h) && Nodes(Q, lv, order) && Rooted(Q, lv, root)
  {
    assert GoodPage(B, lv[g][q], false, order);
    NodesUpdate(B, lv, order, lv[g][q], Q[lv[g][q]]);
    forall p | p in P ensures SameButKeys(P[p], Q[p]) {
      assert SameButKeys(P[p], B[p]);
    }
  }

  lemma RekeyedRound(P: Pages, B: Pages, Q: Pages, lv: seq<seq<int>>, h: nat, g: nat, k: nat, q: nat, i: nat, j: nat)
    requires Distinct(lv) && h <= g && g + 1 < |lv| && q < |lv[g + 1]| && k < |lv[g]|
    requires SlotsOf(B, lv[g][k]) != [] && (g == h ==> k == j)
    requires lv[g + 1][q] in B && i < |B[lv[g + 1][q]].slots|
    requires Q == B[lv[g + 1][q] := SetKey(B[lv[g + 1][q]], i, SlotsOf(B, lv[g][k])[0].key)]
    requires j < |lv[h]| && SlotsOf(P, lv[h][j]) != [] && Rekeyed(P, B, lv, h, g, j) && k < |Flat(B, lv[g + 1])|
    requires Flat(Q, lv[g + 1]) == Rekey(Flat(B, lv[g + 1]), k, SlotsOf(B, lv[g][k])[0].key)
    ensures Rekeyed(P, Q, lv, h, g + 1, j)
  {
    if g > h {
      ElsewhereNot(lv, g + 1, q, h + 1);
      FlatFrame(B, Q, lv[h + 1]);
    }
  }
}
