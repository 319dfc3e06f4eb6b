/** Places in the leaf ring and their ranks: the number of stored pairs before a place. */
module IxPositions {
  import opened IxNode
  import opened IxLevels
  import opened IxTree
  import opened IxOps
  import opened IxShrink

  datatype Iid = Iid(pageNo: int, slotNo: int)

  ghost function Rank(P: Pages, lo: seq<int>, j: nat, iid: Iid): int
    requires j < |lo|
  {
    Offset(P, lo, j) + iid.slotNo
  }

  // A slot of leaf j, or the place right behind its slots.
  ghost predicate OnLeaf(P: Pages, lo: seq<int>, j: nat, iid: Iid) {
    j < |lo| && lo[j] == iid.pageNo && 0 <= iid.slotNo <= |SlotsOf(P, lo[j])|
  }

  /** A place a scan can stand at: a slot, or the place behind all slots of the last leaf. */
  ghost predicate Proper(P: Pages, lo: seq<int>, j: nat, iid: Iid) {
    OnLeaf(P, lo, j, iid) && (j + 1 < |lo| ==> iid.slotNo < |SlotsOf(P, lo[j])|)
  }

  lemma RankBound(P: Pages, lo: seq<int>, j: nat, iid: Iid)
    requires OnLeaf(P, lo, j, iid)
    ensures 0 <= Rank(P, lo, j, iid) <= |Flat(P, lo)|
    ensures iid.slotNo < |SlotsOf(P, lo[j])| ==>
      Rank(P, lo, j, iid) < |Flat(P, lo)| && Flat(P, lo)[Rank(P, lo, j, iid)] == SlotsOf(P, lo[j])[iid.slotNo]
    ensures j + 1 == |lo| && iid.slotNo == |SlotsOf(P, lo[j])| ==> Rank(P, lo, j, iid) == |Flat(P, lo)|
  {
    FlatStretch(P, lo, j);
    if iid.slotNo < |SlotsOf(P, lo[j])| {
      FlatAt(P, lo, j, iid.slotNo);
    }
    assert lo[..|lo|] == lo;
  }

  /** Two proper places have the same rank only if they are the same. */
  lemma RankUnique(P: Pages, lo: seq<int>, j: nat, a: Iid, k: nat, b: Iid)
    requires Proper(P, lo, j, a) && Proper(P, lo, k, b)
    ensures Rank(P, lo, j, a) == Rank(P, lo, k, b) <==> a == b && j == k
  {
    RankBound(P, lo, j, a);
    RankBound(P, lo, k, b);
    if Rank(P, lo, j, a) == Rank(P, lo, k, b) && a.slotNo < |SlotsOf(P, lo[j])| {
      OffUnique(P, lo, j, a.slotNo, k, b.slotNo);
    }
  }

  /** One step of a scan. */
  lemma NextPlace(P: Pages, lv: seq<seq<int>>, root: int, order: nat, j: nat, iid: Iid)
    requires Tree(P, lv, root, order) && Proper(P, lv[0], j, iid) && iid.slotNo < |SlotsOf(P, lv[0][j])|
    ensures var last := j + 1 == |lv[0]|;
            var wrap := !last && iid.slotNo + 1 == |SlotsOf(P, lv[0][j])|;
            var k := if wrap then j + 1 else j;
            var next := if wrap then Iid(P[iid.pageNo].next, 0) else Iid(iid.pageNo, iid.slotNo + 1);
            && Proper(P, lv[0], k, next) && Rank(P, lv[0], k, next) == Rank(P, lv[0], j, iid) + 1
    ensures iid.pageNo in P && P[iid.pageNo].isLeaf
    ensures j + 1 == |lv[0]| <==> iid.pageNo == lv[0][|lv[0]| - 1]
  {
    assert GoodPage(P, lv[0][j], true, order);
    assert ChainedAt(P, lv[0], j);
    OffStep(P, lv[0], j);
    if j + 1 < |lv[0]| {
      RankBound(P, lv[0], j, iid);
      LeafFilled(P, lv, root, order, j + 1);
      assert lv[0][j] != lv[0][|lv[0]| - 1];
    }
  }

  lemma Ring(P: Pages, lv: seq<seq<int>>, root: int, order: nat)
    requires Tree(P, lv, root, order)
    ensures var k := |lv[0]| - 1; lv[0][k] in P && Proper(P, lv[0], k, Iid(lv[0][k], |P[lv[0][k]].slots|))
    ensures var k := |lv[0]| - 1; Rank(P, lv[0], k, Iid(lv[0][k], |P[lv[0][k]].slots|)) == |Flat(P, lv[0])|
    ensures Proper(P, lv[0], 0, Iid(lv[0][0], 0)) && Rank(P, lv[0], 0, Iid(lv[0][0], 0)) == 0
  {
    var k: nat := |lv[0]| - 1;
    LeafSize(P, lv, root, order, k);
    RankBound(P, lv[0], k, Iid(lv[0][k], |P[lv[0][k]].slots|));
    if k > 0 {
      LeafSize(P, lv, root, order, 0);
      TopIsRoot(P, lv, root);
      assert MinSize(order) >= 2;
      assert GoodPage(P, lv[0][0], true, order);
    }
    assert lv[0][..0] == [];
  }

  // A pair of leaf k compared with a key that leaf j covers.
  lemma BesideLeaf(P: Pages, F: seq<Slot>, lo: seq<int>, j: nat, key: int, k: nat, i: nat)
    requires Bounded(P, F, lo, true) && InSlot(F, j, key) && k < |lo| && i < |SlotsOf(P, lo[k])|
    ensures k < j ==> SlotsOf(P, lo[k])[i].key < key
    ensures k > j ==> SlotsOf(P, lo[k])[i].key > key
  {
    assert LeafBounded(P, F, lo, k, true);
    if k < j {
      assert F[k + 1].key <= F[j].key;
    } else if k > j {
      assert F[j + 1].key <= F[k].key;
    }
  }

  // The leaf of a rank, left or right of leaf j as the rank is.
  lemma LeafOfRank(P: Pages, lo: seq<int>, j: nat, g: nat) returns (k: nat, i: nat)
    requires j < |lo| && g < |Flat(P, lo)|
    ensures k < |lo| && i < |SlotsOf(P, lo[k])| && Flat(P, lo)[g] == SlotsOf(P, lo[k])[i]
    ensures g < Offset(P, lo, j) ==> k < j
    ensures g >= Offset(P, lo, j) + |SlotsOf(P, lo[j])| ==> k > j
    ensures Offset(P, lo, j) <= g < Offset(P, lo, j) + |SlotsOf(P, lo[j])| ==> k == j && i == g - Offset(P, lo, j)
  {
    k, i := FlatLocate(P, lo, g);
    OffStep(P, lo, j);
    OffStep(P, lo, k);
    if k < j {
      OffMonotone(P, lo, k + 1, j);
    } else if k > j {
      OffMonotone(P, lo, j + 1, k);
    }
  }

  /** All pairs before the leaf that covers a key are smaller, all pairs behind that leaf are greater. */
  lemma AroundLeaf(P: Pages, lv: seq<seq<int>>, root: int, order: nat, j: nat, key: int, g: nat)
    requires Tree(P, lv, root, order) && Covers(P, lv, 0, j, key) && g < |Flat(P, lv[0])|
    ensures g < Offset(P, lv[0], j) ==> Flat(P, lv[0])[g].key < key
    ensures g >= Offset(P, lv[0], j) + |SlotsOf(P, lv[0][j])| ==> Flat(P, lv[0])[g].key > key
    ensures Offset(P, lv[0], j) <= g < Offset(P, lv[0], j) + |SlotsOf(P, lv[0][j])| ==>
      Flat(P, lv[0])[g] == SlotsOf(P, lv[0][j])[g - Offset(P, lv[0], j)]
  {
    var k, i := LeafOfRank(P, lv[0], j, g);
    if |lv| == 1 {
      assert lv[0] == [root];
    } else {
      assert LinkAt(P, lv, 0, true);
      BesideLeaf(P, Flat(P, lv[1]), lv[0], j, key, k, i);
    }
  }

  /** The pairs before a place are those with a smaller key. */
  ghost predicate Splits(E: seq<Slot>, r: int, key: int) {
    0 <= r <= |E| && forall g :: 0 <= g < |E| ==> (g < r <==> E[g].key < key)
  }

  lemma LowerSplits(P: Pages, lv: seq<seq<int>>, root: int, order: nat, j: nat, key: int)
    requires Tree(P, lv, root, order) && Covers(P, lv, 0, j, key)
    ensures Splits(Flat(P, lv[0]), Offset(P, lv[0], j) + LowerBound(SlotsOf(P, lv[0][j]), key), key)
  {
    hide Flat, SlotsOf;
    var E, s, o := Flat(P, lv[0]), SlotsOf(P, lv[0][j]), Offset(P, lv[0], j);
    var r := o + LowerBound(s, key);
    RankBound(P, lv[0], j, Iid(lv[0][j], LowerBound(s, key)));
    LeafRoom(P, lv, root, order, j);
    forall g | 0 <= g < |E| ensures g < r <==> E[g].key < key {
      AroundLeaf(P, lv, root, order, j, key, g);
    }
  }

  /** Behind the place that upper_bound finds in its leaf all keys are greater; before it only the leaf's first
      key, at which upper_bound does not look, can be greater. */
  lemma UpperSplits(P: Pages, lv: seq<seq<int>>, root: int, order: nat, j: nat, key: int)
    requires Tree(P, lv, root, order) && Covers(P, lv, 0, j, key)
    ensures var E, s, o := Flat(P, lv[0]), SlotsOf(P, lv[0][j]), Offset(P, lv[0], j);
            forall g :: 0 <= g < |E| ==> (o + UpperBound(s, key) <= g ==> E[g].key > key)
                                         && (g < o + UpperBound(s, key) && g != o ==> E[g].key <= key)
  {
    var E, s, o := Flat(P, lv[0]), SlotsOf(P, lv[0][j]), Offset(P, lv[0], j);
    LeafRoom(P, lv, root, order, j);
    forall g | 0 <= g < |E| ensures (o + UpperBound(s, key) <= g ==> E[g].key > key)
                                    && (g < o + UpperBound(s, key) && g != o ==> E[g].key <= key)
    {
      AroundLeaf(P, lv, root, order, j, key, g);
    }
  }

  /** The pairs before a place are those with a key up to the given one. */
  ghost predicate SplitsUp(E: seq<Slot>, r: int, key: int) {
    0 <= r <= |E| && forall g :: 0 <= g < |E| ==> (g < r <==> E[g].key <= key)
  }

  /** upper_bound inside its leaf is right when it need not look at the first key and does not run out of keys. */
  lemma UpperInside(P: Pages, lv: seq<seq<int>>, root: int, order: nat, j: nat, key: int)
    requires Tree(P, lv, root, order) && Covers(P, lv, 0, j, key)
    requires UpperBound(SlotsOf(P, lv[0][j]), key) < |SlotsOf(P, lv[0][j])|
    ensures SplitsUp(Flat(P, lv[0]), Offset(P, lv[0], j) + UpperBound(SlotsOf(P, lv[0][j]), key), key)
      <==> SlotsOf(P, lv[0][j])[0].key <= key
  {
    hide Flat;
    var E, s, o := Flat(P, lv[0]), SlotsOf(P, lv[0][j]), Offset(P, lv[0], j);
    UpperSplits(P, lv, root, order, j, key);
    RankBound(P, lv[0], j, Iid(lv[0][j], 0));
    RankBound(P, lv[0], j, Iid(lv[0][j], UpperBound(s, key)));
    assert E[o] == s[0];
  }

  // A following leaf begins with a greater key.
  lemma GreaterFollows(P: Pages, lv: seq<seq<int>>, root: int, order: nat, j: nat, key: int)
    requires Tree(P, lv, root, order) && Covers(P, lv, 0, j, key) && j + 1 < |lv[0]|
    ensures !SplitsUp(Flat(P, lv[0]), |Flat(P, lv[0])|, key)
  {
    hide TreeBut, Covers;
    LeavesDistinct(P, lv, root, order, -1, true);
    LeafFilledAt(P, lv, root, order, j + 1);
    var g := Offset(P, lv[0], j + 1);
    RankBound(P, lv[0], j + 1, Iid(lv[0][j + 1], 0));
    OffStep(P, lv[0], j);
    AroundLeaf(P, lv, root, order, j, key, g);
  }

  // In the last leaf the keys seen and the first one decide.
  lemma LastDecides(P: Pages, lv: seq<seq<int>>, root: int, order: nat, j: nat, key: int)
    requires Tree(P, lv, root, order) && Covers(P, lv, 0, j, key) && j + 1 == |lv[0]|
    requires UpperBound(SlotsOf(P, lv[0][j]), key) == |SlotsOf(P, lv[0][j])|
    ensures SplitsUp(Flat(P, lv[0]), |Flat(P, lv[0])|, key) <==> SlotsOf(P, lv[0][j]) == [] || SlotsOf(P, lv[0][j])[0].key <= key
  {
    hide TreeBut, Covers;
    LeavesDistinct(P, lv, root, order, -1, true);
    var E, s, o := Flat(P, lv[0]), SlotsOf(P, lv[0][j]), Offset(P, lv[0], j);
    FlatStretch(P, lv[0], j);
    assert lv[0][..j + 1] == lv[0];
    UpperSplits(P, lv, root, order, j, key);
    if s != [] {
      RankBound(P, lv[0], j, Iid(lv[0][j], 0));
      assert E[o] == s[0];
    }
  }

  /** When upper_bound runs out of keys and answers with the end of the ring, this is right if no leaf follows and
      the first key, at which it did not look, is not greater. */
  lemma UpperOutside(P: Pages, lv: seq<seq<int>>, root: int, order: nat, j: nat, key: int)
    requires Tree(P, lv, root, order) && Covers(P, lv, 0, j, key)
    requires UpperBound(SlotsOf(P, lv[0][j]), key) == |SlotsOf(P, lv[0][j])|
    ensures SplitsUp(Flat(P, lv[0]), |Flat(P, lv[0])|, key)
      <==> j + 1 == |lv[0]| && (SlotsOf(P, lv[0][j]) == [] || SlotsOf(P, lv[0][j])[0].key <= key)
  {
    if j + 1 < |lv[0]| {
      GreaterFollows(P, lv, root, order, j, key);
    } else {
      LastDecides(P, lv, root, order, j, key);
    }
  }

  lemma LeafFilledAt(P: Pages, lv: seq<seq<int>>, root: int, order: nat, j: nat)
    requires Tree(P, lv, root, order) && 0 < j < |lv[0]|
    ensures SlotsOf(P, lv[0][j]) != []
  {
    LeafSize(P, lv, root, order, j);
    TopIsRoot(P, lv, root);
    assert GoodPage(P, lv[0][j], true, order);
  }
}
