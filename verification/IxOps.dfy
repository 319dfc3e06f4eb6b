/** The steps of the index operations that touch one leaf or one page, put together for the operations. */
module IxOps {
  import opened Defs
  import opened IxNode
  import opened IxLevels
  import opened IxTree
  import opened IxInsert
  import opened IxParent
  import opened IxBorrow
  import opened IxMerge
  import opened IxContents

  ghost predicate SameSlots(P: Pages, Q: Pages, s: seq<int>) {
    forall k :: 0 <= k < |s| ==> SlotsOf(Q, s[k]) == SlotsOf(P, s[k])
  }

  /** The slots leaf by leaf. */
  ghost function LeafSlots(P: Pages, lo: seq<int>): seq<seq<Slot>> {
    seq(|lo|, k requires 0 <= k < |lo| => SlotsOf(P, lo[k]))
  }

  /** Leaf j gets the slots s; when they are too many, the upper part goes to a new leaf behind it. */
  ghost function SplitInto(leaves: seq<seq<Slot>>, j: nat, s: seq<Slot>, order: nat): seq<seq<Slot>>
    requires j < |leaves|
  {
    if |s| < order then leaves[j := s]
    else
      var left := (MaxSize(order) - 1) / 2;
      leaves[..j] + [s[..left], s[left..]] + leaves[j + 1..]
  }

  // ---- the way down

  /** No inner page on the way down from page p, h levels above the leaves, misleads the lookup of `key`. */
  ghost predicate ClearBelow(P: Pages, p: int, h: nat, key: int)
    decreases h
  {
    h == 0 ||
    (SlotsOf(P, p) != [] && p in P && !Misled(P[p], key) && ClearBelow(P, P[p].slots[Pick(P[p].slots, key)].rid.pageNo, h - 1, key))
  }

  /** The leaf at the end of the way down. */
  ghost function LeafBelow(P: Pages, p: int, h: nat, key: int): int
    decreases h
  {
    if h == 0 || SlotsOf(P, p) == [] then p
    else LeafBelow(P, SlotsOf(P, p)[Pick(SlotsOf(P, p), key)].rid.pageNo, h - 1, key)
  }

  lemma CoversRoot(P: Pages, lv: seq<seq<int>>, root: int, key: int)
    requires Rooted(P, lv, root)
    ensures Covers(P, lv, |lv| - 1, 0, key)
  {
  }

  lemma RootIn(P: Pages, lv: seq<seq<int>>, root: int, order: nat)
    requires Tree(P, lv, root, order)
    ensures root in P && (P[root].isLeaf <==> |lv| == 1)
  {
    assert lv[|lv| - 1][0] == root;
    assert GoodPage(P, lv[|lv| - 1][0], |lv| - 1 == 0, order);
  }

  lemma InnerNonempty(P: Pages, lv: seq<seq<int>>, root: int, order: nat, h: nat, j: nat)
    requires Tree(P, lv, root, order) && 0 < h < |lv| && j < |lv[h]|
    ensures lv[h][j] in P && !P[lv[h][j]].isLeaf && P[lv[h][j]].slots != [] && P[lv[h][j]].spare != []
  {
    assert GoodPage(P, lv[h][j], false, order);
    assert SizeOK(P[lv[h][j]], IsTop(lv, h), order);
  }

  lemma LeafRoom(P: Pages, lv: seq<seq<int>>, root: int, order: nat, j: nat)
    requires Tree(P, lv, root, order) && j < |lv[0]|
    ensures lv[0][j] in P && P[lv[0][j]].isLeaf && P[lv[0][j]].spare != [] && lv[0][j] > IX_LEAF_HEADER_PAGE
    ensures Sorted(P[lv[0][j]].slots) && |P[lv[0][j]].slots| <= order - 1
  {
    assert GoodPage(P, lv[0][j], true, order);
    assert SizeOK(P[lv[0][j]], IsTop(lv, 0), order);
    assert Sorted(SlotsOf(P, lv[0][j]));
  }

  lemma SortedEntries(P: Pages, lv: seq<seq<int>>, root: int, order: nat)
    requires Tree(P, lv, root, order)
    ensures Sorted(Flat(P, lv[0]))
  {
    EntriesSorted(P, lv, true);
  }

  /** The map and the covering leaf agree on a key. */
  lemma LeafDecides(P: Pages, lv: seq<seq<int>>, root: int, order: nat, j: nat, key: int)
    requires Tree(P, lv, root, order) && Covers(P, lv, 0, j, key)
    ensures key in ToMap(Flat(P, lv[0])) <==> exists i :: 0 <= i < |SlotsOf(P, lv[0][j])| && SlotsOf(P, lv[0][j])[i].key == key
    ensures forall i :: 0 <= i < |SlotsOf(P, lv[0][j])| && SlotsOf(P, lv[0][j])[i].key == key ==>
      key in ToMap(Flat(P, lv[0])) && ToMap(Flat(P, lv[0]))[key] == SlotsOf(P, lv[0][j])[i].rid
  {
    var E, s := Flat(P, lv[0]), SlotsOf(P, lv[0][j]);
    SortedEntries(P, lv, root, order);
    MapAt(E, key);
    if g :| 0 <= g < |E| && E[g].key == key {
      OnlyInCovering(P, lv, j, key, g);
    }
    forall i | 0 <= i < |s| && s[i].key == key ensures key in ToMap(E) && ToMap(E)[key] == s[i].rid {
      FlatAt(P, lv[0], j, i);
    }
  }

  // ---- a pair goes into its leaf

  lemma LeafFits(P: Pages, Q: Pages, lv: seq<seq<int>>, root: int, order: nat, j: nat, key: int, rid: Rid)
    requires Tree(P, lv, root, order) && Covers(P, lv, 0, j, key) && |lv| > 1
    requires lv[0][j] in P && P[lv[0][j]].spare != []
    requires Q == P[lv[0][j] := InsertAt(P[lv[0][j]], LowerBound(P[lv[0][j]].slots, key), Slot(key, rid))]
    ensures |Flat(P, lv[1])| == |lv[0]|
    ensures LeafBounded(Q, Flat(P, lv[1]), lv[0], j, !(j == 0 && LowerBound(P[lv[0][j]].slots, key) == 0))
  {
    hide Flat;
    hide Flat, LowerBound, Nodes, Sizes, LeavesSorted, Chain, Rooted, Owned;
    var F, s, pos := Flat(P, lv[1]), P[lv[0][j]].slots, LowerBound(P[lv[0][j]].slots, key);
    assert LinkAt(P, lv, 0, true);
    assert LeafBounded(P, F, lv[0], j, true);
    assert SlotsOf(P, lv[0][j]) == s && SlotsOf(Q, lv[0][j]) == InsertSlot(s, pos, Slot(key, rid));
    InsertBounds(s, key, rid, F[j].key, j > 0);
    if j + 1 < |lv[0]| {
      InsertBelow(s, key, rid, F[j + 1].key);
    }
  }

  // A lower bound of the old keys bounds the new ones, but for a new smallest key.
  lemma InsertBounds(s: seq<Slot>, key: int, rid: Rid, low: int, inner: bool)
    requires (forall i :: 0 <= i < |s| ==> low <= s[i].key) && (inner ==> low <= key)
    ensures var pos := LowerBound(s, key); var t := InsertSlot(s, pos, Slot(key, rid));
            forall i :: 0 <= i < |t| ==> (i > 0 || inner || pos > 0 ==> low <= t[i].key)
  {
    hide LowerBound;
    var pos := LowerBound(s, key);
    var t := InsertSlot(s, pos, Slot(key, rid));
    forall i | 0 <= i < |t| ensures i > 0 || inner || pos > 0 ==> low <= t[i].key {
      assert i != pos ==> t[i] == s[if i < pos then i else i - 1];
      assert pos > 0 ==> s[pos - 1].key < key;
    }
  }

  lemma InsertBelow(s: seq<Slot>, key: int, rid: Rid, high: int)
    requires (forall i :: 0 <= i < |s| ==> s[i].key < high) && key < high
    ensures var t := InsertSlot(s, LowerBound(s, key), Slot(key, rid)); forall i :: 0 <= i < |t| ==> t[i].key < high
  {
    hide LowerBound;
    var pos := LowerBound(s, key);
    var t := InsertSlot(s, pos, Slot(key, rid));
    forall i | 0 <= i < |t| ensures t[i].key < high {
      assert i != pos ==> t[i] == s[if i < pos then i else i - 1];
    }
  }

  // The slots before the lower bound are smaller, those from it on are greater.
  lemma AroundBound(s: seq<Slot>, key: int, i: nat)
    requires Sorted(s) && i < |s| && s[i].key != key
    ensures i < LowerBound(s, key) <==> s[i].key < key
  {
  }

  lemma InsertedAt(s: seq<Slot>, pos: nat, v: Slot, k: nat)
    requires pos <= |s| && k <= |s|
    ensures |InsertSlot(s, pos, v)| == |s| + 1
    ensures InsertSlot(s, pos, v)[k] == if k < pos then s[k] else if k == pos then v else s[k - 1]
  {
  }

  lemma InsertSorted(s: seq<Slot>, key: int, rid: Rid)
    requires Sorted(s) && (forall i :: 0 <= i < |s| ==> s[i].key != key)
    ensures Sorted(InsertSlot(s, LowerBound(s, key), Slot(key, rid)))
  {
    hide InsertSlot, LowerBound;
    var pos, v := LowerBound(s, key), Slot(key, rid);
    var t := InsertSlot(s, pos, v);
    InsertedAt(s, pos, v, 0);
    forall a, b | 0 <= a < b < |t| ensures t[a].key < t[b].key {
      InsertedAt(s, pos, v, a);
      InsertedAt(s, pos, v, b);
      if a == pos {
        AroundBound(s, key, b - 1);
      } else if b == pos {
        AroundBound(s, key, a);
      }
    }
  }

  lemma LeafInsertTree(P: Pages, Q: Pages, lv: seq<seq<int>>, root: int, order: nat, j: nat, key: int, rid: Rid)
    requires Tree(P, lv, root, order) && Covers(P, lv, 0, j, key)
    requires lv[0][j] in P && P[lv[0][j]].spare != []
    requires forall i :: 0 <= i < |P[lv[0][j]].slots| ==> P[lv[0][j]].slots[i].key != key
    requires Q == P[lv[0][j] := InsertAt(P[lv[0][j]], LowerBound(P[lv[0][j]].slots, key), Slot(key, rid))]
    ensures TreeBut(Q, lv, root, order, lv[0][j], !(j == 0 && LowerBound(P[lv[0][j]].slots, key) == 0))
  {
    var p, s, pos := lv[0][j], P[lv[0][j]].slots, LowerBound(P[lv[0][j]].slots, key);
    assert GoodPage(P, p, true, order);
    assert Sorted(SlotsOf(P, p));
    InsertSorted(s, key, rid);
    if |lv| > 1 {
      LeafFits(P, Q, lv, root, order, j, key, rid);
    }
    LeafChange(P, Q, lv, root, order, j, Q[p], !(j == 0 && pos == 0));
  }

  /** Inserting an absent pair into the covering leaf extends the map by it. */
  lemma LeafInsertContents(P: Pages, Q: Pages, lv: seq<seq<int>>, root: int, order: nat, j: nat, pos: nat, v: Slot)
    requires Tree(P, lv, root, order) && Covers(P, lv, 0, j, v.key)
    requires lv[0][j] in P && P[lv[0][j]].spare != [] && pos <= |P[lv[0][j]].slots|
    requires forall i :: 0 <= i < |P[lv[0][j]].slots| ==> P[lv[0][j]].slots[i].key != v.key
    requires Q == P[lv[0][j] := InsertAt(P[lv[0][j]], pos, v)]
    ensures v.key !in ToMap(Flat(P, lv[0]))
    ensures ToMap(Flat(Q, lv[0])) == ToMap(Flat(P, lv[0]))[v.key := v.rid]
  {
    LeafInsertFlat(P, Q, lv, order, j, pos, v);
    LeafInsertMap(P, lv, root, order, j, Offset(P, lv[0], j) + pos, v);
  }

  lemma LeafInsertFlat(P: Pages, Q: Pages, lv: seq<seq<int>>, order: nat, j: nat, pos: nat, v: Slot)
    requires Nodes(P, lv, order) && j < |lv[0]| && lv[0][j] in P && P[lv[0][j]].spare != []
    requires pos <= |P[lv[0][j]].slots| && Q == P[lv[0][j] := InsertAt(P[lv[0][j]], pos, v)]
    ensures Offset(P, lv[0], j) + pos <= |Flat(P, lv[0])|
    ensures Flat(Q, lv[0]) == InsertSlot(Flat(P, lv[0]), Offset(P, lv[0], j) + pos, v)
  {
    InsertFlat(P, Q, lv[0], j, pos, v);
  }

  lemma LeafInsertMap(P: Pages, lv: seq<seq<int>>, root: int, order: nat, j: nat, g: nat, v: Slot)
    requires Tree(P, lv, root, order) && Covers(P, lv, 0, j, v.key) && g <= |Flat(P, lv[0])|
    requires forall i :: 0 <= i < |SlotsOf(P, lv[0][j])| ==> SlotsOf(P, lv[0][j])[i].key != v.key
    ensures v.key !in ToMap(Flat(P, lv[0]))
    ensures ToMap(InsertSlot(Flat(P, lv[0]), g, v)) == ToMap(Flat(P, lv[0]))[v.key := v.rid]
  {
    var E := Flat(P, lv[0]);
    forall i | 0 <= i < |E| ensures E[i].key != v.key {
      if E[i].key == v.key {
        OnlyInCovering(P, lv, j, v.key, i);
      }
    }
    MapInsert(E, g, v);
  }

  /** Insert on the covering leaf, whether or not the key is there. The result tells whether the
      separators are still tight: they are not only when the key is the new smallest of all. */
  lemma InsertedIntoLeaf(P: Pages, Q: Pages, lv: seq<seq<int>>, root: int, order: nat, j: nat, key: int, rid: Rid)
    returns (tight: bool)
    requires Tree(P, lv, root, order) && lv != [] && j < |lv[0]| && Covers(P, lv, 0, j, key) && lv[0][j] in P && P[lv[0][j]].spare != []
    requires Q == P[lv[0][j] := Insert(P[lv[0][j]], key, rid)]
    ensures lv[0][j] in Q && Q[lv[0][j]].isLeaf && TreeBut(Q, lv, root, order, lv[0][j], tight)
    ensures 0 < |Q[lv[0][j]].slots| <= order && |Q[lv[0][j]].slots| + |Q[lv[0][j]].spare| == order + 1
    ensures |Q[lv[0][j]].slots| < order ==> SizeOK(Q[lv[0][j]], IsTop(lv, 0), order)
    ensures !tight ==> j == 0 && Q[lv[0][j]].slots[0].key == key
    ensures ToMap(Flat(Q, lv[0])) ==
      if key in ToMap(Flat(P, lv[0])) then ToMap(Flat(P, lv[0])) else ToMap(Flat(P, lv[0]))[key := rid]
  {
    hide TreeBut;
    var p, s, pos := lv[0][j], P[lv[0][j]].slots, LowerBound(P[lv[0][j]].slots, key);
    LeafRoom(P, lv, root, order, j);
    LeafSize(P, lv, root, order, j);
    LeafDecides(P, lv, root, order, j, key);
    if pos < |s| && s[pos].key == key {
      assert Q == P;
      assert SlotsOf(P, p)[pos].key == key;
      tight := true;
      TreeRelax(P, lv, root, order, p);
    } else {
      forall i | 0 <= i < |s| ensures s[i].key != key {
        if s[i].key == key {
          SortedFind(s, key, i);
        }
      }
      tight := !(j == 0 && pos == 0);
      LeafInsertTree(P, Q, lv, root, order, j, key, rid);
      LeafInsertContents(P, Q, lv, root, order, j, pos, Slot(key, rid));
    }
  }

  lemma LeafSize(P: Pages, lv: seq<seq<int>>, root: int, order: nat, j: nat)
    requires Tree(P, lv, root, order) && j < |lv[0]|
    ensures lv[0][j] in P && SizeOK(P[lv[0][j]], IsTop(lv, 0), order)
    ensures |P[lv[0][j]].slots| + |P[lv[0][j]].spare| == order + 1
  {
    assert GoodPage(P, lv[0][j], true, order);
  }

  lemma TreeRelax(P: Pages, lv: seq<seq<int>>, root: int, order: nat, ex: int)
    requires Tree(P, lv, root, order)
    ensures TreeBut(P, lv, root, order, ex, true)
  {
    forall h, j | 0 <= h < |lv| && 0 <= j < |lv[h]| ensures lv[h][j] in P && SizeOK(P[lv[h][j]], IsTop(lv, h), order) {
      assert GoodPage(P, lv[h][j], h == 0, order);
    }
  }

  // A tree always has a page of the leaf level at index 0 that is its first leaf.
  lemma FirstIsZero(P: Pages, lv: seq<seq<int>>, root: int, order: nat, j: nat, tight: bool)
    requires TreeBut(P, lv, root, order, -1, tight) && j < |lv[0]|
    ensures lv[0][j] == lv[0][0] <==> j == 0
    ensures lv[0][j] in P
  {
    assert GoodPage(P, lv[0][j], true, order);
  }

  lemma LeavesDistinct(P: Pages, lv: seq<seq<int>>, root: int, order: nat, ex: int, tight: bool)
    requires TreeBut(P, lv, root, order, ex, tight)
    ensures lv != [] && forall a, b :: 0 <= a < b < |lv[0]| ==> lv[0][a] != lv[0][b]
    ensures forall a :: 0 <= a < |lv[0]| ==> lv[0][a] in P
  {
    forall a | 0 <= a < |lv[0]| ensures lv[0][a] in P {
      assert GoodPage(P, lv[0][a], true, order);
    }
  }

  // First and last leaf, and the first slot of the leaf, after leaf j was split.
  lemma SplitEnds(P: Pages, B: Pages, Q: Pages, lv: seq<seq<int>>, lw: seq<seq<int>>, order: nat, j: nat, n: int)
    requires lv != [] && lw != [] && j < |lv[0]| && SplitOf(P, B, lv[0][j], n, order)
    requires lw[0] == InsertAfter(lv[0], j, n) && SameSlots(B, Q, lw[0])
    requires forall a, b :: 0 <= a < b < |lv[0]| ==> lv[0][a] != lv[0][b]
    ensures lw[0] != [] && lw[0][0] == lv[0][0] && j < |lw[0]| && lw[0][j] == lv[0][j]
    ensures lw[0][|lw[0]| - 1] == if lv[0][|lv[0]| - 1] == lv[0][j] then n else lv[0][|lv[0]| - 1]
    ensures SlotsOf(Q, lv[0][j]) != [] && SlotsOf(P, lv[0][j]) != [] && SlotsOf(Q, lv[0][j])[0] == SlotsOf(P, lv[0][j])[0]
  {
    assert SlotsOf(Q, lw[0][j]) == SlotsOf(B, lw[0][j]);
    if j + 1 < |lv[0]| {
      assert lv[0][|lv[0]| - 1] != lv[0][j];
    }
  }

  lemma SplitIs(leaves: seq<seq<Slot>>, j: nat, s: seq<Slot>, order: nat, more: seq<seq<Slot>>)
    requires j < |leaves| && |s| >= order && |more| == |leaves| + 1
    requires more[j] == s[..(MaxSize(order) - 1) / 2] && more[j + 1] == s[(MaxSize(order) - 1) / 2..]
    requires forall k :: 0 <= k < |leaves| && k != j ==> more[if k < j then k else k + 1] == leaves[k]
    ensures more == SplitInto(leaves, j, s, order)
  {
    var t := SplitInto(leaves, j, s, order);
    forall k | 0 <= k < |t| ensures t[k] == more[k] {
      if k < j {
        assert more[k] == leaves[k];
      } else if k > j + 1 {
        assert more[if k - 1 < j then k - 1 else k] == leaves[k - 1];
      }
    }
  }

  // The slots of the leaves after leaf j was split.
  lemma SplitLeaves(P: Pages, B: Pages, Q: Pages, lv: seq<seq<int>>, lw: seq<seq<int>>, order: nat, j: nat, n: int)
    requires lv != [] && lw != [] && j < |lv[0]| && SplitOf(P, B, lv[0][j], n, order)
    requires lw[0] == InsertAfter(lv[0], j, n) && SameSlots(B, Q, lw[0])
    requires forall a, b :: 0 <= a < b < |lv[0]| ==> lv[0][a] != lv[0][b]
    requires forall a :: 0 <= a < |lv[0]| ==> lv[0][a] in P
    requires |SlotsOf(P, lv[0][j])| >= order && |SlotsOf(B, lv[0][j])| == (MaxSize(order) - 1) / 2
    ensures LeafSlots(Q, lw[0]) == SplitInto(LeafSlots(P, lv[0]), j, SlotsOf(P, lv[0][j]), order)
  {
    hide SplitInto, SplitOf, SlotsOf;
    var s, t := LeafSlots(P, lv[0]), LeafSlots(Q, lw[0]);
    SplitParts(P, B, lv[0][j], n, order);
    assert t[j] == SlotsOf(B, lw[0][j]) && t[j + 1] == SlotsOf(B, lw[0][j + 1]);
    forall k | 0 <= k < |s| && k != j ensures t[if k < j then k else k + 1] == s[k] {
      assert lw[0][if k < j then k else k + 1] == lv[0][k];
      assert SlotsOf(B, lv[0][k]) == SlotsOf(P, lv[0][k]);
    }
    SplitIs(s, j, SlotsOf(P, lv[0][j]), order, t);
  }

  lemma SplitParts(P: Pages, B: Pages, p: int, n: int, order: nat)
    requires SplitOf(P, B, p, n, order)
    ensures |SlotsOf(B, p)| <= |SlotsOf(P, p)|
    ensures SlotsOf(P, p)[..|SlotsOf(B, p)|] == SlotsOf(B, p) && SlotsOf(P, p)[|SlotsOf(B, p)|..] == SlotsOf(B, n)
    ensures forall y :: y in P && y != p ==> SlotsOf(B, y) == SlotsOf(P, y)
  {
  }

  lemma LeavesStay(P: Pages, lo: seq<int>, j: nat, order: nat)
    requires j < |lo| && |SlotsOf(P, lo[j])| < order
    ensures SplitInto(LeafSlots(P, lo), j, SlotsOf(P, lo[j]), order) == LeafSlots(P, lo)
  {
  }

  // The leaves after page j got other slots, to be split if they are too many.
  lemma LeavesPut(P: Pages, lo: seq<int>, j: nat, n: Node, order: nat)
    requires j < |lo| && forall a, b :: 0 <= a < b < |lo| ==> lo[a] != lo[b]
    ensures LeafSlots(P[lo[j] := n], lo) == LeafSlots(P, lo)[j := n.slots]
    ensures SplitInto(LeafSlots(P[lo[j] := n], lo), j, n.slots, order) == SplitInto(LeafSlots(P, lo), j, n.slots, order)
  {
    var s, t := LeafSlots(P, lo), LeafSlots(P[lo[j] := n], lo);
    assert t == s[j := n.slots];
    assert t[..j] == s[..j] && t[j + 1..] == s[j + 1..];
  }

  // The leaves after page j got other slots and no other leaf did.
  lemma ErasedLeaves(P: Pages, Q: Pages, lo: seq<int>, j: nat, n: Node)
    requires j < |lo| && (forall a, b :: 0 <= a < b < |lo| ==> lo[a] != lo[b]) && SameSlots(P[lo[j] := n], Q, lo)
    ensures LeafSlots(Q, lo) == LeafSlots(P, lo)[j := n.slots]
  {
    LeavesPut(P, lo, j, n, 0);
  }

  // ---- a pair leaves its leaf

  lemma LeafRemoveTree(P: Pages, Q: Pages, lv: seq<seq<int>>, root: int, order: nat, j: nat, pos: nat)
    requires Tree(P, lv, root, order) && j < |lv[0]| && lv[0][j] in P && pos < |P[lv[0][j]].slots|
    requires Q == P[lv[0][j] := EraseAt(P[lv[0][j]], pos)]
    ensures TreeBut(Q, lv, root, order, lv[0][j], true)
  {
    hide Flat, Sizes;
    var p, s := lv[0][j], P[lv[0][j]].slots;
    var n := EraseAt(P[p], pos);
    assert GoodPage(P, p, true, order);
    assert Sorted(SlotsOf(P, p));
    forall a | 0 <= a < |n.slots| ensures n.slots[a] == s[if a < pos then a else a + 1] {
    }
    if |lv| > 1 {
      assert LinkAt(P, lv, 0, true);
      assert LeafBounded(P, Flat(P, lv[1]), lv[0], j, true);
    }
    LeafChange(P, Q, lv, root, order, j, n, true);
  }

  /** Removing a pair from its leaf takes its key out of the map. */
  lemma LeafRemove(P: Pages, Q: Pages, lv: seq<seq<int>>, root: int, order: nat, j: nat, pos: nat)
    requires Tree(P, lv, root, order) && j < |lv[0]| && lv[0][j] in P && pos < |P[lv[0][j]].slots|
    requires Q == P[lv[0][j] := EraseAt(P[lv[0][j]], pos)]
    ensures TreeBut(Q, lv, root, order, lv[0][j], true)
    ensures P[lv[0][j]].slots[pos].key in ToMap(Flat(P, lv[0]))
    ensures ToMap(Flat(Q, lv[0])) == ToMap(Flat(P, lv[0])) - {P[lv[0][j]].slots[pos].key}
  {
    hide TreeBut, Flat, ToMap, Sorted, Offset;
    LeafRemoveTree(P, Q, lv, root, order, j, pos);
    LeavesDistinct(P, lv, root, order, -1, true);
    assert SlotsOf(Q, lv[0][j]) == RemoveSlot(SlotsOf(P, lv[0][j]), pos);
    RemoveFlat(P, Q, lv[0], j, pos);
    SortedEntries(P, lv, root, order);
    FlatAt(P, lv[0], j, pos);
    MapRemove(Flat(P, lv[0]), Offset(P, lv[0], j) + pos);
  }

  // ---- a page is split

  lemma SplitSortedHalf(P: Pages, lv: seq<seq<int>>, root: int, order: nat, h: nat, j: nat, tight: bool, left: nat)
    requires h < |lv| && j < |lv[h]| && TreeBut(P, lv, root, order, lv[h][j], tight)
    requires 0 < left <= |SlotsOf(P, lv[h][j])|
    ensures Sorted(SlotsOf(P, lv[h][j])[left..])
  {
    var s := SlotsOf(P, lv[h][j]);
    if h == 0 {
      assert Sorted(SlotsOf(P, lv[0][j]));
    } else {
      InnerSorted(P, lv, h, j, tight);
    }
    var t := s[left..];
    forall a, b | 0 <= a < b < |t| ensures t[a].key < t[b].key {
      assert t[a] == s[left + a] && t[b] == s[left + b];
    }
  }

  /** What a split finds: sizes, the upper part in order, the next leaf or the children in place. */
  lemma SplitReady(P: Pages, lv: seq<seq<int>>, root: int, order: nat, h: nat, j: nat, tight: bool)
    requires h < |lv| && j < |lv[h]| && TreeBut(P, lv, root, order, lv[h][j], tight)
    requires |SlotsOf(P, lv[h][j])| >= order
    ensures GoodPage(P, lv[h][j], h == 0, order)
    ensures Sorted(SlotsOf(P, lv[h][j])[(MaxSize(order) - 1) / 2..]) && Sorted(SlotsOf(P, lv[h][j])[MinSize(order)..])
    ensures h == 0 ==> P[lv[0][j]].next in P && P[lv[0][j]].next != lv[0][j]
    ensures h > 0 ==> forall i :: 0 <= i < |SlotsOf(P, lv[h][j])| ==>
      SlotsOf(P, lv[h][j])[i].rid.pageNo in P && SlotsOf(P, lv[h][j])[i].rid.pageNo != lv[h][j]
  {
    var p := lv[h][j];
    assert GoodPage(P, lv[h][j], h == 0, order);
    SplitSortedHalf(P, lv, root, order, h, j, tight, (MaxSize(order) - 1) / 2);
    SplitSortedHalf(P, lv, root, order, h, j, tight, MinSize(order));
    if h == 0 {
      assert ChainedAt(P, lv[0], j);
      if j + 1 < |lv[0]| {
        assert GoodPage(P, lv[0][j + 1], true, order);
      }
    } else {
      assert LinkAt(P, lv, h - 1, tight);
      forall i | 0 <= i < |SlotsOf(P, p)| ensures SlotsOf(P, p)[i].rid.pageNo in P && SlotsOf(P, p)[i].rid.pageNo != p {
        ChildAt(P, lv[h], lv[h - 1], j, i);
        assert GoodPage(P, lv[h - 1][Offset(P, lv[h], j) + i], h - 1 == 0, order);
      }
    }
  }

  // The upper half of page p of P has gone to the new page n.
  ghost predicate HalfMoved(P: Pages, B: Pages, p: int, n: int, order: nat, left: nat) {
    && p in P && n !in P && n > IX_LEAF_HEADER_PAGE && B.Keys == P.Keys + {n}
    && left <= |P[p].slots| && B[p] == P[p].WithSize(left)
    && B[n].slots == P[p].slots[left..] && |B[n].slots| + |B[n].spare| == order + 1
    && B[n].isLeaf == P[p].isLeaf
    && forall y :: y in P && y != p ==> B[y] == P[y]
  }

  lemma SplitLeafOf(P: Pages, B: Pages, Q: Pages, p: int, n: int, order: nat, left: nat)
    requires order >= 3 && HalfMoved(P, B, p, n, order, left) && P[p].isLeaf
    requires |P[p].slots| == order && |P[p].spare| == 1 && left == (MaxSize(order) - 1) / 2
    requires P[p].next in P && P[p].next != p && Q.Keys == B.Keys
    requires Q[n] == B[n].(parent := P[p].parent, next := P[p].next, prev := p)
    requires Q[p] == B[p].(next := n) && Q[P[p].next] == P[P[p].next].(prev := n)
    requires forall y :: y in P && y != p && y != P[p].next ==> Q[y] == P[y]
    ensures SplitOf(P, Q, p, n, order)
  {
    assert P[p].WithSize(left).slots == P[p].slots[..left];
    assert P[p].slots == P[p].slots[..left] + P[p].slots[left..];
  }

  lemma MovedChildren(P: Pages, B: Pages, p: int, n: int, left: nat)
    requires p in P && n in B && P.Keys <= B.Keys && left <= |P[p].slots| && B[n].slots == P[p].slots[left..]
    requires forall i :: 0 <= i < |SlotsOf(P, p)| ==> SlotsOf(P, p)[i].rid.pageNo in P && SlotsOf(P, p)[i].rid.pageNo != p
    ensures forall i :: 0 <= i < |B[n].slots| ==> B[n].slots[i].rid.pageNo in P && B[n].slots[i].rid.pageNo != p
  {
    forall i | 0 <= i < |B[n].slots| ensures B[n].slots[i] == SlotsOf(P, p)[left + i] {
    }
  }

  lemma SplitInnerOf(P: Pages, B: Pages, C: Pages, Q: Pages, p: int, n: int, order: nat, left: nat)
    requires order >= 3 && HalfMoved(P, B, p, n, order, left) && !P[p].isLeaf
    requires |P[p].slots| == order + 1 && |P[p].spare| == 0 && left == MinSize(order)
    requires forall i :: 0 <= i < |SlotsOf(P, p)| ==> SlotsOf(P, p)[i].rid.pageNo in P && SlotsOf(P, p)[i].rid.pageNo != p
    requires Adopted(B, C, n) && Q == C[n := C[n].(parent := C[p].parent)]
    ensures SplitOf(P, Q, p, n, order)
  {
    assert P[p].WithSize(left).slots == P[p].slots[..left];
    assert P[p].slots == P[p].slots[..left] + P[p].slots[left..];
    MovedChildren(P, B, p, n, left);
    assert SlotsOf(Q, n) == SlotsOf(B, n);
    forall i | 0 <= i < |SlotsOf(Q, n)| ensures Par(Q, SlotsOf(Q, n)[i].rid.pageNo) == n {
      assert Par(C, SlotsOf(B, n)[i].rid.pageNo) == n;
    }
    assert Par(C, p) == Par(P, p);
  }

  // ---- a page waiting for its slot in the parent

  lemma PendingPages(P: Pages, lv: seq<seq<int>>, root: int, order: nat, h: nat, j: nat, tight: bool)
    requires Pending(P, lv, root, order, h, j, tight)
    ensures lv[h][j] in P && P[lv[h][j]].slots != [] && lv[h][j + 1] in P && P[lv[h][j + 1]].slots != []
    ensures lv[h][j] != lv[h][j + 1]
  {
    assert GoodPage(P, lv[h][j], h == 0, order) && GoodPage(P, lv[h][j + 1], h == 0, order);
  }

  // Only the root is split into two pages on top.
  lemma RootSplit(P: Pages, lv: seq<seq<int>>, root: int, order: nat, h: nat, j: nat, tight: bool)
    requires Pending(P, lv, root, order, h, j, tight) && lv[h][j] == root
    ensures h + 1 == |lv| && j == 0
  {
    if h + 1 < |lv| {
      TopIsRoot(P, lv, root);
    } else {
      RootPair(lv, root, h, j);
    }
  }

  lemma TopIsRoot(P: Pages, lv: seq<seq<int>>, root: int)
    requires Rooted(P, lv, root)
    ensures |lv[|lv| - 1]| == 1 && lv[|lv| - 1][0] == root
  {
  }

  lemma PendingPlace(P: Pages, lv: seq<seq<int>>, root: int, order: nat, h: nat, j: nat, tight: bool) returns (q: nat, i: nat)
    requires Pending(P, lv, root, order, h, j, tight) && lv[h][j] != root
    ensures h + 1 < |lv| && q < |lv[h + 1]| && lv[h + 1][q] in P && lv[h + 1][q] == Par(P, lv[h][j])
    ensures i < |P[lv[h + 1][q]].slots| && j == Offset(P, lv[h + 1], q) + i
    ensures P[lv[h + 1][q]].slots[i].rid.pageNo == lv[h][j]
    ensures !P[lv[h + 1][q]].isLeaf && P[lv[h + 1][q]].spare != []
    ensures SizeOK(P[lv[h + 1][q]], IsTop(lv, h + 1), order)
    ensures lv[h + 1][q] !in lv[0] && lv[h + 1][q] != lv[h][j] && lv[h + 1][q] != lv[h][j + 1]
  {
    if h + 1 == |lv| {
      RootPair(lv, root, h, j);
    }
    q, i := PendingParent(P, lv[h + 1], lv[h], j, h == 0, tight);
    assert GoodPage(P, lv[h + 1][q], false, order);
    assert SizeOK(P[lv[h + 1][q]], IsTop(lv, h + 1), order);
    ElsewhereNot(lv, h + 1, q, 0);
  }

  // On a top level of two pages the root is the one with a page behind it.
  lemma RootPair(lv: seq<seq<int>>, root: int, h: nat, j: nat)
    requires h < |lv| && j + 1 < |lv[h]| && lv[h] == [root, lv[h][j + 1]]
    ensures j == 0 && lv[h][j] == root
  {
  }

  lemma PendingRank(P: Pages, lv: seq<seq<int>>, root: int, order: nat, h: nat, j: nat, tight: bool, q: nat, i: nat, pos: nat)
    requires Pending(P, lv, root, order, h, j, tight) && h + 1 < |lv| && q < |lv[h + 1]|
    requires i < |SlotsOf(P, lv[h + 1][q])| && pos < |SlotsOf(P, lv[h + 1][q])|
    requires SlotsOf(P, lv[h + 1][q])[i].rid.pageNo == SlotsOf(P, lv[h + 1][q])[pos].rid.pageNo
    ensures pos == i
  {
    hide Flat, SlotsOf, Sizes, LeavesSorted, Chain, Links, Separated, Owned, Without;
    assert forall a, b :: 0 <= a < b < |lv[h]| ==> lv[h][a] != lv[h][b];
    WithoutApart(lv[h], j + 1);
    ChildIndexUnique(P, lv[h + 1], Without(lv[h], j + 1), q, i, pos);
  }

  lemma WithoutApart(lo: seq<int>, j: nat)
    requires j < |lo| && forall a, b :: 0 <= a < b < |lo| ==> lo[a] != lo[b]
    ensures forall a, b :: 0 <= a < b < |Without(lo, j)| ==> Without(lo, j)[a] != Without(lo, j)[b]
  {
    var rest := Without(lo, j);
    forall a, b | 0 <= a < b < |rest| ensures rest[a] != rest[b] {
      assert rest[a] == lo[if a >= j then a + 1 else a] && rest[b] == lo[if b >= j then b + 1 else b];
    }
  }

  // The page that was allowed an illegal size turns out to have a legal one.
  lemma AllSizes(P: Pages, lv: seq<seq<int>>, root: int, order: nat, h: nat, j: nat, tight: bool)
    requires h < |lv| && j < |lv[h]| && TreeBut(P, lv, root, order, lv[h][j], tight)
    requires lv[h][j] in P && SizeOK(P[lv[h][j]], IsTop(lv, h), order)
    ensures TreeBut(P, lv, root, order, -1, tight)
  {
  }

  // ---- counting pages

  ghost function Total(lv: seq<seq<int>>): nat {
    if lv == [] then 0 else |lv[0]| + Total(lv[1..])
  }

  lemma {:induction false} TotalUpdate(lv: seq<seq<int>>, h: nat, s: seq<int>)
    requires h < |lv|
    ensures Total(lv[h := s]) == Total(lv) - |lv[h]| + |s|
  {
    var lw := lv[h := s];
    if h == 0 {
      assert lw[1..] == lv[1..];
    } else {
      assert lw[1..] == lv[1..][h - 1 := s];
      TotalUpdate(lv[1..], h - 1, s);
    }
  }

  lemma {:induction false} TotalAppend(lv: seq<seq<int>>, s: seq<int>)
    ensures Total(lv + [s]) == Total(lv) + |s|
  {
    if lv != [] {
      assert (lv + [s])[1..] == lv[1..] + [s];
      TotalAppend(lv[1..], s);
    }
  }

  // ---- finding a child in its parent

  lemma ChildIndexUnique(P: Pages, up: seq<int>, lo: seq<int>, q: nat, i: nat, i': nat)
    requires Linked(Flat(P, up), lo) && (forall a, b :: 0 <= a < b < |lo| ==> lo[a] != lo[b])
    requires q < |up| && i < |SlotsOf(P, up[q])| && i' < |SlotsOf(P, up[q])|
    requires SlotsOf(P, up[q])[i].rid.pageNo == SlotsOf(P, up[q])[i'].rid.pageNo
    ensures i == i'
  {
    ChildAt(P, up, lo, q, i);
    ChildAt(P, up, lo, q, i');
  }

  // ---- the new index

  // An empty leaf as the root, and the header page of the ring.
  function NewPages(buffer: seq<Slot>): Pages {
    map[IX_LEAF_HEADER_PAGE := Node(IX_NO_PAGE, true, IX_INIT_ROOT_PAGE, IX_INIT_ROOT_PAGE, [], buffer),
        IX_INIT_ROOT_PAGE := Node(IX_NO_PAGE, true, IX_LEAF_HEADER_PAGE, IX_LEAF_HEADER_PAGE, [], buffer)]
  }

  lemma NewTree(buffer: seq<Slot>, order: nat)
    requires order >= 3 && |buffer| == order + 1
    ensures var lv := [[IX_INIT_ROOT_PAGE]];
      Tree(NewPages(buffer), lv, IX_INIT_ROOT_PAGE, order) && Flat(NewPages(buffer), lv[0]) == [] && Total(lv) == 1
  {
    var P, lv := NewPages(buffer), [[IX_INIT_ROOT_PAGE]];
    assert ChainedAt(P, lv[0], 0);
    FlatOne(P, IX_INIT_ROOT_PAGE);
    assert lv[1..] == [];
    assert Total(lv) == 1 + Total([]);
  }
}
