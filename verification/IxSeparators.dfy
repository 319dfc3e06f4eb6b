/** The separators of the leaves: the keys on the level above them, one for each leaf. What the operations on pages do
    to them. */
module IxSeparators {
  import opened IxNode
  import opened IxLevels
  import opened IxTree
  import opened IxMaintain
  import opened IxClimb
  import opened IxInsert
  import opened IxParent
  import opened IxBorrow
  import opened IxMerge
  import opened IxOps
  import opened IxMend

  /** The separators from left to right; there are none above a leaf that is the root. */
  ghost function Seps(P: Pages, lv: seq<seq<int>>): seq<int> {
    if |lv| < 2 then [] else Keys(Flat(P, lv[1]))
  }

  // ---- what becomes of the separators

  // Leaf j was split; its halves begin with the keys left and right.
  function SplitSeps(S: seq<int>, j: nat, left: int, right: int): seq<int> {
    if S == [] then [left, right] else if j < |S| then S[..j + 1] + [right] + S[j + 1..] else S
  }

  // Page j of level h was split: above the leaves the separators stay.
  function UpSeps(S: seq<int>, h: nat, j: nat, left: int, right: int): seq<int> {
    if h > 0 then S else SplitSeps(S, j, left, right)
  }

  // Leaf j got the slots s: if it is split, the first key of its upper half is the separator of the new leaf.
  function HalfSeps(S: seq<int>, j: nat, s: seq<Slot>, order: nat): seq<int> {
    var l := (MaxSize(order) - 1) / 2;
    if |s| < order || |s| <= l then S else SplitSeps(S, j, s[0].key, s[l].key)
  }

  function CorrectedSep(S: seq<int>, j: nat, key: int): seq<int> {
    if j < |S| then S[j := key] else S
  }

  /** Leaf j got the slots s by the insertion of a key: a key smaller than all others becomes the first separator. */
  function PutSeps(S: seq<int>, j: nat, s: seq<Slot>, order: nat, key: int): seq<int> {
    var T := HalfSeps(S, j, s, order);
    if j == 0 && s != [] && s[0].key == key then CorrectedSep(T, 0, key) else T
  }

  lemma PutSepsAre(S: seq<int>, j: nat, s: seq<Slot>, order: nat, key: int)
    requires s != []
    ensures PutSeps(S, j, s, order, key) ==
      if j == 0 && s[0].key == key then CorrectedSep(HalfSeps(S, j, s, order), 0, key) else HalfSeps(S, j, s, order)
  {
  }

  function LessSeps(S: seq<int>, j: nat): seq<int> {
    if j < |S| then Without(S, j) else S
  }

  // Separator c becomes the first key of its leaf, given the leaves afterwards.
  function Corrects(S: seq<int>, c: nat, after: seq<seq<Slot>>): seq<int> {
    if c < |after| && after[c] != [] then CorrectedSep(S, c, after[c][0].key) else S
  }

  /** The repair of leaf j: the separator of a leaf that is merged away goes, and one is corrected. */
  function MendSeps(S: seq<int>, after: seq<seq<Slot>>, j: nat, how: Mend): seq<int> {
    match how
    case Stays => S
    case FromLeft => Corrects(S, j, after)
    case FromRight => Corrects(S, j + 1, after)
    case WithLeft => if j > 0 then Corrects(LessSeps(S, j), j - 1, after) else S
    case WithRight => Corrects(LessSeps(S, j + 1), j, after)
  }

  /** A deletion from leaf j: the repair, and then the separator of the leaf itself if the first byte of its first key has
      changed and the leaf was not merged. */
  function DropSeps(S: seq<int>, after: seq<seq<Slot>>, j: nat, how: Mend, changed: bool): seq<int> {
    var T := MendSeps(S, after, j, how);
    if changed && !how.WithLeft? && !how.WithRight? then Corrects(T, j, after) else T
  }

  /** The leaf in which a key is looked up: the last one whose separator is not greater, or the first. */
  function LeafNumber(S: seq<int>, key: int): nat {
    if |S| <= 1 || key < S[|S| - 1] then (if |S| <= 1 then 0 else LeafNumber(S[..|S| - 1], key)) else |S| - 1
  }

  // There are no separators above a leaf that is the root.
  lemma SepsThere(P: Pages, lv: seq<seq<int>>)
    ensures |lv| < 2 ==> Seps(P, lv) == []
  {
  }

  /** The sizes: a leaf is split when it has `order` keys, of which order / 2 stay; it is mended when it has fewer than
      (order + 1) / 2 - 1 keys and is not the root. */
  lemma LeafSizes(leaves: seq<seq<Slot>>, j: nat, s: seq<Slot>, order: nat)
    requires order >= 3 && j < |leaves| && |s| == order
    ensures var split := SplitInto(leaves, j, s, order);
      && |split| == |leaves| + 1 && |split[j]| == order / 2 && |split[j + 1]| == order - order / 2
      && split[j] + split[j + 1] == s && forall k :: 0 <= k < |leaves| && k != j ==> split[if k < j then k else k + 1] == leaves[k]
    ensures Enough(false, order) == (order + 1) / 2 - 1 && Enough(true, order) == 1
  {
  }

  // ---- lookups

  lemma {:induction false} NumberIs(S: seq<int>, key: int, j: nat)
    requires j < |S| && (j > 0 ==> S[j] <= key) && (forall k :: j < k < |S| ==> key < S[k])
    ensures LeafNumber(S, key) == j
  {
    if j + 1 < |S| {
      NumberIs(S[..|S| - 1], key, j);
    }
  }

  /** The leaf that covers a key is the one that the separators give. */
  lemma CoversNumber(P: Pages, lv: seq<seq<int>>, root: int, order: nat, j: nat, key: int)
    requires Tree(P, lv, root, order) && Covers(P, lv, 0, j, key)
    ensures |lv| == 1 ==> j == 0
    ensures j == LeafNumber(Seps(P, lv), key)
  {
    hide Flat;
    if |lv| > 1 {
      assert LinkAt(P, lv, 0, true);
      LevelAscending(P, lv, 1, -1, true);
      NumberIs(Seps(P, lv), key, j);
    }
  }

  // ---- insertion

  // A page on no level above the leaves changes.
  lemma SepsFrame(P: Pages, Q: Pages, lv: seq<seq<int>>)
    requires |lv| > 1 ==> SameSlots(P, Q, lv[1])
    ensures Seps(Q, lv) == Seps(P, lv)
  {
    if |lv| > 1 {
      FlatFrame(P, Q, lv[1]);
    }
  }

  lemma SepsLeaf(P: Pages, Q: Pages, lv: seq<seq<int>>, j: nat, n: Node)
    requires Distinct(lv) && lv != [] && j < |lv[0]| && Q == P[lv[0][j] := n]
    ensures Seps(Q, lv) == Seps(P, lv)
  {
    if |lv| > 1 {
      ElsewhereNot(lv, 0, j, 1);
    }
    SepsFrame(P, Q, lv);
  }

  /** Splitting a page does not touch the separators. */
  lemma SepsSplit(P: Pages, Q: Pages, lv: seq<seq<int>>, order: nat, h: nat, j: nat, n: int)
    requires Nodes(P, lv, order) && h < |lv| && j < |lv[h]| && SplitOf(P, Q, lv[h][j], n, order)
    ensures Seps(Q, WithPage(lv, h, j, n)) == Seps(P, lv)
  {
    hide Flat;
    if |lv| > 1 {
      SplitSlots(P, Q, lv, order, h, j, n, 1);
      if h == 1 {
        FlatSplit(P, Q, lv[1], j, n);
      } else {
        SepsFrame(P, Q, lv);
      }
    }
  }

  /** The slot of the new page in its parent: above the leaves it is a separator. */
  lemma SepsGiven(P: Pages, Q: Pages, lv: seq<seq<int>>, h: nat, j: nat, q: nat, i: nat, v: Slot)
    requires Distinct(lv) && h + 1 < |lv| && q < |lv[h + 1]| && lv[h + 1][q] in P && i < |P[lv[h + 1][q]].slots|
    requires P[lv[h + 1][q]].spare != [] && j == Offset(P, lv[h + 1], q) + i
    requires Q == P[lv[h + 1][q] := InsertAt(P[lv[h + 1][q]], i + 1, v)]
    ensures forall left :: Seps(Q, lv) == UpSeps(Seps(P, lv), h, j, left, v.key)
  {
    hide Flat;
    if h == 0 {
      InsertFlat(P, Q, lv[1], q, i + 1, v);
      KeysInserted(Flat(P, lv[1]), j + 1, v);
      FlatAt(P, lv[1], q, i);
    } else {
      ElsewhereNot(lv, h + 1, q, 1);
      SepsFrame(P, Q, lv);
    }
  }

  lemma KeysInserted(F: seq<Slot>, g: nat, v: Slot)
    requires g <= |F|
    ensures Keys(InsertSlot(F, g, v)) == Keys(F)[..g] + [v.key] + Keys(F)[g..]
  {
  }

  /** A new root: above a single leaf it brings the first separators. */
  lemma SepsRoot(P: Pages, Q: Pages, lv: seq<seq<int>>, root: int, order: nat, h: nat, r: int, tight: bool)
    requires Pending(P, lv, root, order, h, 0, tight) && h + 1 == |lv| && RootAdded(P, Q, root, lv[h][1], r, order)
    ensures Seps(Q, lv + [[r]]) == UpSeps(Seps(P, lv), h, 0, SlotsOf(P, lv[h][0])[0].key, SlotsOf(P, lv[h][1])[0].key)
  {
    if h == 0 {
      FlatOne(Q, r);
      assert (lv + [[r]])[1] == [r];
    } else {
      RootFrame(P, Q, lv, root, order, h, r, tight, 1);
      FlatFrame(P, Q, lv[1]);
      assert (lv + [[r]])[1] == lv[1];
    }
  }

  // ---- maintain_parent

  lemma KeysRekeyed(F: seq<Slot>, j: nat, key: int)
    requires j < |F|
    ensures Keys(Rekey(F, j, key)) == Keys(F)[j := key]
  {
  }

  lemma KeptUpTo(P: Pages, Q: Pages, lv: seq<seq<int>>, h: nat, g: nat)
    requires KeysAbove(P, Q, lv, h) && g <= h && g < |lv|
    ensures SameSlots(P, Q, lv[g])
  {
    forall k | 0 <= k < |lv[g]| ensures SlotsOf(Q, lv[g][k]) == SlotsOf(P, lv[g][k]) {
      assert lv[g][k] in P ==> Q[lv[g][k]] == P[lv[g][k]];
    }
  }

  /** From leaf j it corrects separator j, from higher up none. */
  lemma SepsSettled(P: Pages, Q: Pages, lv: seq<seq<int>>, h: nat, j: nat)
    requires Settled(P, Q, lv, h, j)
    ensures Seps(Q, lv) == if h > 0 then Seps(P, lv) else CorrectedSep(Seps(P, lv), j, SlotsOf(P, lv[0][j])[0].key)
  {
    hide Flat, Rekey, UpLinks;
    if |lv| > 1 {
      if h > 0 {
        KeptUpTo(P, Q, lv, h, 1);
        SepsFrame(P, Q, lv);
      } else {
        KeysRekeyed(Flat(P, lv[1]), j, SlotsOf(P, lv[0][j])[0].key);
      }
    }
  }

  // ---- deletion

  /** Slots that move between two neighbours leave the separators alone. */
  lemma SepsShifted(P: Pages, Q: Pages, lv: seq<seq<int>>, order: nat, h: nat, j: nat)
    requires Nodes(P, lv, order) && h < |lv| && j + 1 < |lv[h]| && Shifted(P, Q, lv[h][j], lv[h][j + 1], order)
    ensures Seps(Q, lv) == Seps(P, lv)
  {
    hide Flat;
    ShiftedFlat(P, Q, lv, order, h, j);
    if |lv| > 1 && h != 1 {
      forall k | 0 <= k < |lv[1]| ensures SlotsOf(Q, lv[1][k]) == SlotsOf(P, lv[1][k]) {
        assert GoodPage(P, lv[1][k], false, order);
      }
      SepsFrame(P, Q, lv);
    }
  }

  lemma KeysRemoved(F: seq<Slot>, g: nat)
    requires g < |F|
    ensures Keys(RemoveSlot(F, g)) == Without(Keys(F), g)
  {
  }

  /** A merge of leaves takes out the separator of the right one, one of inner pages none. */
  lemma SepsMerged(P: Pages, Q: Pages, lv: seq<seq<int>>, order: nat, h: nat, j: nat, q: nat, i: nat)
    requires Nodes(P, lv, order) && MergeAt(P, Q, lv, order, h, j, q, i)
    ensures Seps(Q, WithoutPage(lv, h, j + 1)) == if h > 0 then Seps(P, lv) else LessSeps(Seps(P, lv), j + 1)
  {
    hide Flat;
    var lw := WithoutPage(lv, h, j + 1);
    MergeFlat(P, Q, lv, order, h, j, q, i);
    if h == 0 {
      assert lw[1] == lv[1];
      KeysRemoved(Flat(P, lv[1]), j + 1);
    } else if h > 1 {
      assert lw[1] == lv[1];
      MergeSlots(P, Q, lv, order, h, j, q, i, 1);
      SepsFrame(P, Q, lv);
    }
  }

  /** After a borrowing on level h. */
  lemma SepsBorrowed(P: Pages, P1: Pages, P2: Pages, Q: Pages, lv: seq<seq<int>>, order: nat, h: nat, j: nat)
    requires Nodes(P, lv, order) && h < |lv| && j + 1 < |lv[h]| && Shifted(P, P1, lv[h][j], lv[h][j + 1], order)
    requires Settled(P1, P2, lv, h, j + 1) && Q.Keys == P2.Keys && forall y :: y in P2 ==> Q[y].slots == P2[y].slots
    ensures Seps(Q, lv) == if h > 0 then Seps(P, lv) else CorrectedSep(Seps(P, lv), j + 1, SlotsOf(P1, lv[0][j + 1])[0].key)
  {
    hide Seps, Shifted, Settled, Flat;
    SepsShifted(P, P1, lv, order, h, j);
    SepsSettled(P1, P2, lv, h, j + 1);
    SepsFrame(P2, Q, lv);
  }

  lemma SepsCollapsed(P: Pages, Q: Pages, lv: seq<seq<int>>, root: int, c: int)
    requires Collapsed(P, Q, lv, root, c)
    ensures |lv| > 2 ==> Seps(Q, lv[..|lv| - 1]) == Seps(P, lv)
    ensures |lv| == 2 ==> Seps(Q, lv[..|lv| - 1]) == []
  {
    if |lv| > 2 {
      SepsFrame(P, Q, lv);
    }
  }
}
