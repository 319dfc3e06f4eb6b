/** What a deletion does to the leaves: a leaf that has become too small borrows a slot from a neighbour below the same
    parent, or the two become one. */
module IxMend {
  import opened IxNode
  import opened IxLevels
  import opened IxTree
  import opened IxInsert
  import opened IxBorrow
  import opened IxMerge
  import opened IxClimb
  import opened IxOps

  datatype Mend = Stays | FromLeft | FromRight | WithLeft | WithRight

  // The number of keys from which on a leaf stays as it is.
  function Enough(top: bool, order: nat): int {
    if top then 1 else MinSize(order) - 1
  }

  /** How leaf j is mended that is child number `place` of `count` children of its parent: the left neighbour lends if it
      can, then the right one; if neither can, the leaf goes together with the left one, or with the right one if it is a
      first child. */
  function HowMended(leaves: seq<seq<Slot>>, j: nat, place: nat, count: nat, order: nat, top: bool): Mend
    requires place <= j < |leaves| && j + count <= |leaves| + place
  {
    if top || |leaves[j]| >= Enough(top, order) then Stays
    else if place > 0 && |leaves[j - 1]| > Enough(top, order) then FromLeft
    else if place + 1 < count && |leaves[j + 1]| > Enough(top, order) then FromRight
    else if place > 0 then WithLeft
    else WithRight
  }

  // The repair needs the neighbour it takes from.
  predicate Mendable(leaves: seq<seq<Slot>>, j: nat, how: Mend) {
    && j < |leaves|
    && (how.FromLeft? || how.WithLeft? ==> j > 0)
    && (how.FromRight? || how.WithRight? ==> j + 1 < |leaves|)
    && (how.FromLeft? ==> leaves[j - 1] != [])
    && (how.FromRight? ==> leaves[j + 1] != [])
  }

  /** The leaves after the repair of leaf j. */
  function Mended(leaves: seq<seq<Slot>>, j: nat, how: Mend): seq<seq<Slot>>
    requires Mendable(leaves, j, how)
  {
    match how
    case Stays => leaves
    case FromLeft =>
      var s := leaves[j - 1];
      leaves[j - 1 := s[..|s| - 1]][j := [s[|s| - 1]] + leaves[j]]
    case FromRight =>
      var s := leaves[j + 1];
      leaves[j := leaves[j] + [s[0]]][j + 1 := s[1..]]
    case WithLeft => Together(leaves, j - 1)
    case WithRight => Together(leaves, j)
  }

  function Together(leaves: seq<seq<Slot>>, j: nat): seq<seq<Slot>>
    requires j + 1 < |leaves|
  {
    leaves[..j] + [leaves[j] + leaves[j + 1]] + leaves[j + 2..]
  }

  /** The number of the leaf whose separator is corrected by the repair, if one is. */
  function Corrected(j: nat, how: Mend): nat {
    match how
    case WithLeft => if j > 0 then j - 1 else 0
    case FromRight => j + 1
    case _ => j
  }

  // The keys that the repair writes into inner pages, given the leaves after it.
  function MendKeys(after: seq<seq<Slot>>, j: nat, how: Mend): set<int> {
    if how.Stays? || Corrected(j, how) >= |after| || after[Corrected(j, how)] == [] then {}
    else {after[Corrected(j, how)][0].key}
  }

  /** Leaf j is child number `place` of `count` children of its parent. */
  ghost predicate Siblings(P: Pages, lv: seq<seq<int>>, j: nat, place: nat, count: nat) {
    && lv != [] && place <= j < |lv[0]| && j + count <= |lv[0]| + place
    && (|lv| > 1 ==> exists q :: 0 <= q < |lv[1]| && j == Offset(P, lv[1], q) + place && count == |SlotsOf(P, lv[1][q])|)
  }

  lemma SiblingsAt(P: Pages, lv: seq<seq<int>>, j: nat, q: nat, i: nat)
    requires |lv| > 1 && q < |lv[1]| && i < |SlotsOf(P, lv[1][q])| && j == Offset(P, lv[1], q) + i
    requires Linked(Flat(P, lv[1]), lv[0])
    ensures Siblings(P, lv, j, i, |SlotsOf(P, lv[1][q])|)
  {
    FlatStretch(P, lv[1], q);
  }

  /** `how` is the repair that the sizes of the leaves and their places below their parent demand. */
  ghost predicate FitsSizes(P: Pages, lv: seq<seq<int>>, leaves: seq<seq<Slot>>, j: nat, how: Mend, order: nat) {
    && lv != [] && |leaves| == |lv[0]|
    && exists place, count ::
         Siblings(P, lv, j, place, count) && how == HowMended(leaves, j, place, count, order, IsTop(lv, 0))
  }

  // The repair of leaf j, child number i of page q above.
  lemma TheRepair(P: Pages, lv: seq<seq<int>>, root: int, order: nat, j: nat, q: nat, i: nat) returns (how: Mend)
    requires |lv| > 1 && j < |lv[0]| && TreeBut(P, lv, root, order, lv[0][j], true) && |SlotsOf(P, lv[0][j])| < MinSize(order) - 1
    requires q < |lv[1]| && i < |SlotsOf(P, lv[1][q])| && j == Offset(P, lv[1], q) + i && |SlotsOf(P, lv[1][q])| >= 2
    ensures FitsSizes(P, lv, LeafSlots(P, lv[0]), j, how, order) && Mendable(LeafSlots(P, lv[0]), j, how)
    ensures i <= j && (i + 1 < |SlotsOf(P, lv[1][q])| ==> j + 1 < |lv[0]|)
    ensures how ==
      if i > 0 && |SlotsOf(P, lv[0][j - 1])| > MinSize(order) - 1 then FromLeft
      else if i + 1 < |SlotsOf(P, lv[1][q])| && |SlotsOf(P, lv[0][j + 1])| > MinSize(order) - 1 then FromRight
      else if i > 0 then WithLeft else WithRight
  {
    hide TreeBut, SlotsOf, Offset;
    LeavesLinked(P, lv, root, order, lv[0][j]);
    SiblingsAt(P, lv, j, q, i);
    how := HowMended(LeafSlots(P, lv[0]), j, i, |SlotsOf(P, lv[1][q])|, order, IsTop(lv, 0));
  }

  lemma LeavesLinked(P: Pages, lv: seq<seq<int>>, root: int, order: nat, ex: int)
    requires |lv| > 1 && TreeBut(P, lv, root, order, ex, true)
    ensures Linked(Flat(P, lv[1]), lv[0])
  {
    assert LinkAt(P, lv, 0, true);
  }

  // A leaf that is the root or has keys enough stays as it is.
  lemma NoRepair(P: Pages, lv: seq<seq<int>>, root: int, order: nat, j: nat, ex: int)
    requires lv != [] && j < |lv[0]| && TreeBut(P, lv, root, order, ex, true)
    requires IsTop(lv, 0) || |SlotsOf(P, lv[0][j])| >= MinSize(order) - 1
    ensures FitsSizes(P, lv, LeafSlots(P, lv[0]), j, Stays, order) && Mendable(LeafSlots(P, lv[0]), j, Stays)
  {
    if |lv| > 1 {
      assert LinkAt(P, lv, 0, true);
      var q, i := ParentOf(P, lv[1], lv[0], j);
      SiblingsAt(P, lv, j, q, i);
    } else {
      assert Siblings(P, lv, j, j, |lv[0]|);
    }
  }

  // ---- the steps on the leaves

  // Leaf j + 1 lends its first slot.
  lemma LentFirst(P: Pages, Q: Pages, lo: seq<int>, j: nat)
    requires j + 1 < |lo| && SlotsOf(P, lo[j + 1]) != []
    requires SlotsOf(Q, lo[j]) == SlotsOf(P, lo[j]) + [SlotsOf(P, lo[j + 1])[0]] && SlotsOf(Q, lo[j + 1]) == SlotsOf(P, lo[j + 1])[1..]
    requires forall k :: 0 <= k < |lo| && k != j && k != j + 1 ==> SlotsOf(Q, lo[k]) == SlotsOf(P, lo[k])
    ensures LeafSlots(Q, lo) == Mended(LeafSlots(P, lo), j, FromRight)
  {
  }

  // Leaf j lends its last slot.
  lemma LentLast(P: Pages, Q: Pages, lo: seq<int>, j: nat)
    requires j + 1 < |lo| && SlotsOf(P, lo[j]) != []
    requires var s := SlotsOf(P, lo[j]);
      SlotsOf(Q, lo[j + 1]) == [s[|s| - 1]] + SlotsOf(P, lo[j + 1]) && SlotsOf(Q, lo[j]) == s[..|s| - 1]
    requires forall k :: 0 <= k < |lo| && k != j && k != j + 1 ==> SlotsOf(Q, lo[k]) == SlotsOf(P, lo[k])
    ensures LeafSlots(Q, lo) == Mended(LeafSlots(P, lo), j + 1, FromLeft)
  {
  }

  // Leaf j + 1 goes into leaf j.
  lemma GoneTogether(P: Pages, Q: Pages, lo: seq<int>, j: nat)
    requires j + 1 < |lo| && SlotsOf(Q, lo[j]) == SlotsOf(P, lo[j]) + SlotsOf(P, lo[j + 1])
    requires forall k :: 0 <= k < |lo| && k != j && k != j + 1 ==> SlotsOf(Q, lo[k]) == SlotsOf(P, lo[k])
    ensures LeafSlots(Q, Without(lo, j + 1)) == Together(LeafSlots(P, lo), j)
  {
    hide SlotsOf;
    var a, rest := LeafSlots(P, lo), Without(lo, j + 1);
    var s, t := LeafSlots(Q, rest), Together(a, j);
    forall k | 0 <= k < |s| ensures s[k] == t[k] {
      var b := if k <= j then k else k + 1;
      assert rest[k] == lo[b] && s[k] == SlotsOf(Q, lo[b]);
      assert k != j ==> t[k] == a[b];
    }
  }

  lemma SameLeaves(P: Pages, Q: Pages, lo: seq<int>)
    requires SameSlots(P, Q, lo)
    ensures LeafSlots(Q, lo) == LeafSlots(P, lo)
  {
  }

  // A shift on an inner level does not touch the leaves.
  lemma ShiftAbove(P: Pages, Q: Pages, lv: seq<seq<int>>, order: nat, h: nat, j: nat)
    requires Nodes(P, lv, order) && 0 < h < |lv| && j + 1 < |lv[h]| && Shifted(P, Q, lv[h][j], lv[h][j + 1], order)
    ensures SameSlots(P, Q, lv[0])
  {
    forall k | 0 <= k < |lv[0]| ensures SlotsOf(Q, lv[0][k]) == SlotsOf(P, lv[0][k]) {
      assert GoodPage(P, lv[0][k], true, order);
      ElsewhereNot(lv, h, j, 0);
      ElsewhereNot(lv, h, j + 1, 0);
    }
  }

  // A shift between two leaves does not touch the others.
  lemma ShiftedElsewhere(P: Pages, Q: Pages, lv: seq<seq<int>>, order: nat, j: nat)
    requires Nodes(P, lv, order) && j + 1 < |lv[0]| && Shifted(P, Q, lv[0][j], lv[0][j + 1], order)
    ensures forall k :: 0 <= k < |lv[0]| && k != j && k != j + 1 ==> SlotsOf(Q, lv[0][k]) == SlotsOf(P, lv[0][k])
  {
    forall k | 0 <= k < |lv[0]| && k != j && k != j + 1 ensures SlotsOf(Q, lv[0][k]) == SlotsOf(P, lv[0][k]) {
      assert GoodPage(P, lv[0][k], true, order);
    }
  }

  // The leaves after a merge on any level.
  lemma LeavesMerged(P: Pages, Q: Pages, lv: seq<seq<int>>, order: nat, h: nat, j: nat, q: nat, i: nat)
    requires Nodes(P, lv, order) && MergeAt(P, Q, lv, order, h, j, q, i)
    ensures WithoutPage(lv, h, j + 1)[0] == if h == 0 then Without(lv[0], j + 1) else lv[0]
    ensures LeafSlots(Q, WithoutPage(lv, h, j + 1)[0]) ==
      if h == 0 then Together(LeafSlots(P, lv[0]), j) else LeafSlots(P, lv[0])
  {
    hide Flat;
    MergeSlots(P, Q, lv, order, h, j, q, i, 0);
    if h == 0 {
      GoneTogether(P, Q, lv[0], j);
    }
  }

  lemma PageOfLevel(P: Pages, lv: seq<seq<int>>, order: nat, h: nat, j: nat)
    requires Nodes(P, lv, order) && h < |lv| && j < |lv[h]|
    ensures GoodPage(P, lv[h][j], h == 0, order)
  {
  }

  lemma TreeNodes(P: Pages, lv: seq<seq<int>>, root: int, order: nat, ex: int)
    requires TreeBut(P, lv, root, order, ex, true)
    ensures Nodes(P, lv, order)
  {
  }

  // maintain_parent does not touch the pages up to level h.
  lemma SettledBelow(P: Pages, Q: Pages, lv: seq<seq<int>>, h: nat, j: nat, m: nat)
    requires Settled(P, Q, lv, h, j) && m < |lv[h]|
    ensures lv[h][m] in P ==> lv[h][m] in Q && Q[lv[h][m]] == P[lv[h][m]]
    ensures Q.Keys == P.Keys && SameSlots(P, Q, lv[0])
  {
    forall k | 0 <= k < |lv[0]| ensures SlotsOf(Q, lv[0][k]) == SlotsOf(P, lv[0][k]) {
      assert lv[0][k] in P ==> Q[lv[0][k]] == P[lv[0][k]];
    }
  }

  // Telling children their parent changes no slots.
  lemma AdoptedFrame(P: Pages, Q: Pages, p: int)
    requires Adopted(P, Q, p)
    ensures Q.Keys == P.Keys
    ensures forall y :: y in P ==> Q[y].slots == P[y].slots && Q[y].spare == P[y].spare && Q[y].isLeaf == P[y].isLeaf
  {
  }
}
