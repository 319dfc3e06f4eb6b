/** Which insertions lose no pair: those all of whose splits copy every slot of the upper half.

    Whether a split does so depends on the keys it moves alone. The keys that a page will hold when it is split can be
    read off the tree before the insertion, from the leaf upwards. */
module IxClean {
  import opened Defs
  import opened IxNode
  import opened IxLevels
  import opened IxTree
  import opened IxInsert
  import opened IxOps

  // The number of slots from which on a page is split.
  function Limit(leaf: bool, order: nat): nat {
    if leaf then MaxSize(order) - 1 else MaxSize(order)
  }

  // The number of slots that stay in a page that is split.
  function LeftPart(leaf: bool, order: nat): nat {
    if leaf then (MaxSize(order) - 1) / 2 else MinSize(order)
  }

  // The keys of a page after `key` was inserted.
  function WithKey(s: seq<Slot>, key: int): seq<int> {
    var pos := LowerBound(s, key);
    if pos < |s| && s[pos].key == key then Keys(s) else Keys(s)[..pos] + [key] + Keys(s)[pos..]
  }

  // The place behind the first slot that names the child, or behind all slots.
  function Behind(s: seq<Slot>, child: int): (i: nat)
    ensures i <= |s|
    ensures i > 0 && s[i - 1].rid.pageNo != child ==> i == |s|
    ensures forall k :: 0 <= k < i - 1 ==> s[k].rid.pageNo != child
  {
    if s == [] then 0 else if s[0].rid.pageNo == child then 1 else 1 + Behind(s[1..], child)
  }

  // The keys of an inner page after a slot with `key` was put behind that of the child.
  function WithSlot(s: seq<Slot>, child: int, key: int): seq<int> {
    Keys(s)[..Behind(s, child)] + [key] + Keys(s)[Behind(s, child)..]
  }

  /** When page p gets these keys, it is not split, or it is and all keys of the upper half arrive, and the same holds of
      its parent, which gets the first of them. */
  ghost predicate CleanUp(P: Pages, root: int, order: nat, same: seq<int> -> bool, p: int, leaf: bool, keys: seq<int>, up: nat)
    decreases up
  {
    |keys| < Limit(leaf, order) ||
    (LeftPart(leaf, order) < |keys| && Clean(keys[LeftPart(leaf, order)..], same) &&
     (p == root ||
      (up > 0 && CleanUp(P, root, order, same, Par(P, p), false,
                         WithSlot(SlotsOf(P, Par(P, p)), p, keys[LeftPart(leaf, order)]), up - 1))))
  }

  // The pages of the levels from h on.
  ghost function Above(lv: seq<seq<int>>, h: nat): set<int> {
    set x, k | h <= x < |lv| && 0 <= k < |lv[x]| :: lv[x][k]
  }

  // What the way up from a page in A looks at is the same in P and Q.
  ghost predicate SameAbove(P: Pages, Q: Pages, root: int, A: set<int>) {
    forall y :: y in A ==> Par(P, y) == Par(Q, y) && (y != root ==> Par(P, y) in A && SlotsOf(P, Par(P, y)) == SlotsOf(Q, Par(P, y)))
  }

  lemma {:induction false} CleanFrame(P: Pages, Q: Pages, root: int, order: nat, same: seq<int> -> bool, p: int, leaf: bool, keys: seq<int>,
      up: nat, A: set<int>)
    requires SameAbove(P, Q, root, A) && p in A
    ensures CleanUp(P, root, order, same, p, leaf, keys, up) <==> CleanUp(Q, root, order, same, p, leaf, keys, up)
    decreases up
  {
    if up > 0 && p != root && LeftPart(leaf, order) < |keys| {
      CleanFrame(P, Q, root, order, same, Par(P, p), false, WithSlot(SlotsOf(P, Par(P, p)), p, keys[LeftPart(leaf, order)]), up - 1, A);
    }
  }

  // The parent of a page of level x is a page of the level above.
  lemma ParentAbove(P: Pages, lv: seq<seq<int>>, root: int, order: nat, ex: int, tight: bool, x: nat, k: nat)
    requires TreeBut(P, lv, root, order, ex, tight) && x < |lv| && k < |lv[x]| && lv[x][k] != root
    ensures x + 1 < |lv| && Par(P, lv[x][k]) in lv[x + 1]
  {
    TopIsRoot(P, lv, root);
    if x + 1 < |lv| {
      assert LinkAt(P, lv, x, tight);
      var q, i := ParentOf(P, lv[x + 1], lv[x], k);
    }
  }

  /** Where only slots of pages up to level h have changed, the way up from level h is the same. */
  lemma AboveSame(P: Pages, Q: Pages, lv: seq<seq<int>>, root: int, order: nat, ex: int, tight: bool, h: nat)
    requires TreeBut(P, lv, root, order, ex, tight) && h < |lv|
    requires forall x, k :: h <= x < |lv| && 0 <= k < |lv[x]| ==> Par(P, lv[x][k]) == Par(Q, lv[x][k])
    requires forall x, k :: h < x < |lv| && 0 <= k < |lv[x]| ==> SlotsOf(P, lv[x][k]) == SlotsOf(Q, lv[x][k])
    ensures SameAbove(P, Q, root, Above(lv, h))
  {
    hide TreeBut, Par, SlotsOf;
    forall x, k | h <= x < |lv| && 0 <= k < |lv[x]| && lv[x][k] != root
      ensures Par(P, lv[x][k]) in Above(lv, h) && SlotsOf(P, Par(P, lv[x][k])) == SlotsOf(Q, Par(P, lv[x][k]))
    {
      ParentAbove(P, lv, root, order, ex, tight, x, k);
      var q :| 0 <= q < |lv[x + 1]| && lv[x + 1][q] == Par(P, lv[x][k]);
    }
  }

  // The split that is due moves all slots.
  lemma CleanHere(P: Pages, root: int, order: nat, same: seq<int> -> bool, p: int, leaf: bool, up: nat)
    requires p in P && CleanUp(P, root, order, same, p, leaf, Keys(P[p].slots), up) && |P[p].slots| >= Limit(leaf, order)
    ensures LeftPart(leaf, order) < |P[p].slots| && Clean(Keys(P[p].slots[LeftPart(leaf, order)..]), same)
  {
    var l := LeftPart(leaf, order);
    assert Keys(P[p].slots[l..]) == Keys(P[p].slots)[l..];
  }

  /** After page j of level h was split, its parent is next. */
  lemma CleanGoesUp(P: Pages, Q: Pages, lv: seq<seq<int>>, root: int, order: nat, same: seq<int> -> bool, h: nat, j: nat, n: int, tight: bool)
    requires h < |lv| && j < |lv[h]| && TreeBut(P, lv, root, order, lv[h][j], tight) && SplitOf(P, Q, lv[h][j], n, order)
    requires |SlotsOf(Q, lv[h][j])| == LeftPart(h == 0, order) && |P[lv[h][j]].slots| >= Limit(h == 0, order)
    requires CleanUp(P, root, order, same, lv[h][j], h == 0, Keys(P[lv[h][j]].slots), |lv| - h - 1)
    ensures SlotsOf(Q, lv[h][j]) != [] && SlotsOf(Q, n) != []
    ensures lv[h][j] != root ==>
      && h + 2 <= |lv|
      && CleanUp(Q, root, order, same, Par(Q, lv[h][j]), false, WithSlot(SlotsOf(Q, Par(Q, lv[h][j])), lv[h][j], SlotsOf(Q, n)[0].key), |lv| - h - 2)
  {
    hide TreeBut, WithSlot, Clean, SameAbove;
    var p, l := lv[h][j], LeftPart(h == 0, order);
    assert P[p].slots[l] == SlotsOf(Q, n)[0];
    if p != root {
      ParentAbove(P, lv, root, order, p, tight, h, j);
      SplitSameAbove(P, Q, lv, root, order, h, j, n, tight);
      var q :| 0 <= q < |lv[h + 1]| && lv[h + 1][q] == Par(P, p);
      SameAt(P, Q, root, Above(lv, h), p);
      assert lv[h + 1][q] in Above(lv, h);
      CleanFrame(P, Q, root, order, same, Par(P, p), false, WithSlot(SlotsOf(P, Par(P, p)), p, SlotsOf(Q, n)[0].key), |lv| - h - 2, Above(lv, h));
    }
  }

  lemma SameAt(P: Pages, Q: Pages, root: int, A: set<int>, p: int)
    requires SameAbove(P, Q, root, A) && p in A && p != root
    ensures Par(P, p) == Par(Q, p) && SlotsOf(P, Par(P, p)) == SlotsOf(Q, Par(P, p))
  {
  }

  // A split leaves the levels above alone.
  lemma SplitSameAbove(P: Pages, Q: Pages, lv: seq<seq<int>>, root: int, order: nat, h: nat, j: nat, n: int, tight: bool)
    requires h < |lv| && j < |lv[h]| && TreeBut(P, lv, root, order, lv[h][j], tight) && SplitOf(P, Q, lv[h][j], n, order)
    ensures SameAbove(P, Q, root, Above(lv, h))
  {
    hide Nodes, Links, Chain, LeavesSorted, Sizes, Rooted, SplitOf;
    forall x, k | h <= x < |lv| && 0 <= k < |lv[x]|
      ensures Par(P, lv[x][k]) == Par(Q, lv[x][k]) && (x > h ==> SlotsOf(P, lv[x][k]) == SlotsOf(Q, lv[x][k]))
    {
      SplitParents(P, Q, lv, order, h, j, n, tight, x, lv[x][k]);
      SplitSlots(P, Q, lv, order, h, j, n, x);
    }
    AboveSame(P, Q, lv, root, order, lv[h][j], tight, h);
  }

  // The split of an inner page leaves the leaves alone.
  lemma SplitLeavesAlone(P: Pages, Q: Pages, lv: seq<seq<int>>, root: int, order: nat, h: nat, j: nat, n: int, tight: bool)
    requires 0 < h < |lv| && j < |lv[h]| && TreeBut(P, lv, root, order, lv[h][j], tight) && SplitOf(P, Q, lv[h][j], n, order)
    ensures SameSlots(P, Q, lv[0])
  {
    hide Links, Chain, LeavesSorted, Sizes, Rooted, SplitOf;
    SplitSlots(P, Q, lv, order, h, j, n, 0);
  }

  // A pair on a leaf leaves the levels above alone.
  lemma CleanAfterInsert(P: Pages, Q: Pages, lv: seq<seq<int>>, root: int, order: nat, same: seq<int> -> bool, j: nat, keys: seq<int>, tight: bool)
    requires lv != [] && j < |lv[0]| && TreeBut(Q, lv, root, order, lv[0][j], tight)
    requires forall p :: Par(P, p) == Par(Q, p) && (p != lv[0][j] ==> SlotsOf(P, p) == SlotsOf(Q, p))
    requires CleanUp(P, root, order, same, lv[0][j], true, keys, |lv| - 1)
    ensures CleanUp(Q, root, order, same, lv[0][j], true, keys, |lv| - 1)
  {
    hide Links, Chain, LeavesSorted, Sizes, Rooted, CleanUp, SameAbove;
    forall x, k | 0 < x < |lv| && 0 <= k < |lv[x]| ensures lv[x][k] != lv[0][j] {
      ElsewhereNot(lv, 0, j, x);
    }
    AboveSame(Q, P, lv, root, order, lv[0][j], tight, 0);
    CleanFrame(Q, P, root, order, same, lv[0][j], true, keys, |lv| - 1, Above(lv, 0));
  }

  lemma InsertSame(n: Node, key: int, rid: Rid)
    requires n.spare != []
    ensures SameHeader(n, Insert(n, key, rid))
  {
  }

  lemma InsertKeys(n: Node, key: int, rid: Rid)
    requires n.spare != []
    ensures Keys(Insert(n, key, rid).slots) == WithKey(n.slots, key)
  {
  }

  // The slot found by find_child is the one WithSlot means.
  lemma SlotKeys(n: Node, pos: nat, slot: Slot)
    requires n.spare != [] && pos < |n.slots|
    requires forall i :: 0 <= i < |n.slots| && n.slots[i].rid.pageNo == n.slots[pos].rid.pageNo ==> i == pos
    ensures Keys(InsertAt(n, pos + 1, slot).slots) == WithSlot(n.slots, n.slots[pos].rid.pageNo, slot.key)
  {
    BehindIs(n.slots, pos);
  }

  lemma {:induction false} BehindIs(s: seq<Slot>, pos: nat)
    requires pos < |s| && forall i :: 0 <= i < |s| && s[i].rid.pageNo == s[pos].rid.pageNo ==> i == pos
    ensures Behind(s, s[pos].rid.pageNo) == pos + 1
  {
    if pos > 0 {
      BehindIs(s[1..], pos - 1);
    }
  }
}
