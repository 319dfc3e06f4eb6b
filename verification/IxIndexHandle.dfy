/** The B+ tree index: the file header fields and the pages, and the operations on them.

    A page is looked up by its number each time it is read or written, so that two handles on one page
    see each other's writes, as they do in the buffer pool.
  */
module IxIndexHandle {
  import opened Defs
  import opened IxNode
  import opened IxLevels
  import opened IxTree
  import opened IxMaintain
  import opened IxClimb
  import opened IxInsert
  import opened IxParent
  import opened IxBorrow
  import opened IxMerge
  import opened IxRestore
  import opened IxContents
  import opened IxOps
  import opened IxShrink
  import opened IxSpare
  import opened IxRoute
  import opened IxClean
  import opened IxMend
  import opened IxSeparators
  import opened IxPositions

  datatype Result = Found(rid: Rid) | IndexEntryNotFound

  class IxIndexHandle {
    // the page store and its page counter
    var pages: Pages
    var nextPageNo: int
    // file header
    var rootPage: int
    var firstLeaf: int
    var lastLeaf: int
    var numPages: int
    const order: nat
    // the first byte of the stored form of a key
    const firstByte: int -> int
    // the comparison by which insert_pairs tells a repeated key
    const same: seq<int> -> bool
    // the pages of the tree, level by level
    ghost var lv: seq<seq<int>>
    // spare slots that may mislead a search, and the keys that have ever been on a leaf or on an inner page
    ghost var stale: Strays
    ghost var seen: Seen

    ghost predicate Allocated()
      reads this
    {
      nextPageNo > IX_LEAF_HEADER_PAGE && (forall p :: p in pages ==> p < nextPageNo) && Known(pages, seen) && seen.Valid()
    }

    ghost predicate Counted()
      reads this
    {
      numPages == 2 + Total(lv)
    }

    ghost predicate Ends()
      reads this
    {
      lv != [] && lv[0] != [] && firstLeaf == lv[0][0] && lastLeaf == lv[0][|lv[0]| - 1]
    }

    /** The pages form a B+ tree with the root, first and last leaf and page count of the file header. */
    ghost predicate Sound()
      reads this
    {
      Tree(pages, lv, rootPage, order) && Allocated() && Counted() && Ends()
    }

    /** Only stray slots can mislead a search, and they hold keys that have been there. */
    ghost predicate Calm()
      reads this
    {
      Quiet(pages, lv, stale) && stale.Within(seen)
    }

    ghost predicate Valid()
      reads this
    {
      Sound() && Calm()
    }

    /** The tree is gone: nothing is left but the header of the leaf ring. */
    ghost predicate Emptied()
      reads this
    {
      && rootPage == IX_NO_PAGE && firstLeaf == IX_LEAF_HEADER_PAGE && lastLeaf == IX_LEAF_HEADER_PAGE
      && IX_LEAF_HEADER_PAGE in pages
      && pages[IX_LEAF_HEADER_PAGE].next == IX_LEAF_HEADER_PAGE
      && pages[IX_LEAF_HEADER_PAGE].prev == IX_LEAF_HEADER_PAGE
      && numPages == 2
    }

    /** The stored pairs from left to right. */
    ghost function Entries(): seq<Slot>
      reads this
    {
      if lv == [] then [] else Flat(pages, lv[0])
    }

    /** The index as a map. */
    ghost function Contents(): map<int, Rid>
      reads this
    {
      ToMap(Entries())
    }

    /** The stored pairs, leaf by leaf. */
    ghost function Leaves(): seq<seq<Slot>>
      reads `pages, `lv
    {
      if lv == [] then [] else LeafSlots(pages, lv[0])
    }

    /** The separators of the leaves, which stand on the level above them. */
    ghost function Separators(): seq<int>
      reads `pages, `lv
    {
      Seps(pages, lv)
    }

    /** No spare slot of an inner page misleads the lookup of `key`. */
    ghost predicate ClearRoute(key: int)
      reads this
    {
      lv != [] && ClearBelow(pages, rootPage, |lv| - 1, key)
    }

    /** The leaf where `key` is looked up. */
    ghost function LeafOf(key: int): int
      reads this
    {
      if lv == [] then rootPage else LeafBelow(pages, rootPage, |lv| - 1, key)
    }

    /** Every split on the way up from the leaf of `key` moves all the slots it should. */
    ghost predicate LosesNothing(key: int)
      reads this
    {
      lv != [] && CleanUp(pages, rootPage, order, same, LeafOf(key), true, WithKey(SlotsOf(pages, LeafOf(key)), key), |lv| - 1)
    }

    /** The way down is clear for every key but those of the strays on inner pages, so for every key that was never on an
        inner page. No spare slot of its leaf holds the key unless a stray on a leaf does, so never a key that was never
        there. */
    lemma KeyClear(key: int)
      requires Valid()
      ensures (forall s :: s in stale.inner ==> s.key != key) ==> ClearRoute(key)
      ensures key !in seen.inner ==> ClearRoute(key)
      ensures LeafOf(key) in pages
      ensures (forall s :: s in stale.leaf ==> s.key != key) ==> !StaleHit(pages[LeafOf(key)], key)
      ensures key !in seen.all ==> !StaleHit(pages[LeafOf(key)], key)
    {
      hide TreeBut, Quiet;
      RouteClear(pages, lv, rootPage, order, key, stale);
    }

    lemma EntriesAscend()
      requires Valid()
      ensures Sorted(Entries())
    {
      hide TreeBut, Flat, Sorted, Quiet, Known;
      SortedEntries(pages, lv, rootPage, order);
    }

    /** create_index: an empty leaf as the root and the header page of the leaf ring. `buffer` is what the
        uncleared page buffer holds where the slots are. */
    constructor (order: nat, firstByte: int -> int, same: seq<int> -> bool, buffer: seq<Slot>)
      requires order >= 3 && |buffer| == order + 1
      ensures Valid() && this.order == order && this.firstByte == firstByte && this.same == same
      ensures Contents() == map[]
      ensures pages == NewPages(buffer) && lv == [[IX_INIT_ROOT_PAGE]]
      ensures stale == NewStale(buffer) && seen == NewSeen(buffer)
    {
      this.order := order;
      this.firstByte := firstByte;
      this.same := same;
      pages := NewPages(buffer);
      nextPageNo := 3;
      rootPage := IX_INIT_ROOT_PAGE;
      firstLeaf := IX_INIT_ROOT_PAGE;
      lastLeaf := IX_INIT_ROOT_PAGE;
      numPages := 3;
      lv := [[IX_INIT_ROOT_PAGE]];
      stale, seen := NewStale(buffer), NewSeen(buffer);
      new;
      hide TreeBut;
      NewTree(buffer, order);
      NewCalm(buffer);
    }

    /** CreateNode: a page of zeros with the next page number. */
    method CreateNode() returns (p: int)
      requires Allocated()
      modifies `pages, `nextPageNo, `numPages
      ensures p == old(nextPageNo) && p !in old(pages) && p > IX_LEAF_HEADER_PAGE
      ensures pages == old(pages)[p := ZeroPage(order)]
      ensures Allocated() && numPages == old(numPages) + 1
    {
      numPages := numPages + 1;
      p := nextPageNo;
      nextPageNo := nextPageNo + 1;
      pages := pages[p := ZeroPage(order)];
    }

    /** find_child: the first slot of `parent` that points to `child`. */
    method FindChild(parent: int, child: int) returns (idx: nat)
      requires parent in pages
      requires exists i :: 0 <= i < |pages[parent].slots| && pages[parent].slots[i].rid.pageNo == child
      ensures idx < |pages[parent].slots| && pages[parent].slots[idx].rid.pageNo == child
    {
      idx := 0;
      while idx < |pages[parent].slots|
        invariant idx <= |pages[parent].slots|
        invariant forall i :: 0 <= i < idx ==> pages[parent].slots[i].rid.pageNo != child
      {
        if pages[parent].slots[idx].rid.pageNo == child {
          break;
        }
        idx := idx + 1;
      }
    }

    /** maintain_child: the child in slot `idx` of an inner page is told its parent. */
    method MaintainChild(p: int, idx: nat)
      requires p in pages && idx < |pages[p].slots|
      requires !pages[p].isLeaf ==> pages[p].slots[idx].rid.pageNo in pages
      modifies this`pages
      ensures var c := old(pages)[p].slots[idx].rid.pageNo;
              pages == if old(pages)[p].isLeaf then old(pages) else old(pages)[c := old(pages)[c].(parent := p)]
    {
      if !pages[p].isLeaf {
        var c := pages[p].slots[idx].rid.pageNo;
        pages := pages[c := pages[c].(parent := p)];
      }
    }

    /** The loop over maintain_child that follows every move of slots. */
    method MaintainChildren(p: int)
      requires p in pages
      requires !pages[p].isLeaf ==>
        forall i :: 0 <= i < |pages[p].slots| ==> pages[p].slots[i].rid.pageNo in pages
      modifies this`pages
      ensures if old(pages)[p].isLeaf then pages == old(pages) else Adopted(old(pages), pages, p)
    {
      ghost var P := pages;
      var i := 0;
      while i < |pages[p].slots|
        invariant pages.Keys == P.Keys && (forall y :: y in P ==> pages[y] == P[y].(parent := pages[y].parent))
        invariant i <= |P[p].slots|
        invariant P[p].isLeaf ==> pages == P
        invariant !P[p].isLeaf ==> forall a :: 0 <= a < i ==> Par(pages, SlotsOf(P, p)[a].rid.pageNo) == p
        invariant forall y :: y in P && pages[y].parent != P[y].parent ==>
          exists a :: 0 <= a < |SlotsOf(P, p)| && SlotsOf(P, p)[a].rid.pageNo == y
      {
        ghost var c := SlotsOf(P, p)[i].rid.pageNo;
        MaintainChild(p, i);
        i := i + 1;
      }
    }

    /** maintain_parent: walks up from node k of level h and corrects separators while they change. */
    method MaintainParent(p: int, ghost h: nat, ghost j: nat)
      requires h < |lv| && j < |lv[h]| && lv[h][j] == p && SlotsOf(pages, p) != []
      requires Nodes(pages, lv, order) && UpLinks(pages, lv, h, h, j) && Rooted(pages, lv, rootPage) && Allocated()
      requires h + 1 < |lv| ==> SlotsOf(pages, p)[0].key in seen.inner
      modifies `pages
      ensures Settled(old(pages), pages, lv, h, j) && Allocated()
    {
      hide Flat, KeysAbove, Rekey, Rooted, Known;
      ghost var P := pages;
      var curr := p;
      ghost var g: nat, k: nat := h, j;
      ClimbStart(pages, lv, order, rootPage, h, j);
      while pages[curr].parent != IX_NO_PAGE
        invariant Climbing(P, pages, lv, order, rootPage, h, g, k, j)
        invariant curr == lv[g][k] && curr in pages && Allocated()
        invariant g + 1 < |lv| ==> SlotsOf(pages, curr)[0].key in seen.inner
        decreases |lv| - g
      {
        var parent := pages[curr].parent;
        ghost var q, i := ParentPlace(pages, lv, order, rootPage, h, g, k);
        var rank := FindChild(parent, curr);
        RankIs(pages, lv, h, g, k, q, i, rank);
        var key := pages[curr].slots[0].key;
        if pages[parent].slots[rank].key == key {
          ClimbStop(P, pages, lv, order, rootPage, h, g, k, j);
          return;
        }
        ghost var B := pages;
        assert GoodPage(B, lv[g + 1][q], false, order);
        SetKeyKept(B, parent, rank, key, seen);
        pages := pages[parent := SetKey(pages[parent], rank, key)];
        ClimbRound(P, B, pages, lv, order, rootPage, h, g, k, q, i, j);
        curr := parent;
        g, k := g + 1, q;
        FirstKnown(pages, curr, seen);
      }
      ClimbTop(P, pages, lv, order, rootPage, h, g, k, j);
    }

    /** FindLeafPage: from the root down to a leaf. */
    method FindLeafPage(key: int) returns (p: int, ghost j: nat)
      requires Valid() && ClearRoute(key)
      ensures p == LeafOf(key) && Covers(pages, lv, 0, j, key) && lv[0][j] == p
    {
      hide Valid, ClearRoute, LeafOf, ClearBelow, LeafBelow, InternalLookup;
      RouteBegins(key);
      p := rootPage;
      ghost var h: nat := |lv| - 1;
      j := 0;
      while !pages[p].isLeaf
        invariant h < |lv| && Covers(pages, lv, h, j, key) && lv[h][j] == p && p in pages
        invariant pages[p].isLeaf <==> h == 0
        invariant ClearBelow(pages, p, h, key) && LeafBelow(pages, p, h, key) == LeafOf(key)
        decreases h
      {
        ghost var j' := StepDown(p, h, j, key);
        p := InternalLookup(pages[p], key);
        h, j := h - 1, j';
      }
      RouteEnds(p, key);
    }

    lemma RouteBegins(key: int)
      requires Valid() && ClearRoute(key)
      ensures |lv| > 0 && Covers(pages, lv, |lv| - 1, 0, key) && lv[|lv| - 1][0] == rootPage && rootPage in pages
      ensures (pages[rootPage].isLeaf <==> |lv| == 1) && ClearBelow(pages, rootPage, |lv| - 1, key)
      ensures LeafBelow(pages, rootPage, |lv| - 1, key) == LeafOf(key)
    {
      hide Flat, Known, Quiet, Links, Chain, LeavesSorted, Sizes, Pick;
      CoversRoot(pages, lv, rootPage, key);
      RootIn(pages, lv, rootPage, order);
    }

    lemma RouteEnds(p: int, key: int)
      ensures LeafBelow(pages, p, 0, key) == p
    {
    }

    // One round of FindLeafPage.
    lemma StepDown(p: int, h: nat, j: nat, key: int) returns (j': nat)
      requires Valid() && 0 < h < |lv| && Covers(pages, lv, h, j, key) && lv[h][j] == p && p in pages && ClearBelow(pages, p, h, key)
      ensures pages[p].spare != [] && var c := InternalLookup(pages[p], key);
        && Covers(pages, lv, h - 1, j', key) && lv[h - 1][j'] == c && c in pages && (pages[c].isLeaf <==> h - 1 == 0)
        && ClearBelow(pages, c, h - 1, key) && LeafBelow(pages, c, h - 1, key) == LeafBelow(pages, p, h, key)
    {
      hide Flat, Known, Quiet, Links, Chain, LeavesSorted, Sizes, Pick;
      InnerNonempty(pages, lv, rootPage, order, h, j);
      InternalLookupExact(pages[p], key);
      j' := RouteStep(pages, lv, h, j, key);
      assert GoodPage(pages, lv[h - 1][j'], h - 1 == 0, order);
    }

    /** GetValue: finds a stored key and its rid; reports an absent key as found exactly when the spare slot
        behind the keys of its leaf still holds it. */
    method GetValue(key: int) returns (found: bool, rid: Rid)
      requires Valid() && ClearRoute(key)
      ensures LeafOf(key) in pages
      ensures found <==> key in Contents() || StaleHit(pages[LeafOf(key)], key)
      ensures key in Contents() ==> rid == Contents()[key]
      ensures found && key !in Contents() ==> rid == pages[LeafOf(key)].spare[0].rid
    {
      ghost var j: nat;
      var leaf: int;
      leaf, j := FindLeafPage(key);
      LeafRoom(pages, lv, rootPage, order, j);
      LeafLookupExact(pages[leaf], key);
      LeafDecides(pages, lv, rootPage, order, j, key);
      var r := LeafLookup(pages[leaf], key);
      found, rid := r.0, r.1;
    }

    /** Whether the way down is clear for a key can be told before a lookup: no page on it has a slot behind its keys that
        holds the key and names another page than the last child. */
    method RouteIsClear(key: int) returns (clear: bool)
      requires Valid()
      ensures clear <==> ClearRoute(key)
    {
      hide Flat, Known, Quiet, Links, Chain, LeavesSorted, Sizes, Pick, Misled;
      var p := rootPage;
      ghost var h: nat, j: nat := |lv| - 1, 0;
      CoversRoot(pages, lv, rootPage, key);
      RootIn(pages, lv, rootPage, order);
      while !pages[p].isLeaf
        invariant h < |lv| && Covers(pages, lv, h, j, key) && lv[h][j] == p && p in pages
        invariant pages[p].isLeaf <==> h == 0
        invariant ClearRoute(key) <==> ClearBelow(pages, p, h, key)
        decreases h
      {
        InnerNonempty(pages, lv, rootPage, order, h, j);
        if Misled(pages[p], key) {
          return false;
        }
        ghost var j' := RouteStep(pages, lv, h, j, key);
        assert GoodPage(pages, lv[h - 1][j'], h - 1 == 0, order);
        p := pages[p].slots[Pick(pages[p].slots, key)].rid.pageNo;
        h, j := h - 1, j';
      }
      clear := true;
    }

    /** Whether an insertion loses pairs can be told before it, too: from the keys of its leaf and of the pages above. */
    method SplitsAreClean(key: int) returns (clean: bool)
      requires Valid() && ClearRoute(key)
      ensures clean <==> LosesNothing(key)
    {
      hide TreeBut, Known, Quiet, Flat, Clean, Keys, WithKey, WithSlot;
      var p;
      ghost var h: nat, k: nat := 0, 0;
      p, k := FindLeafPage(key);
      LeafRoom(pages, lv, rootPage, order, k);
      OrderOf(pages, lv, rootPage, order, -1, true);
      var leaf, keys := true, WithKey(pages[p].slots, key);
      while |keys| >= Limit(leaf, order)
        invariant h < |lv| && k < |lv[h]| && lv[h][k] == p
        invariant LosesNothing(key) <==> CleanUp(pages, rootPage, order, same, p, leaf, keys, |lv| - 1 - h)
        decreases |lv| - h
      {
        var l := LeftPart(leaf, order);
        if !Clean(keys[l..], same) {
          return false;
        }
        if p == rootPage {
          return true;
        }
        k := ParentThere(p, h, k);
        var parent := pages[p].parent;
        keys := WithSlot(pages[parent].slots, p, keys[l]);
        p, leaf, h := parent, false, h + 1;
      }
      clean := true;
    }

    // The parent of a page below the root.
    lemma ParentThere(p: int, h: nat, k: nat) returns (q: nat)
      requires Sound() && h < |lv| && k < |lv[h]| && lv[h][k] == p && p != rootPage
      ensures h + 1 < |lv| && p in pages && pages[p].parent == Par(pages, p) && q < |lv[h + 1]| && lv[h + 1][q] == Par(pages, p)
      ensures Par(pages, p) in pages && pages[Par(pages, p)].slots == SlotsOf(pages, Par(pages, p))
    {
      hide TreeBut;
      ParentAbove(pages, lv, rootPage, order, -1, true, h, k);
      q :| 0 <= q < |lv[h + 1]| && lv[h + 1][q] == Par(pages, p);
      TreeNodes(pages, lv, rootPage, order, -1);
      PageOfLevel(pages, lv, order, h, k);
      PageOfLevel(pages, lv, order, h + 1, q);
    }

    /** get_rid: the rid in a live slot, an error behind the live slots. */
    method GetRid(iid: Iid) returns (r: Result)
      requires iid.pageNo in pages && 0 <= iid.slotNo
      ensures r == if iid.slotNo < |pages[iid.pageNo].slots| then Found(pages[iid.pageNo].slots[iid.slotNo].rid)
                   else IndexEntryNotFound
    {
      if iid.slotNo >= |pages[iid.pageNo].slots| {
        return IndexEntryNotFound;
      }
      r := Found(pages[iid.pageNo].slots[iid.slotNo].rid);
    }

    /** lower_bound: the pairs before the place returned are those with smaller keys. The place is one where a scan
        can stand unless it lies behind all slots of a leaf other than the last. */
    method LowerBoundPlace(key: int) returns (iid: Iid, ghost j: nat)
      requires Valid() && ClearRoute(key)
      ensures OnLeaf(pages, lv[0], j, iid) && iid.pageNo == LeafOf(key)
      ensures iid.slotNo == LowerBound(SlotsOf(pages, iid.pageNo), key)
      ensures Splits(Entries(), Rank(pages, lv[0], j, iid), key)
      ensures Proper(pages, lv[0], j, iid) <==> iid.slotNo < |SlotsOf(pages, iid.pageNo)| || iid.pageNo == lastLeaf
    {
      hide TreeBut, Flat, Splits, Quiet, Known, ClearRoute, LeafOf;
      var leaf;
      leaf, j := FindLeafPage(key);
      LeafRoom(pages, lv, rootPage, order, j);
      LowerSplits(pages, lv, rootPage, order, j, key);
      LeavesDistinct(pages, lv, rootPage, order, -1, true);
      iid := Iid(leaf, LowerBound(pages[leaf].slots, key));
    }

    /** upper_bound: every pair from the place returned on has a greater key. The pairs before it are those with keys
        up to the given one exactly if the leaf begins with such a key and ends with a greater one or the ring. */
    method UpperBoundPlace(key: int) returns (iid: Iid, ghost j: nat)
      requires Valid() && ClearRoute(key)
      ensures Proper(pages, lv[0], j, iid)
      ensures forall g :: Rank(pages, lv[0], j, iid) <= g < |Entries()| ==> Entries()[g].key > key
      ensures var s := SlotsOf(pages, LeafOf(key));
              SplitsUp(Entries(), Rank(pages, lv[0], j, iid), key) <==>
              (s == [] || s[0].key <= key) && (LeafOf(key) == lastLeaf || (s != [] && s[|s| - 1].key > key))
    {
      hide TreeBut, SplitsUp, Flat, Quiet, Known, ClearRoute, LeafOf;
      var leaf;
      leaf, j := FindLeafPage(key);
      LeafRoom(pages, lv, rootPage, order, j);
      LeavesDistinct(pages, lv, rootPage, order, -1, true);
      UpperSplits(pages, lv, rootPage, order, j, key);
      var idx := UpperBound(pages[leaf].slots, key);
      if idx == |pages[leaf].slots| {
        UpperOutside(pages, lv, rootPage, order, j, key);
        iid, j := LeafEnd();
      } else {
        UpperInside(pages, lv, rootPage, order, j, key);
        iid := Iid(leaf, idx);
      }
    }

    /** leaf_begin: the place before all pairs. */
    method LeafBegin() returns (iid: Iid, ghost j: nat)
      requires Valid()
      ensures Proper(pages, lv[0], j, iid) && Rank(pages, lv[0], j, iid) == 0
    {
      Ring(pages, lv, rootPage, order);
      iid, j := Iid(firstLeaf, 0), 0;
    }

    /** leaf_end: the place behind all pairs. */
    method LeafEnd() returns (iid: Iid, ghost j: nat)
      requires Valid()
      ensures Proper(pages, lv[0], j, iid) && Rank(pages, lv[0], j, iid) == |Entries()|
    {
      Ring(pages, lv, rootPage, order);
      iid, j := Iid(lastLeaf, |pages[lastLeaf].slots|), |lv[0]| - 1;
    }

    // Split, first part: a new page gets the slots of `p` from number `left` on, as far as they go through the filter.
    method MoveUpperHalf(p: int, left: nat) returns (n: int)
      requires Allocated() && order >= 3 && p in pages && |pages[p].slots| + |pages[p].spare| == order + 1
      requires left <= |pages[p].slots| <= left + MaxSize(order) - MinSize(order) && left <= MinSize(order)
      modifies `pages, `nextPageNo, `numPages
      ensures Allocated() && numPages == old(numPages) + 1
      ensures n !in old(pages) && n > IX_LEAF_HEADER_PAGE && pages.Keys == old(pages).Keys + {n}
      ensures pages[n].slots == Arriving(old(pages)[p].Physical()[left..left + MaxSize(order) - MinSize(order)], |old(pages)[p].slots| - left, same)
      ensures |pages[n].slots| + |pages[n].spare| == order + 1
      ensures pages[n].isLeaf == old(pages)[p].isLeaf && pages[n].parent == IX_NO_PAGE
      ensures pages[p] == old(pages)[p].WithSize(left)
      ensures forall y :: y in old(pages) && y != p ==> pages[y] == old(pages)[y]
      ensures Clean(Keys(old(pages)[p].slots[left..]), same) ==>
        pages[n].slots == old(pages)[p].slots[left..] && SpareSplit(old(pages), pages, p, n)
    {
      hide AllIn, InsertPairs, Filter, Arriving, Clean, Keys;
      n := CreateNode();
      var oldNum, count := |pages[p].slots|, MaxSize(order) - MinSize(order);
      var block := pages[p].Physical()[left..left + count];
      ghost var K := seen.On(pages[p].isLeaf);
      assert KeysIn(pages[p], K);
      ZeroKnown(order, K);
      Halves(pages[p], pages[n], left, count, same, K);
      var right := InsertPairs(pages[n], 0, block, same).WithSize(oldNum - left);
      pages := pages[n := right.(parent := IX_NO_PAGE, isLeaf := pages[p].isLeaf)];
      pages := pages[p := pages[p].WithSize(left)];
    }

    // Split, second part for leaves: leaf n is put into the ring behind p.
    method LinkBehind(p: int, n: int)
      requires p in pages && n in pages && pages[p].next in pages && p != n && pages[p].next != p && pages[p].next != n
      modifies this`pages
      ensures pages.Keys == old(pages).Keys
      ensures pages[n] == old(pages)[n].(next := old(pages)[p].next, prev := p)
      ensures pages[old(pages)[p].next] == old(pages)[old(pages)[p].next].(prev := n)
      ensures pages[p] == old(pages)[p].(next := n)
      ensures forall y :: y in pages && y != n && y != p && y != old(pages)[p].next ==> pages[y] == old(pages)[y]
    {
      var nx := pages[p].next;
      pages := pages[n := pages[n].(next := nx, prev := p)];
      pages := pages[nx := pages[nx].(prev := n)];
      pages := pages[p := pages[p].(next := n)];
    }

    // The slots that a split is to move.
    ghost function UpperHalf(n: Node): seq<Slot>
      requires LeftPart(n.isLeaf, order) <= |n.slots|
    {
      n.slots[LeftPart(n.isLeaf, order)..]
    }

    /** What comes to stand on the new page when page n is split: of the block from its upper half on what goes through the
        filter, then zeros. */
    ghost function Arrives(n: Node): seq<Slot>
      requires order >= 3 && LeftPart(n.isLeaf, order) <= |n.slots| <= order + 1 == |n.slots| + |n.spare|
    {
      var l := LeftPart(n.isLeaf, order);
      Arriving(n.Physical()[l..l + MaxSize(order) - MinSize(order)], |n.slots| - l, same)
    }

    // The slots of the two pages that page n has been split into.
    ghost predicate HalvedSlots(n: Node, left: Node, right: Node)
      requires order >= 3 && LeftPart(n.isLeaf, order) <= |n.slots| <= order + 1 == |n.slots| + |n.spare|
    {
      left.slots == n.slots[..LeftPart(n.isLeaf, order)] && right.slots == Arrives(n)
    }

    lemma HalvedIs(n: Node, left: Node, right: Node)
      requires order >= 3 && LeftPart(n.isLeaf, order) <= |n.slots| <= order + 1 == |n.slots| + |n.spare|
      requires var l := LeftPart(n.isLeaf, order);
        && left == n.WithSize(l)
        && right.slots == Arriving(n.Physical()[l..l + MaxSize(order) - MinSize(order)], |n.slots| - l, same)
      ensures HalvedSlots(n, left, right)
    {
    }

    lemma HalvedSame(n: Node, left: Node, right: Node, left': Node, right': Node)
      requires order >= 3 && LeftPart(n.isLeaf, order) <= |n.slots| <= order + 1 == |n.slots| + |n.spare|
      requires HalvedSlots(n, left, right) && left'.slots == left.slots && right'.slots == right.slots
      ensures HalvedSlots(n, left', right')
    {
    }

    // Split of a leaf.
    method SplitLeafPage(p: int) returns (n: int)
      requires Allocated() && order >= 3 && p in pages && |pages[p].slots| + |pages[p].spare| == order + 1
      requires pages[p].isLeaf && |pages[p].slots| == order && pages[p].next in pages && pages[p].next != p
      modifies `pages, `nextPageNo, `numPages
      ensures Allocated() && numPages == old(numPages) + 1
      ensures n !in old(pages) && n in pages && p in pages && HalvedSlots(old(pages)[p], pages[p], pages[n])
      ensures Clean(Keys(UpperHalf(old(pages)[p])), same) ==> SplitOf(old(pages), pages, p, n, order) && SpareSplit(old(pages), pages, p, n)
    {
      hide Known, SpareSplit, SplitOf, SlotsOf, AllIn, Clean, Keys, Arriving, HalvedSlots;
      ghost var P := pages;
      var left := (MaxSize(order) - 1) / 2;
      n := MoveUpperHalf(p, left);
      ghost var B := pages;
      HalvedIs(P[p], B[p], B[n]);
      LinkBehind(p, n);
      pages := pages[n := pages[n].(parent := pages[p].parent)];
      HalvedSame(P[p], B[p], B[n], pages[p], pages[n]);
      SplitFrame(P, B, pages, p, n, seen);
      if Clean(Keys(UpperHalf(P[p])), same) {
        SplitLeafOf(P, B, pages, p, n, order, left);
      }
    }

    // Split of an inner page. What arrives must name pages of the index; a slot of zeros names the file header.
    method SplitInnerPage(p: int) returns (n: int)
      requires Allocated() && order >= 3 && p in pages && |pages[p].slots| + |pages[p].spare| == order + 1
      requires !pages[p].isLeaf && |pages[p].slots| == order + 1
      requires forall s :: s in Arrives(pages[p]) ==> s.rid.pageNo in pages && s.rid.pageNo != p
      requires forall i :: 0 <= i < |SlotsOf(pages, p)| ==> SlotsOf(pages, p)[i].rid.pageNo in pages && SlotsOf(pages, p)[i].rid.pageNo != p
      modifies `pages, `nextPageNo, `numPages
      ensures Allocated() && numPages == old(numPages) + 1
      ensures n !in old(pages) && n in pages && p in pages && HalvedSlots(old(pages)[p], pages[p], pages[n])
      ensures Clean(Keys(UpperHalf(old(pages)[p])), same) ==> SplitOf(old(pages), pages, p, n, order) && SpareSplit(old(pages), pages, p, n)
    {
      hide Known, SpareSplit, SplitOf, SlotsOf, AllIn, Clean, Keys, Arriving, Adopted, MinSize;
      ghost var P := pages;
      var left := MinSize(order);
      n := MoveUpperHalf(p, left);
      ghost var B := pages;
      MaintainChildren(n);
      ghost var C := pages;
      pages := pages[n := pages[n].(parent := pages[p].parent)];
      SplitFrame(P, B, pages, p, n, seen);
      if Clean(Keys(UpperHalf(P[p])), same) {
        SplitInnerOf(P, B, C, pages, p, n, order, left);
      }
    }

    /** Split: the upper part of an overfull page moves to a new page on its right. All its slots arrive exactly if none
        of their keys is reported to be that of its predecessor, but for slots that are zeros or have a copy behind them. */
    method Split(p: int) returns (n: int)
      requires Allocated() && order >= 3 && p in pages && |pages[p].slots| + |pages[p].spare| == order + 1
      requires |pages[p].slots| == if pages[p].isLeaf then order else order + 1
      requires pages[p].isLeaf ==> pages[p].next in pages && pages[p].next != p
      requires !pages[p].isLeaf ==>
        && (forall s :: s in Arrives(pages[p]) ==> s.rid.pageNo in pages && s.rid.pageNo != p)
        && (forall i :: 0 <= i < |SlotsOf(pages, p)| ==> SlotsOf(pages, p)[i].rid.pageNo in pages && SlotsOf(pages, p)[i].rid.pageNo != p)
      modifies `pages, `nextPageNo, `numPages
      ensures Allocated() && numPages == old(numPages) + 1
      ensures n !in old(pages) && n in pages && p in pages && HalvedSlots(old(pages)[p], pages[p], pages[n])
      ensures Clean(Keys(UpperHalf(old(pages)[p])), same) ==> SplitOf(old(pages), pages, p, n, order) && SpareSplit(old(pages), pages, p, n)
      ensures var u := UpperHalf(old(pages)[p]);
        Sorted(u) && ZERO !in u && (forall s :: s in old(pages)[p].spare ==> s !in u) ==>
        (Clean(Keys(u), same) <==> pages[n].slots == u)
    {
      hide Known, SpareSplit, SplitOf, SlotsOf, AllIn, Arriving, Clean;
      UpperArrives(pages[p]);
      if pages[p].isLeaf {
        n := SplitLeafPage(p);
      } else {
        n := SplitInnerPage(p);
      }
    }

    lemma BlockFits(n: Node)
      requires order >= 3 && |n.slots| + |n.spare| == order + 1 && |n.slots| == if n.isLeaf then order else order + 1
      ensures var l, count := LeftPart(n.isLeaf, order), MaxSize(order) - MinSize(order);
        l <= |n.slots| && |n.slots| - l <= count && l + count <= order + 1
    {
    }

    // The upper half of a page is the beginning of the block that a split copies.
    lemma UpperArrives(n: Node)
      requires order >= 3 && |n.slots| + |n.spare| == order + 1 && |n.slots| == if n.isLeaf then order else order + 1
      ensures var u := UpperHalf(n);
        && (Clean(Keys(u), same) ==> Arrives(n) == u)
        && (Sorted(u) && ZERO !in u && (forall s :: s in n.spare ==> s !in u) ==> (Clean(Keys(u), same) <==> Arrives(n) == u))
    {
      hide Arriving, Clean, Sorted, Keys, LeftPart, MaxSize, MinSize;
      BlockFits(n);
      var l, count := LeftPart(n.isLeaf, order), MaxSize(order) - MinSize(order);
      var block, m := n.Physical()[l..l + count], |n.slots| - l;
      BlockOf(n, l, count);
      ArrivingExact(block, m, same);
      forall s | s in block[m..] ensures s in n.spare {
        assert s in n.spare[..count - m];
      }
    }

    /** Split within the tree: the new page stands behind the old one, its slot in the parent is still missing. */
    method SplitNode(p: int, ghost h: nat, ghost j: nat, ghost tight: bool) returns (n: int)
      requires Allocated() && Counted()
      requires h < |lv| && j < |lv[h]| && lv[h][j] == p && TreeBut(pages, lv, rootPage, order, p, tight)
      requires p in pages && |pages[p].slots| == Limit(h == 0, order) && Clean(Keys(UpperHalf(pages[p])), same)
      requires Quiet(pages, lv, stale) && stale.Within(seen)
      modifies `pages, `nextPageNo, `numPages, `lv
      ensures Allocated() && Counted() && Quiet(pages, lv, stale)
      ensures lv == WithPage(old(lv), h, j, n)
      ensures Pending(pages, lv, rootPage, order, h, j, tight)
      ensures Flat(pages, lv[0]) == old(Flat(pages, lv[0]))
      ensures SplitOf(old(pages), pages, p, n, order)
      ensures |SlotsOf(pages, p)| == LeftPart(h == 0, order)
      ensures Seps(pages, lv) == old(Seps(pages, lv))
    {
      hide Seps, Flat, LeavesSorted, PendLink, SizeOK, SplitOf, Total, Known, Quiet, SpareSplit, Clean, Keys, Arriving, Sorted;
      hide Chain, Links, Sizes, Rooted, Nodes, Distinct, Strays.Within, Pending, Arrives, TreeBut;
      ghost var P := pages;
      OrderOf(P, lv, rootPage, order, p, tight);
      SplitReady(P, lv, rootPage, order, h, j, tight);
      UpperArrives(P[p]);
      ZeroAt(stale, seen, h);
      n := Split(p);
      SplitPending(P, pages, lv, rootPage, order, h, j, n, tight);
      QuietSplit(P, pages, lv, rootPage, order, h, j, n, tight, stale);
      TreeNodesBut(P, lv, rootPage, order, p, tight);
      SepsSplit(P, pages, lv, order, h, j, n);
      TotalUpdate(lv, h, InsertAfter(lv[h], j, n));
      lv := WithPage(lv, h, j, n);
    }

    static lemma TreeNodesBut(P: Pages, lv: seq<seq<int>>, root: int, order: nat, ex: int, tight: bool)
      requires TreeBut(P, lv, root, order, ex, tight)
      ensures Nodes(P, lv, order) && Distinct(lv)
    {
    }

    static lemma OrderOf(P: Pages, lv: seq<seq<int>>, root: int, order: nat, ex: int, tight: bool)
      requires TreeBut(P, lv, root, order, ex, tight)
      ensures order >= 3
    {
    }

    // InsertIntoParent at the root: a new root gets the slots of both pages.
    method AddRoot(p: int, n: int) returns (r: int)
      requires Allocated() && order >= 3 && p in pages && n in pages && p != n
      requires pages[p].slots != [] && pages[n].slots != [] && pages[p].slots[0].key < pages[n].slots[0].key
      requires pages[p].slots[0].key in seen.inner && pages[n].slots[0].key in seen.inner
      modifies `pages, `nextPageNo, `numPages, `rootPage
      ensures Allocated() && numPages == old(numPages) + 1
      ensures RootAdded(old(pages), pages, p, n, r, order) && rootPage == r
      ensures forall s :: s in SpareOf(pages, r) ==> s == ZERO
    {
      hide KeysIn, Known, Insert, ZeroPage, RootAdded, SlotsOf;
      ghost var P := pages;
      r := CreateNode();
      FillRoot(r, p, n);
      ghost var m := pages[r];
      pages := pages[n := pages[n].(parent := r)];
      pages := pages[p := pages[p].(parent := r)];
      rootPage := r;
      RootDone(P, pages, p, n, r, m, order, seen);
    }

    // The new root gets the slots of both pages.
    method FillRoot(r: int, p: int, n: int)
      requires r in pages && pages[r] == ZeroPage(order) && p in pages && n in pages && r != p && r != n && order >= 3
      requires pages[p].slots != [] && pages[n].slots != [] && pages[p].slots[0].key < pages[n].slots[0].key
      requires pages[p].slots[0].key in seen.inner && pages[n].slots[0].key in seen.inner && 0 in seen.inner
      modifies `pages
      ensures r in pages && pages == old(pages)[r := pages[r]]
      ensures var m := pages[r];
        && m.parent == IX_NO_PAGE && !m.isLeaf && m.slots == [Slot(old(pages)[p].slots[0].key, Rid(p, IX_NO_PAGE)), Slot(old(pages)[n].slots[0].key, Rid(n, IX_NO_PAGE))]
        && |m.slots| + |m.spare| == order + 1 && KeysIn(m, seen.inner) && (forall s :: s in m.spare ==> s == ZERO)
    {
      hide KeysIn, Insert, ZeroPage;
      RootNode(order, pages[p].slots[0].key, p, pages[n].slots[0].key, n, seen.inner);
      pages := pages[r := pages[r].(parent := IX_NO_PAGE, isLeaf := false)];
      pages := pages[r := Insert(pages[r], pages[p].slots[0].key, Rid(p, IX_NO_PAGE))];
      pages := pages[r := Insert(pages[r], pages[n].slots[0].key, Rid(n, IX_NO_PAGE))];
    }

    // insert_pair and the new size, on the parent page.
    method AddSlot(parent: int, pos: nat, slot: Slot)
      requires parent in pages && pos <= |pages[parent].slots| && pages[parent].spare != []
      modifies this`pages
      ensures pages == old(pages)[parent := InsertAt(old(pages)[parent], pos, slot)]
    {
      InsertPairsOne(pages[parent], pos, slot, same);
      assert Filter([slot], same) == [slot];
      var size := |pages[parent].slots|;
      pages := pages[parent := InsertPairs(pages[parent], pos, [slot], same)];
      pages := pages[parent := pages[parent].WithSize(size + 1)];
    }

    // The keys that a page going up and the one split off it leave in the page above have been seen there, and the splits
    // above are clean.
    ghost predicate ReadyAbove(p: int, n: int, h: nat)
      reads this
    {
      && SlotsOf(pages, p) != [] && SlotsOf(pages, n) != [] && SlotsOf(pages, n)[0].key in seen.inner
      && if p == rootPage then SlotsOf(pages, p)[0].key in seen.inner
         else h + 2 <= |lv| && CleanUp(pages, rootPage, order, same, Par(pages, p), false,
                                       WithSlot(SlotsOf(pages, Par(pages, p)), p, SlotsOf(pages, n)[0].key), |lv| - h - 2)
    }

    // InsertIntoParent at the root, within the tree.
    method GrowRoot(p: int, n: int, ghost h: nat, ghost j: nat, ghost tight: bool)
      requires Allocated() && Counted() && Quiet(pages, lv, stale) && ZERO in stale.inner
      requires Pending(pages, lv, rootPage, order, h, j, tight) && p == lv[h][j] == rootPage && n == lv[h][j + 1]
      requires ReadyAbove(p, n, h)
      modifies `pages, `nextPageNo, `numPages, `rootPage, `lv
      ensures Allocated() && Counted() && Quiet(pages, lv, stale)
      ensures TreeBut(pages, lv, rootPage, order, -1, tight)
      ensures |lv| == |old(lv)| + 1 > 1 && lv[0] == old(lv[0]) && Flat(pages, lv[0]) == old(Flat(pages, lv[0]))
      ensures SameSlots(old(pages), pages, lv[0])
      ensures Seps(pages, lv) == UpSeps(old(Seps(pages, lv)), h, j, old(SlotsOf(pages, p)[0].key), old(SlotsOf(pages, n)[0].key))
    {
      hide Seps, UpSeps, Known, Quiet, CleanUp, Sizes, Chain, LeavesSorted, Links, Flat, RootAdded;
      ghost var P, root := pages, rootPage;
      PendingPages(P, lv, root, order, h, j, tight);
      RootSplit(P, lv, root, order, h, j, tight);
      RootOrder(P, lv, root, order, h, tight);
      var r := AddRoot(p, n);
      NewRoot(P, pages, lv, root, order, h, r, tight);
      RootFrame(P, pages, lv, root, order, h, r, tight, 0);
      SepsRoot(P, pages, lv, root, order, h, r, tight);
      QuietRoot(P, pages, lv, root, n, r, order, stale);
      TotalAppend(lv, [r]);
      lv := lv + [[r]];
    }

    // InsertIntoParent below the root, within the tree: the parent may become too large.
    method GiveSlot(p: int, n: int, ghost h: nat, ghost j: nat, ghost tight: bool) returns (parent: int, ghost q: nat)
      requires Pending(pages, lv, rootPage, order, h, j, tight) && p == lv[h][j] != rootPage && n == lv[h][j + 1]
      requires Allocated() && Counted() && Quiet(pages, lv, stale) && ReadyAbove(p, n, h)
      modifies `pages
      ensures Allocated() && Counted() && Quiet(pages, lv, stale)
      ensures h + 1 < |lv| && q < |lv[h + 1]| && lv[h + 1][q] == parent
      ensures TreeBut(pages, lv, rootPage, order, parent, tight)
      ensures parent in pages && !pages[parent].isLeaf && |pages[parent].slots| <= order + 1
      ensures |pages[parent].slots| <= order ==> SizeOK(pages[parent], IsTop(lv, h + 1), order)
      ensures Flat(pages, lv[0]) == old(Flat(pages, lv[0]))
      ensures SameSlots(old(pages), pages, lv[0])
      ensures CleanUp(pages, rootPage, order, same, parent, false, Keys(pages[parent].slots), |lv| - h - 2)
      ensures Seps(pages, lv) == UpSeps(old(Seps(pages, lv)), h, j, old(SlotsOf(pages, p)[0].key), old(SlotsOf(pages, n)[0].key))
    {
      hide Seps, UpSeps, Distinct, Flat, LeavesSorted, Links, MinSize, Nodes, Known, Quiet, Chain, Sizes, Rooted, PendLink, CleanUp, WithSlot, Keys;
      ghost var P, i := pages, 0;
      PendingPages(P, lv, rootPage, order, h, j, tight);
      q, i := PendingPlace(P, lv, rootPage, order, h, j, tight);
      parent := pages[p].parent;
      var pos := FindChild(parent, p);
      PendingRank(P, lv, rootPage, order, h, j, tight, q, i, pos);
      var slot := Slot(pages[n].slots[0].key, Rid(n, IX_NO_PAGE));
      AddSlot(parent, pos + 1, slot);
      SlotKnown(P, parent, pos + 1, slot, seen);
      QuietGiven(P, pages, lv, parent, pos + 1, slot, stale);
      InsertedTree(P, pages, lv, rootPage, order, h, j, q, i, slot, tight);
      SlotGiven(P, lv, rootPage, h, j, q, pos, slot, tight);
      PendingDistinct(P, lv, rootPage, order, h, j, tight);
      SepsGiven(P, pages, lv, h, j, q, i, slot);
    }

    static lemma PendingDistinct(P: Pages, lv: seq<seq<int>>, root: int, order: nat, h: nat, j: nat, tight: bool)
      requires Pending(P, lv, root, order, h, j, tight)
      ensures Distinct(lv)
    {
    }

    // The splits above are still clean after a page got its slot.
    lemma SlotGiven(P: Pages, lw: seq<seq<int>>, root: int, h: nat, j: nat, q: nat, pos: nat, slot: Slot, tight: bool)
      requires Pending(P, lw, root, order, h, j, tight) && lw[h][j] != root && h + 1 < |lw| && q < |lw[h + 1]|
      requires lw[h + 1][q] in P && pos < |P[lw[h + 1][q]].slots| && P[lw[h + 1][q]].spare != []
      requires P[lw[h + 1][q]].slots[pos].rid.pageNo == lw[h][j] && Par(P, lw[h][j]) == lw[h + 1][q]
      requires var Q := P[lw[h + 1][q] := InsertAt(P[lw[h + 1][q]], pos + 1, slot)];
        TreeBut(Q, lw, root, order, lw[h + 1][q], tight)
      requires CleanUp(P, root, order, same, lw[h + 1][q], false, WithSlot(SlotsOf(P, lw[h + 1][q]), lw[h][j], slot.key), |lw| - h - 2)
      ensures var Q := P[lw[h + 1][q] := InsertAt(P[lw[h + 1][q]], pos + 1, slot)];
        CleanUp(Q, root, order, same, lw[h + 1][q], false, Keys(Q[lw[h + 1][q]].slots), |lw| - h - 2)
    {
      hide CleanUp, WithSlot, Keys, TreeBut, PendLink, SameAbove;
      var parent := lw[h + 1][q];
      var Q := P[parent := InsertAt(P[parent], pos + 1, slot)];
      forall i | 0 <= i < |P[parent].slots| && P[parent].slots[i].rid.pageNo == P[parent].slots[pos].rid.pageNo ensures i == pos {
        PendingRank(P, lw, root, order, h, j, tight, q, pos, i);
      }
      SlotKeys(P[parent], pos, slot);
      forall x, k | h + 1 < x < |lw| && 0 <= k < |lw[x]| ensures lw[x][k] != parent {
        ElsewhereNot(lw, h + 1, q, x);
      }
      AboveSame(Q, P, lw, root, order, parent, tight, h + 1);
      CleanFrame(Q, P, root, order, same, parent, false, Keys(Q[parent].slots), |lw| - h - 2, Above(lw, h + 1));
    }

    /** InsertIntoParent: the page split off `p` gets its slot in the parent, which may have to be split in turn,
        up to a new root. */
    method InsertIntoParent(p: int, n: int, ghost h: nat, ghost j: nat, ghost tight: bool)
      requires Allocated() && Counted() && Quiet(pages, lv, stale) && stale.Within(seen)
      requires Pending(pages, lv, rootPage, order, h, j, tight) && p == lv[h][j] && n == lv[h][j + 1]
      requires ReadyAbove(p, n, h)
      modifies `pages, `nextPageNo, `numPages, `rootPage, `lv
      ensures Allocated() && Counted() && Quiet(pages, lv, stale)
      ensures TreeBut(pages, lv, rootPage, order, -1, tight)
      ensures lv != [] && lv[0] == old(lv[0]) && Flat(pages, lv[0]) == old(Flat(pages, lv[0]))
      ensures |lv| >= |old(lv)| && (p == old(rootPage) ==> |lv| > 1)
      ensures SameSlots(old(pages), pages, lv[0])
      ensures Seps(pages, lv) == UpSeps(old(Seps(pages, lv)), h, j, old(SlotsOf(pages, p)[0].key), old(SlotsOf(pages, n)[0].key))
      decreases |lv| - h, 0
    {
      hide Seps, UpSeps, TreeBut, Pending, Known, Quiet, CleanUp, SlotsOf, Keys, WithSlot;
      if rootPage == p {
        GrowRoot(p, n, h, j, tight);
      } else {
        var parent;
        ghost var q;
        parent, q := GiveSlot(p, n, h, j, tight);
        SplitParent(parent, h + 1, q, tight);
      }
    }

    // The first keys of the two halves of an inner page are known on inner pages.
    lemma InnerFirsts(P: Pages, Q: Pages, p: int, n: int)
      requires SplitOf(P, Q, p, n, order) && !P[p].isLeaf && Known(Q, seen)
      ensures SlotsOf(Q, p) != [] && SlotsOf(Q, p)[0].key in seen.inner && SlotsOf(Q, n) != [] && SlotsOf(Q, n)[0].key in seen.inner
    {
      hide Known;
      FirstKnown(Q, p, seen);
      FirstKnown(Q, n, seen);
    }

    // InsertIntoParent, recursion: a parent that has become too large is split.
    method SplitParent(p: int, ghost h: nat, ghost j: nat, ghost tight: bool)
      requires Allocated() && Counted() && Quiet(pages, lv, stale) && stale.Within(seen)
      requires 0 < h < |lv| && j < |lv[h]| && lv[h][j] == p && TreeBut(pages, lv, rootPage, order, p, tight)
      requires p in pages && !pages[p].isLeaf && |pages[p].slots| <= order + 1
      requires |pages[p].slots| <= order ==> SizeOK(pages[p], IsTop(lv, h), order)
      requires CleanUp(pages, rootPage, order, same, p, false, Keys(pages[p].slots), |lv| - h - 1)
      modifies `pages, `nextPageNo, `numPages, `rootPage, `lv
      ensures Allocated() && Counted() && Quiet(pages, lv, stale)
      ensures TreeBut(pages, lv, rootPage, order, -1, tight)
      ensures lv != [] && lv[0] == old(lv[0]) && Flat(pages, lv[0]) == old(Flat(pages, lv[0])) && |lv| >= |old(lv)|
      ensures SameSlots(old(pages), pages, lv[0])
      ensures Seps(pages, lv) == old(Seps(pages, lv))
      decreases |lv| - h, 1
    {
      hide Seps, Pending, Known, Quiet, Flat, SplitOf, Links, Chain, LeavesSorted, Sizes, Rooted, Nodes, CleanUp, Keys, WithSlot;
      hide Strays.Within, SlotsOf, TreeBut, Clean, Total;
      if |pages[p].slots| >= MaxSize(order) {
        ghost var P, lw := pages, lv;
        CleanHere(P, rootPage, order, same, p, false, |lv| - h - 1);
        var np := SplitNode(p, h, j, tight);
        SplitLeavesAlone(P, pages, lw, rootPage, order, h, j, np, tight);
        CleanGoesUp(P, pages, lw, rootPage, order, same, h, j, np, tight);
        InnerFirsts(P, pages, p, np);
        InsertIntoParent(p, np, h, j, tight);
      } else {
        AllSizes(pages, lv, rootPage, order, h, j, tight);
      }
    }

    // insert_entry, first step: the pair goes into its leaf.
    method PutIntoLeaf(key: int, value: Rid) returns (leaf: int, ghost j: nat, ghost tight: bool)
      requires Valid() && ClearRoute(key)
      modifies `pages, `seen
      ensures seen == old(seen).More(key) && leaf == old(LeafOf(key)) && leaf in old(pages) && old(pages)[leaf].spare != []
      ensures pages == old(pages)[leaf := Insert(old(pages)[leaf], key, value)]
      ensures j < |lv[0]| && lv[0][j] == leaf && leaf in pages && pages[leaf].isLeaf
      ensures TreeBut(pages, lv, rootPage, order, leaf, tight) && Calm()
      ensures 0 < |pages[leaf].slots| <= order && |pages[leaf].slots| + |pages[leaf].spare| == order + 1
      ensures |pages[leaf].slots| < order ==> SizeOK(pages[leaf], IsTop(lv, 0), order)
      ensures !tight ==> j == 0 && pages[leaf].slots[0].key == key
      ensures Seps(pages, lv) == old(Seps(pages, lv))
      ensures Allocated() && Counted() && Ends()
      ensures Contents() == if key in old(Contents()) then old(Contents()) else old(Contents())[key := value]
      ensures old(LosesNothing(key)) ==> CleanUp(pages, rootPage, order, same, leaf, true, Keys(pages[leaf].slots), |lv| - 1)
    {
      hide Seps, TreeBut, Chain, Flat, Quiet, AllIn, KeysIn, CleanUp, WithKey, Keys, Insert, SizeOK, LeafBelow, ClearBelow, Sorted, ToMap;
      leaf, j := FindLeafPage(key);
      ghost var P := pages;
      LeafRoom(P, lv, rootPage, order, j);
      LeafDecides(P, lv, rootPage, order, j, key);
      KnownMore(P, seen, seen.More(key));
      assert KeysIn(P[leaf], seen.More(key).all);
      InsertKnown(P[leaf], key, value, seen.More(key).all);
      QuietInsert(P, lv, leaf, key, value, stale);
      seen := seen.More(key);
      pages := pages[leaf := Insert(pages[leaf], key, value)];
      InsertSame(P[leaf], key, value);
      TreeNodesBut(P, lv, rootPage, order, -1, true);
      SepsLeaf(P, pages, lv, j, pages[leaf]);
      tight := InsertedIntoLeaf(P, pages, lv, rootPage, order, j, key, value);
      InsertKeys(P[leaf], key, value);
      if old(LosesNothing(key)) {
        CleanAfterInsert(P, pages, lv, rootPage, order, same, j, Keys(pages[leaf].slots), tight);
      }
    }

    // The keys that the split of a leaf with slots s leaves in inner pages.
    static ghost function SplitKeys(s: seq<Slot>, order: nat, top: bool): set<int> {
      if |s| < order || (MaxSize(order) - 1) / 2 >= |s| then {}
      else {s[(MaxSize(order) - 1) / 2].key} + if top then {s[0].key} else {}
    }

    // insert_entry, second step: a leaf that has become too large is split.
    method SplitLeaf(leaf: int, ghost j: nat, ghost tight: bool)
      requires Allocated() && Counted() && Ends()
      requires j < |lv[0]| && lv[0][j] == leaf && leaf in pages && pages[leaf].isLeaf
      requires TreeBut(pages, lv, rootPage, order, leaf, tight)
      requires 0 < |pages[leaf].slots| <= order && |pages[leaf].slots| + |pages[leaf].spare| == order + 1
      requires |pages[leaf].slots| < order ==> SizeOK(pages[leaf], IsTop(lv, 0), order)
      requires Calm() && CleanUp(pages, rootPage, order, same, leaf, true, Keys(pages[leaf].slots), |lv| - 1)
      modifies `pages, `nextPageNo, `numPages, `rootPage, `lv, `lastLeaf, `seen
      ensures Allocated() && Counted() && Ends() && Calm()
      ensures TreeBut(pages, lv, rootPage, order, -1, tight)
      ensures j < |lv[0]| && lv[0][j] == leaf && Entries() == old(Entries())
      ensures SlotsOf(pages, leaf) != [] && SlotsOf(pages, leaf)[0] == old(pages)[leaf].slots[0]
      ensures LeafSlots(pages, lv[0]) == SplitInto(old(LeafSlots(pages, lv[0])), j, old(pages)[leaf].slots, order)
      ensures |old(pages)[leaf].slots| < order ==> pages == old(pages) && lv == old(lv) && rootPage == old(rootPage)
      ensures |old(pages)[leaf].slots| >= order ==> |lv| > 1
      ensures Seps(pages, lv) == HalfSeps(old(Seps(pages, lv)), j, old(pages)[leaf].slots, order)
      ensures seen == old(seen).Up(SplitKeys(old(pages)[leaf].slots, order, leaf == old(rootPage)))
    {
      hide Seps, TreeBut, Pending, Known, Quiet, Flat, SplitInto, LeafSlots, SplitOf, Total, CleanUp, Keys, WithSlot, Clean, SplitKeys, SizeOK;
      OrderOf(pages, lv, rootPage, order, leaf, tight);
      if |pages[leaf].slots| >= MaxSize(order) - 1 {
        SplitFull(leaf, j, tight);
      } else {
        AllSizes(pages, lv, rootPage, order, 0, j, tight);
        LeavesStay(pages, lv[0], j, order);
        NoSplitKeys(pages[leaf].slots, leaf == rootPage);
        UpNothing(seen);
      }
    }

    // The leaf is split, and its new right neighbour gets its place in the tree.
    method SplitFull(leaf: int, ghost j: nat, ghost tight: bool)
      requires Allocated() && Counted() && Ends()
      requires j < |lv[0]| && lv[0][j] == leaf && leaf in pages && pages[leaf].isLeaf
      requires TreeBut(pages, lv, rootPage, order, leaf, tight) && order >= 3
      requires |pages[leaf].slots| == order && |pages[leaf].slots| + |pages[leaf].spare| == order + 1
      requires Calm() && CleanUp(pages, rootPage, order, same, leaf, true, Keys(pages[leaf].slots), |lv| - 1)
      modifies `pages, `nextPageNo, `numPages, `rootPage, `lv, `lastLeaf, `seen
      ensures Allocated() && Counted() && Ends() && Calm()
      ensures TreeBut(pages, lv, rootPage, order, -1, tight)
      ensures j < |lv[0]| && lv[0][j] == leaf && Entries() == old(Entries())
      ensures SlotsOf(pages, leaf) != [] && SlotsOf(pages, leaf)[0] == old(pages)[leaf].slots[0]
      ensures LeafSlots(pages, lv[0]) == SplitInto(old(LeafSlots(pages, lv[0])), j, old(pages)[leaf].slots, order)
      ensures |lv| > 1 && seen == old(seen).Up(SplitKeys(old(pages)[leaf].slots, order, leaf == old(rootPage)))
      ensures Seps(pages, lv) == HalfSeps(old(Seps(pages, lv)), j, old(pages)[leaf].slots, order)
    {
      hide Seps, HalfSeps, UpSeps, TreeBut, Pending, Known, Quiet, Flat, SplitInto, LeafSlots, SplitOf, Total, CleanUp, Keys, WithSlot, Clean, SplitKeys, SizeOK;
      ghost var P, lw := pages, lv;
      LeavesDistinct(P, lv, rootPage, order, leaf, tight);
      ghost var S := Seps(P, lw);
      var n := SplitAlone(leaf, j, tight);
      ghost var B := pages;
      HalvesUp(P, B, S, leaf, n, j, order);
      InsertIntoParent(leaf, n, 0, j, tight);
      SplitEnds(P, B, pages, lw, lv, order, j, n);
      SplitLeaves(P, B, pages, lw, lv, order, j, n);
      if lastLeaf == leaf {
        lastLeaf := n;
      }
    }

    // The leaf is split; its new right neighbour has no place in the tree as yet.
    method SplitAlone(leaf: int, ghost j: nat, ghost tight: bool) returns (n: int)
      requires Allocated() && Counted() && Calm() && order >= 3
      requires lv != [] && j < |lv[0]| && lv[0][j] == leaf && leaf in pages && pages[leaf].isLeaf
      requires TreeBut(pages, lv, rootPage, order, leaf, tight)
      requires |pages[leaf].slots| == order && CleanUp(pages, rootPage, order, same, leaf, true, Keys(pages[leaf].slots), |lv| - 1)
      modifies `pages, `nextPageNo, `numPages, `lv, `seen
      ensures Allocated() && Counted() && Calm()
      ensures lv == WithPage(old(lv), 0, j, n) && Pending(pages, lv, rootPage, order, 0, j, tight)
      ensures Flat(pages, lv[0]) == old(Flat(pages, lv[0])) && SplitOf(old(pages), pages, leaf, n, order)
      ensures |SlotsOf(pages, leaf)| == LeftPart(true, order) && ReadyAbove(leaf, n, 0)
      ensures seen == old(seen).Up(SplitKeys(old(pages)[leaf].slots, order, leaf == rootPage))
      ensures Seps(pages, lv) == old(Seps(pages, lv))
    {
      hide Seps, TreeBut, Pending, Known, Quiet, Flat, SplitOf, Total, CleanUp, Keys, WithSlot, Clean, SplitKeys;
      ghost var P, lw := pages, lv;
      CleanHere(P, rootPage, order, same, leaf, true, |lv| - 1);
      n := SplitNode(leaf, 0, j, tight);
      SplitKeysSeen(P, pages, leaf, n);
      CleanGoesUp(P, pages, lw, rootPage, order, same, 0, j, n, tight);
    }

    // The first keys of the halves of a leaf.
    static lemma HalvesUp(P: Pages, B: Pages, S: seq<int>, p: int, n: int, j: nat, order: nat)
      requires SplitOf(P, B, p, n, order) && order >= 3 && |P[p].slots| == order && |SlotsOf(B, p)| == LeftPart(true, order)
      ensures UpSeps(S, 0, j, SlotsOf(B, p)[0].key, SlotsOf(B, n)[0].key) == HalfSeps(S, j, P[p].slots, order)
    {
      assert P[p].slots[0] == SlotsOf(B, p)[0] && P[p].slots[LeftPart(true, order)] == SlotsOf(B, n)[0];
    }

    lemma NoSplitKeys(s: seq<Slot>, top: bool)
      requires |s| < order
      ensures SplitKeys(s, order, top) == {}
    {
    }

    // The first keys of the two halves of a leaf are about to go up.
    ghost method SplitKeysSeen(P: Pages, B: Pages, p: int, n: int)
      requires pages == B && SplitOf(P, B, p, n, order) && |SlotsOf(B, p)| == LeftPart(true, order) && order >= 3
      requires P[p].isLeaf && |P[p].slots| == order && Allocated() && stale.Within(seen)
      modifies `seen
      ensures seen == old(seen).Up(SplitKeys(P[p].slots, order, p == rootPage)) && Allocated() && stale.Within(seen)
      ensures SlotsOf(B, n) != [] && SlotsOf(B, n)[0].key in seen.inner && SlotsOf(B, p) != []
      ensures p == rootPage ==> SlotsOf(B, p)[0].key in seen.inner
    {
      hide Known;
      ghost var left := LeftPart(true, order);
      assert P[p].slots[left] == SlotsOf(B, n)[0] && P[p].slots[0] == SlotsOf(B, p)[0];
      FirstKnown(B, p, seen);
      FirstKnown(B, n, seen);
      seen := seen.Up(SplitKeys(P[p].slots, order, p == rootPage));
      KnownMore(B, old(seen), seen);
    }

    // maintain_parent on a leaf of a complete tree.
    method MaintainLeaf(leaf: int, ghost j: nat, ghost tight: bool)
      requires lv != [] && j < |lv[0]| && lv[0][j] == leaf && SlotsOf(pages, leaf) != []
      requires TreeBut(pages, lv, rootPage, order, -1, tight) && (tight || j == 0) && Allocated()
      modifies `pages, `seen
      ensures Allocated() && Settled(old(pages), pages, lv, 0, j)
      ensures seen == old(seen).Up(if |lv| > 1 then {old(SlotsOf(pages, leaf)[0].key)} else {})
      ensures Tree(pages, lv, rootPage, order) && Flat(pages, lv[0]) == old(Flat(pages, lv[0]))
      ensures Seps(pages, lv) == CorrectedSep(old(Seps(pages, lv)), j, old(SlotsOf(pages, leaf)[0].key))
    {
      hide Known, Seps;
      ghost var P, K := pages, seen;
      FirstKnown(P, leaf, seen);
      seen := seen.Up(if |lv| > 1 then {SlotsOf(pages, leaf)[0].key} else {});
      KnownMore(P, K, seen);
      UpLinksOf(P, lv, 0, j, tight);
      MaintainParent(leaf, 0, j);
      MaintainedTree(P, pages, lv, rootPage, order, j, tight);
      SepsSettled(P, pages, lv, 0, j);
      SepsThere(P, lv);
    }

    // insert_entry, last step: the separators above a new smallest key.
    method SettleFirst(leaf: int, key: int, ghost j: nat, ghost tight: bool)
      requires Allocated() && Counted() && Ends() && Calm()
      requires j < |lv[0]| && lv[0][j] == leaf && TreeBut(pages, lv, rootPage, order, -1, tight)
      requires SlotsOf(pages, leaf) != [] && (!tight ==> j == 0 && SlotsOf(pages, leaf)[0].key == key)
      modifies `pages, `seen
      ensures Valid() && Entries() == old(Entries()) && Leaves() == old(Leaves())
      ensures seen == old(seen).Up(if j == 0 && old(SlotsOf(pages, leaf)[0].key) == key && |lv| > 1 then {key} else {})
      ensures Seps(pages, lv) ==
        if j == 0 && old(SlotsOf(pages, leaf)[0].key) == key then CorrectedSep(old(Seps(pages, lv)), 0, key) else old(Seps(pages, lv))
    {
      hide Seps, CorrectedSep, TreeBut, Flat, Known, Quiet, LeafSlots;
      FirstIsZero(pages, lv, rootPage, order, j, tight);
      if leaf == firstLeaf && pages[leaf].slots[0].key == key {
        ghost var P := pages;
        MaintainLeaf(leaf, j, tight);
        QuietSettled(P, pages, lv, rootPage, order, tight, stale);
        SettledLeaves(P, pages, lv, j);
      } else {
        assert seen == seen.Up({});
      }
    }

    // The leaves after a pair went into one of them.
    lemma LeavesAfter(P: Pages, lo: seq<int>, j: nat, n: Node, tight: bool)
      requires j < |lo| && lo[j] in P && pages == P[lo[j] := n] && lv != [] && lv[0] == lo
      requires TreeBut(pages, lv, rootPage, order, lo[j], tight)
      ensures SplitInto(LeafSlots(pages, lo), j, n.slots, order) == SplitInto(LeafSlots(P, lo), j, n.slots, order)
    {
      LeavesDistinct(pages, lv, rootPage, order, lo[j], tight);
      LeavesPut(P, lo, j, n, order);
    }

    /** insert_entry: the map gains the pair, unless the key is there already. Of the leaves only number j changes,
        and it is split in two where it has become too large; the separators become `PutSeps`. No other slots become strays, and no other keys come to
        stand on inner pages than the first ones of the two halves and a new smallest key. */
    method InsertEntry(key: int, value: Rid) returns (ok: bool, ghost j: nat)
      requires Valid() && ClearRoute(key) && LosesNothing(key)
      modifies this
      ensures ok && Valid()
      ensures Contents() == if key in old(Contents()) then old(Contents()) else old(Contents())[key := value]
      ensures stale == old(stale)
      ensures j < |old(lv)[0]| && old(lv)[0][j] == old(LeafOf(key)) && old(LeafOf(key)) in old(pages)
      ensures old(pages)[old(LeafOf(key))].spare != []
      ensures var s := Insert(old(pages)[old(LeafOf(key))], key, value).slots;
        && Leaves() == SplitInto(old(Leaves()), j, s, order) && (|s| < order ==> lv == old(lv))
        && s != [] && seen == old(seen).More(key).Up(SplitKeys(s, order, old(LeafOf(key)) == old(rootPage)))
                                .Up(if j == 0 && s[0].key == key && |lv| > 1 then {key} else {})
        && Separators() == PutSeps(old(Separators()), j, s, order, key)
    {
      hide Seps, HalfSeps, CorrectedSep, PutSeps, Valid, TreeBut, ClearRoute, LeafOf, Entries, Insert, LeafSlots, SplitInto, ToMap, Calm, SizeOK, IsTop, CleanUp, Seen.Up;
      hide Seen.More, SplitKeys;
      var leaf;
      ghost var tight;
      leaf, j, tight := PutIntoLeaf(key, value);
      LeavesAfter(old(pages), lv[0], j, Insert(old(pages)[leaf], key, value), tight);
      SplitLeaf(leaf, j, tight);
      SettleFirst(leaf, key, j, tight);
      PutSepsAre(old(Separators()), j, Insert(old(pages)[leaf], key, value).slots, order, key);
      ok := true;
    }

    // Redistribute, first part: the first slot of `right` moves to the end of `left`.
    method MoveFirstLeft(left: int, right: int)
      requires left in pages && right in pages && left != right && pages[left].isLeaf == pages[right].isLeaf && order >= 3
      requires |pages[left].slots| + |pages[left].spare| == order + 1 == |pages[right].slots| + |pages[right].spare|
      requires Underfull(pages[left], false, order) && SizeOK(pages[right], false, order)
      requires |pages[right].slots| > if pages[right].isLeaf then MinSize(order) - 1 else MinSize(order)
      requires Allocated()
      modifies `pages
      ensures Shifted(old(pages), pages, left, right, order) && Allocated()
      ensures Within(SlotsOf(pages, right), old(SlotsOf(pages, right)))
      ensures SlotsOf(pages, left) == old(SlotsOf(pages, left)) + [old(SlotsOf(pages, right)[0])]
      ensures SlotsOf(pages, right) == old(SlotsOf(pages, right))[1..]
    {
      hide Known;
      ghost var P := pages;
      ShiftKnown(P, left, right, |pages[left].slots|, 0, seen);
      pages := pages[left := InsertAt(pages[left], |pages[left].slots|, pages[right].slots[0])];
      pages := pages[right := EraseAt(pages[right], 0)];
      ShiftFromRight(P, pages, left, right, order);
    }

    // Redistribute, first part: the last slot of `left` moves to the front of `right`.
    method MoveLastRight(left: int, right: int)
      requires left in pages && right in pages && left != right && pages[left].isLeaf == pages[right].isLeaf && order >= 3
      requires |pages[left].slots| + |pages[left].spare| == order + 1 == |pages[right].slots| + |pages[right].spare|
      requires Underfull(pages[right], false, order) && SizeOK(pages[left], false, order)
      requires |pages[left].slots| > if pages[left].isLeaf then MinSize(order) - 1 else MinSize(order)
      requires Allocated()
      modifies `pages
      ensures Shifted(old(pages), pages, left, right, order) && Allocated()
      ensures Within(SlotsOf(pages, left), old(SlotsOf(pages, left)))
      ensures var s := old(SlotsOf(pages, left));
        SlotsOf(pages, left) == s[..|s| - 1] && SlotsOf(pages, right) == [s[|s| - 1]] + old(SlotsOf(pages, right))
    {
      hide Known;
      ghost var P := pages;
      var last := |pages[left].slots| - 1;
      ShiftKnown(P, right, left, 0, last, seen);
      pages := pages[right := InsertAt(pages[right], 0, pages[left].slots[last])];
      pages := pages[left := EraseAt(pages[left], last)];
      ShiftFromLeft(P, pages, left, right, order);
    }

    /** Redistribute: `node` borrows a slot from its neighbour. Page `node` is number m of level h, the two
        are numbers j and j + 1; `index` is the slot of `node` in the parent, page number q of level h + 1. */
    method Redistribute(neighbor: int, node: int, parent: int, index: nat, ghost h: nat, ghost j: nat, ghost m: nat, ghost q: nat)
      requires h + 1 < |lv| && j + 1 < |lv[h]| && (m == j || m == j + 1) && lv[h][m] == node
      requires neighbor == if m == j then lv[h][j + 1] else lv[h][j]
      requires TreeBut(pages, lv, rootPage, order, node, true)
      requires GoodPage(pages, node, h == 0, order) && GoodPage(pages, neighbor, h == 0, order)
      requires Underfull(pages[node], false, order) && SizeOK(pages[neighbor], false, order)
      requires |pages[neighbor].slots| > if h == 0 then MinSize(order) - 1 else MinSize(order)
      requires q < |lv[h + 1]| && lv[h + 1][q] == parent && parent in pages
      requires index < |pages[parent].slots| && pages[parent].slots[index].rid.pageNo == node
      requires var at := if m == j then index + 1 else index - 1;
               0 <= at < |pages[parent].slots| && pages[parent].slots[at].rid.pageNo == neighbor
      requires Allocated()
      modifies `pages, `seen
      ensures Allocated()
      ensures Tree(pages, lv, rootPage, order) && Flat(pages, lv[0]) == old(Flat(pages, lv[0]))
      ensures LentLeaves(old(Leaves()), old(seen), old(Seps(pages, lv)), h, j, m)
    {
      hide Seps, TreeBut, Known, Flat, Shifted, LeafSlots, Within, Offset, LentLeaves;
      OrderOf(pages, lv, rootPage, order, node, true);
      var at := FindChild(parent, neighbor);
      PlaceUnique(pages, lv, rootPage, order, h, j, node, q, if m == j then index + 1 else index - 1, at);
      if index < at {
        BorrowRight(neighbor, node, h, j);
      } else {
        BorrowLeft(neighbor, node, h, j);
      }
    }

    // The neighbour is the right one.
    method BorrowRight(neighbor: int, node: int, ghost h: nat, ghost j: nat)
      requires h + 1 < |lv| && j + 1 < |lv[h]| && node == lv[h][j] && neighbor == lv[h][j + 1] && order >= 3
      requires TreeBut(pages, lv, rootPage, order, node, true)
      requires GoodPage(pages, node, h == 0, order) && GoodPage(pages, neighbor, h == 0, order) && node != neighbor
      requires Underfull(pages[node], false, order) && SizeOK(pages[neighbor], false, order)
      requires |pages[neighbor].slots| > if h == 0 then MinSize(order) - 1 else MinSize(order)
      requires Allocated()
      modifies `pages, `seen
      ensures Allocated() && Tree(pages, lv, rootPage, order) && Flat(pages, lv[0]) == old(Flat(pages, lv[0]))
      ensures LentLeaves(old(Leaves()), old(seen), old(Seps(pages, lv)), h, j, j)
    {
      hide Seps, TreeBut, Known, Flat, Shifted, LeafSlots, Within, LentLeaves;
      ghost var P, K, S := pages, seen, Seps(pages, lv);
      MoveFirstLeft(node, neighbor);
      ghost var P1 := pages;
      RedistributeRest(P, node, neighbor, h, j, j);
      Lent(P, P1, K, S, h, j, j);
    }

    // The neighbour is the left one.
    method BorrowLeft(neighbor: int, node: int, ghost h: nat, ghost j: nat)
      requires h + 1 < |lv| && j + 1 < |lv[h]| && neighbor == lv[h][j] && node == lv[h][j + 1] && order >= 3
      requires TreeBut(pages, lv, rootPage, order, node, true)
      requires GoodPage(pages, node, h == 0, order) && GoodPage(pages, neighbor, h == 0, order) && node != neighbor
      requires Underfull(pages[node], false, order) && SizeOK(pages[neighbor], false, order)
      requires |pages[neighbor].slots| > if h == 0 then MinSize(order) - 1 else MinSize(order)
      requires Allocated()
      modifies `pages, `seen
      ensures Allocated() && Tree(pages, lv, rootPage, order) && Flat(pages, lv[0]) == old(Flat(pages, lv[0]))
      ensures LentLeaves(old(Leaves()), old(seen), old(Seps(pages, lv)), h, j, j + 1)
    {
      hide Seps, TreeBut, Known, Flat, Shifted, LeafSlots, Within, LentLeaves;
      ghost var P, K, S := pages, seen, Seps(pages, lv);
      MoveLastRight(neighbor, node);
      ghost var P1 := pages;
      RedistributeRest(P, node, node, h, j, j + 1);
      Lent(P, P1, K, S, h, j, j + 1);
    }

    // After a borrowing: leaf m has got a slot from its neighbour, and the first key of the right one of the two stands on
    // inner pages; above the leaves nothing has happened to them.
    ghost predicate LentLeaves(leaves: seq<seq<Slot>>, K: Seen, S: seq<int>, h: nat, j: nat, m: nat)
      reads this
    {
      if h > 0 then Leaves() == leaves && seen == K && Seps(pages, lv) == S
      else
        var how := if m == j then FromRight else FromLeft;
        && Mendable(leaves, m, how) && Leaves() == Mended(leaves, m, how) && seen == K.Up(MendKeys(Leaves(), m, how))
        && Seps(pages, lv) == MendSeps(S, Leaves(), m, how)
    }

    lemma Lent(P: Pages, P1: Pages, K: Seen, S: seq<int>, h: nat, j: nat, m: nat)
      requires h + 1 < |lv| && j + 1 < |lv[h]| && (m == j || m == j + 1) && TreeBut(P, lv, rootPage, order, lv[h][m], true)
      requires Shifted(P, P1, lv[h][j], lv[h][j + 1], order) && SameSlots(P1, pages, lv[0])
      requires m == j ==>
        && SlotsOf(P, lv[h][j + 1]) != []
        && SlotsOf(P1, lv[h][j]) == SlotsOf(P, lv[h][j]) + [SlotsOf(P, lv[h][j + 1])[0]] && SlotsOf(P1, lv[h][j + 1]) == SlotsOf(P, lv[h][j + 1])[1..]
      requires m == j + 1 ==> var s := SlotsOf(P, lv[h][j]);
        s != [] && SlotsOf(P1, lv[h][j + 1]) == [s[|s| - 1]] + SlotsOf(P, lv[h][j + 1]) && SlotsOf(P1, lv[h][j]) == s[..|s| - 1]
      requires SlotsOf(P1, lv[h][j + 1]) != []
      requires seen == K.Up(if h == 0 then {SlotsOf(P1, lv[h][j + 1])[0].key} else {})
      requires Seps(pages, lv) == if h > 0 then S else CorrectedSep(S, j + 1, SlotsOf(P1, lv[0][j + 1])[0].key)
      ensures LentLeaves(LeafSlots(P, lv[0]), K, S, h, j, m)
    {
      hide Seps, CorrectedSep, TreeBut, Shifted, Mended, Mendable, SameSlots, SlotsOf;
      SlotMoved(P, P1, lv, rootPage, h, j, m);
      SameLeaves(P1, pages, lv[0]);
      UpNothing(K);
    }

    // The leaves after a slot moved between pages j and j + 1 of level h.
    lemma SlotMoved(P: Pages, Q: Pages, lw: seq<seq<int>>, root: int, h: nat, j: nat, m: nat)
      requires h + 1 < |lw| && j + 1 < |lw[h]| && (m == j || m == j + 1) && TreeBut(P, lw, root, order, lw[h][m], true)
      requires Shifted(P, Q, lw[h][j], lw[h][j + 1], order)
      requires h == 0 && m == j ==>
        && SlotsOf(P, lw[0][j + 1]) != []
        && SlotsOf(Q, lw[0][j]) == SlotsOf(P, lw[0][j]) + [SlotsOf(P, lw[0][j + 1])[0]] && SlotsOf(Q, lw[0][j + 1]) == SlotsOf(P, lw[0][j + 1])[1..]
      requires h == 0 && m == j + 1 ==> var s := SlotsOf(P, lw[0][j]);
        s != [] && SlotsOf(Q, lw[0][j + 1]) == [s[|s| - 1]] + SlotsOf(P, lw[0][j + 1]) && SlotsOf(Q, lw[0][j]) == s[..|s| - 1]
      ensures h > 0 ==> LeafSlots(Q, lw[0]) == LeafSlots(P, lw[0])
      ensures h == 0 ==> var how := if m == j then FromRight else FromLeft;
        Mendable(LeafSlots(P, lw[0]), m, how) && LeafSlots(Q, lw[0]) == Mended(LeafSlots(P, lw[0]), m, how)
    {
      hide TreeBut, Mended, Nodes, SlotsOf, Shifted;
      TreeNodes(P, lw, root, order, lw[h][m]);
      if h > 0 {
        ShiftAbove(P, Q, lw, order, h, j);
        SameLeaves(P, Q, lw[0]);
      } else {
        LeavesDistinct(P, lw, root, order, lw[h][m], true);
        ShiftedElsewhere(P, Q, lw, order, j);
        if m == j {
          LentFirst(P, Q, lw[0], j);
        } else {
          LentLast(P, Q, lw[0], j);
        }
      }
    }

    // Where the leaves have kept their slots, what was said of them stays true.
    lemma LeavesFollow(P: Pages, h: nat)
      requires lv != [] && SameSlots(P, pages, lv[0])
      ensures Leaves() == LeafSlots(P, lv[0])
    {
      SameLeaves(P, pages, lv[0]);
    }

    lemma SameThrough(P: Pages, Q: Pages, lo: seq<int>)
      requires SameSlots(P, Q, lo) && Q.Keys == pages.Keys && forall y :: y in Q ==> pages[y].slots == Q[y].slots
      ensures SameSlots(P, pages, lo)
    {
    }

    // Before maintain_parent: the first key of a leaf is about to stand on inner pages.
    ghost method SeenFirst(p: int, h: nat, j: nat)
      requires h < |lv| && j < |lv[h]| && lv[h][j] == p && SlotsOf(pages, p) != [] && Nodes(pages, lv, order) && Allocated()
      modifies `seen
      ensures Allocated() && SlotsOf(pages, p)[0].key in seen.inner
      ensures seen == old(seen).Up(if h == 0 then {SlotsOf(pages, p)[0].key} else {})
    {
      hide Known, Nodes;
      PageOfLevel(pages, lv, order, h, j);
      FirstKnown(pages, p, seen);
      ghost var K := seen;
      seen := seen.Up(if h == 0 then {SlotsOf(pages, p)[0].key} else {});
      KnownMore(pages, K, seen);
    }

    // Redistribute, second part: the separator of the right page, and the children of the borrower.
    method RedistributeRest(ghost P: Pages, node: int, right: int, ghost h: nat, ghost j: nat, ghost m: nat)
      requires h + 1 < |lv| && j + 1 < |lv[h]| && (m == j || m == j + 1) && lv[h][m] == node && right == lv[h][j + 1]
      requires TreeBut(P, lv, rootPage, order, node, true) && GoodPage(P, node, h == 0, order)
      requires Shifted(P, pages, lv[h][j], lv[h][j + 1], order)
      requires m == j ==> Within(SlotsOf(pages, lv[h][j + 1]), SlotsOf(P, lv[h][j + 1]))
      requires m == j + 1 ==> Within(SlotsOf(pages, lv[h][j]), SlotsOf(P, lv[h][j]))
      requires Allocated()
      modifies `pages, `seen
      ensures Allocated()
      ensures Tree(pages, lv, rootPage, order) && Flat(pages, lv[0]) == Flat(P, lv[0])
      ensures SameSlots(old(pages), pages, lv[0])
      ensures old(SlotsOf(pages, right)) != [] && seen == old(seen).Up(if h == 0 then {old(SlotsOf(pages, right))[0].key} else {})
      ensures Seps(pages, lv) == if h > 0 then Seps(P, lv) else CorrectedSep(Seps(P, lv), j + 1, old(SlotsOf(pages, right))[0].key)
    {
      hide Seps, CorrectedSep, TreeBut, Known, Flat, SlotsOf, Shifted, Settled, Adopted;
      ghost var P1 := pages;
      ShiftedReady(P, P1, lv, rootPage, order, h, j, node);
      SeenFirst(right, h, j + 1);
      MaintainParent(right, h, j + 1);
      ghost var P2 := pages;
      SettledBelow(P1, P2, lv, h, j + 1, m);
      if h > 0 {
        ShiftedChildren(P, P1, lv, rootPage, order, h, j, m, node);
      }
      MaintainChildren(node);
      if h > 0 {
        AdoptedFrame(P2, pages, node);
      }
      KnownFrame(P2, pages, seen);
      SameThrough(P1, P2, lv[0]);
      TreeNodes(P, lv, rootPage, order, node);
      SepsBorrowed(P, P1, P2, pages, lv, order, h, j);
      BorrowDone(P, P1, P2, pages, lv, rootPage, order, h, j, m);
    }

    /** erase_leaf: takes a leaf out of the ring. */
    method EraseLeaf(leaf: int)
      requires leaf in pages && pages[leaf].prev in pages && pages[leaf].next in pages
      requires pages[leaf].prev != leaf && pages[leaf].next != leaf
      modifies this`pages
      ensures Unlinked(old(pages), pages, leaf)
    {
      var prev := pages[leaf].prev;
      pages := pages[prev := pages[prev].(next := pages[leaf].next)];
      var next := pages[leaf].next;
      pages := pages[next := pages[next].(prev := pages[leaf].prev)];
    }

    // Coalesce on the pages, first part: the slots move over, the children follow, a leaf leaves the ring.
    method JoinPages(left: int, right: int, ghost parent: int, ghost index: nat)
      requires Mergeable(pages, left, right, parent, index, order)
      modifies `pages
      ensures JoinedInto(old(pages), pages, left, right)
    {
      hide ChildrenApart, SlotsOf;
      ghost var P := pages;
      pages := pages[left := Joined(pages[left], pages[right])];
      if !P[left].isLeaf {
        JoinedChildren(P, left, right, parent);
      }
      MaintainChildren(left);
      if pages[right].isLeaf {
        EraseLeaf(right);
      }
    }

    // Coalesce on the pages: the right page is emptied into the left one and loses its slot in the parent.
    method MergeInto(left: int, right: int, parent: int, index: nat)
      requires Allocated() && Mergeable(pages, left, right, parent, index, order)
      modifies `pages, `numPages, `firstLeaf, `lastLeaf
      ensures Allocated() && numPages == old(numPages) - 1
      ensures MergeOf(old(pages), pages, left, right, parent, index - 1, order)
      ensures pages[parent].slots == EraseAt(old(pages)[parent], index).slots
      ensures pages[parent].spare == EraseAt(old(pages)[parent], index).spare
      ensures right in pages && pages[right].slots == [] && pages[right].spare == old(pages)[right].Physical()
      ensures firstLeaf == if old(pages)[right].isLeaf && right == old(firstLeaf) then old(pages)[right].next else old(firstLeaf)
      ensures lastLeaf == if old(pages)[right].isLeaf && right == old(lastLeaf) then old(pages)[right].prev else old(lastLeaf)
    {
      hide Mergeable, MergeOf, JoinedInto, Known;
      ghost var P := pages;
      MergeSpace(P, left, right, parent, index, order);
      JoinPages(left, right, parent, index);
      ghost var C := pages;
      JoinedFrame(P, C, left, right, parent);
      pages := pages[right := pages[right].WithSize(0)];
      if pages[right].isLeaf && right == firstLeaf {
        firstLeaf := pages[right].next;
      }
      if pages[right].isLeaf && right == lastLeaf {
        lastLeaf := pages[right].prev;
      }
      numPages := numPages - 1;
      pages := pages[parent := EraseAt(pages[parent], index)];
      MergeKnown(P, C, pages, left, right, parent, index, seen);
      MergedOf(P, C, pages, left, right, parent, index, order);
    }

    // Coalesce within the tree, first part: pages j and j + 1 of level h become one.
    method MergePair(left: int, right: int, parent: int, index: nat, ghost h: nat, ghost j: nat, ghost q: nat, ghost ex: int)
      requires Allocated() && Counted() && Ends()
      requires h + 1 < |lv| && j + 1 < |lv[h]| && lv[h][j] == left && lv[h][j + 1] == right
      requires TreeBut(pages, lv, rootPage, order, ex, true)
      requires q < |lv[h + 1]| && lv[h + 1][q] == parent && Mergeable(pages, left, right, parent, index, order)
      requires j == Offset(pages, lv[h + 1], q) + index - 1
      modifies `pages, `numPages, `firstLeaf, `lastLeaf, `lv
      ensures Allocated() && Counted() && Ends()
      ensures lv == WithoutPage(old(lv), h, j + 1)
      ensures MergeAt(old(pages), pages, old(lv), order, h, j, q, index - 1)
      ensures parent in pages && pages[parent].slots != [] && pages[parent].spare == EraseAt(old(pages)[parent], index).spare
      ensures forall key :: Misled(pages[parent], key) <==>
        index == |old(pages)[parent].slots| - 1 && key == old(pages)[parent].slots[index].key
      ensures right in pages && pages[right].slots == [] && pages[right].spare == old(pages)[right].Physical()
      ensures Leaves() == if h == 0 then Together(old(Leaves()), j) else old(Leaves())
      ensures Seps(pages, lv) == if h > 0 then old(Seps(pages, lv)) else LessSeps(old(Seps(pages, lv)), j + 1)
    {
      hide Seps, LessSeps, TreeBut, Known, Misled, Together, Flat, LeafSlots, SlotsOf, Total;
      ghost var P := pages;
      TreeNodes(P, lv, rootPage, order, ex);
      MergeEnds(pages, lv, rootPage, order, ex, h, j);
      MergeInto(left, right, parent, index);
      forall key ensures pages[parent].slots != [] && (Misled(pages[parent], key) <==>
        index == |P[parent].slots| - 1 && key == P[parent].slots[index].key)
      {
        MergedMisleads(P, pages[parent], lv, rootPage, order, ex, h, q, index, key);
      }
      LeavesMerged(P, pages, lv, order, h, j, q, index - 1);
      SepsMerged(P, pages, lv, order, h, j, q, index - 1);
      lv := WithoutPage(lv, h, j + 1);
    }

    // Coalesce within the tree, second part: the separator of the merged page; the parent may have become too small.
    method MergeRest(ghost P: Pages, ghost lw: seq<seq<int>>, left: int, ghost h: nat, ghost j: nat, ghost q: nat, ghost i: nat, ghost ex: int)
      requires h + 1 < |lw| && j + 1 < |lw[h]| && lw[h][j] == left && lv == WithoutPage(lw, h, j + 1)
      requires TreeBut(P, lw, rootPage, order, ex, true) && (ex == lw[h][j] || ex == lw[h][j + 1])
      requires MergeAt(P, pages, lw, order, h, j, q, i) && Allocated()
      modifies `pages, `seen
      ensures Settled(old(pages), pages, lv, h, j)
      ensures Allocated() && lw[h + 1][q] in pages && !pages[lw[h + 1][q]].isLeaf
      ensures TreeBut(pages, lv, rootPage, order, lw[h + 1][q], true) && Flat(pages, lv[0]) == Flat(P, lw[0])
      ensures var n := pages[lw[h + 1][q]];
              if |n.slots| < MinSize(order) then Underfull(n, IsTop(lv, h + 1), order)
              else SizeOK(n, IsTop(lv, h + 1), order)
      ensures SameSlots(old(pages), pages, lv[0])
      ensures old(SlotsOf(pages, left)) != [] && seen == old(seen).Up(if h == 0 then {old(SlotsOf(pages, left))[0].key} else {})
      ensures Seps(pages, lv) == if h > 0 then old(Seps(pages, lv)) else CorrectedSep(old(Seps(pages, lv)), j, old(SlotsOf(pages, left))[0].key)
    {
      hide Seps, CorrectedSep, TreeBut, Known, Nodes, Settled, UpLinks, Rooted;
      ghost var P1 := pages;
      MergedReady(P, P1, lw, rootPage, order, h, j, q, i, ex);
      SeenFirst(left, h, j);
      MaintainParent(left, h, j);
      SettledBelow(P1, pages, lv, h, j, j);
      SepsSettled(P1, pages, lv, h, j);
      MergeDone(P, P1, pages, lw, rootPage, order, h, j, q, i, ex);
      MergeKept(P1, pages, lv, h, j);
      ParentShrunk(P, P1, pages, lw, rootPage, order, h, j, q, i, ex);
    }

    lemma MergeKept(P: Pages, Q: Pages, lw: seq<seq<int>>, h: nat, j: nat)
      requires Settled(P, Q, lw, h, j)
      ensures KeysAbove(P, Q, lw, h)
    {
    }

    /** AdjustRoot: an inner root with one child hands the root over to it, an empty leaf root ends the tree. */
    method AdjustRoot(root: int) returns (deleted: bool)
      requires Allocated() && Counted() && Ends() && root == rootPage && root in pages
      requires TreeBut(pages, lv, rootPage, order, root, true) && Underfull(pages[root], true, order)
      modifies `pages, `numPages, `rootPage, `firstLeaf, `lastLeaf, `lv
      ensures if old(pages)[root].isLeaf && old(pages)[root].slots == [] then deleted && Emptied() && old(Entries()) == []
              else Sound() && Entries() == old(Entries())
      ensures !deleted ==> lv == old(lv)
      ensures (if old(pages)[root].isLeaf then old(pages)[root].slots != [] else |old(pages)[root].slots| != 1) ==>
        !deleted && pages == old(pages) && rootPage == old(rootPage)
      ensures !(old(pages)[root].isLeaf && old(pages)[root].slots == []) ==>
        Leaves() == old(Leaves()) && (|lv| > 1 ==> Seps(pages, lv) == old(Seps(pages, lv)))
    {
      hide Seps, TreeBut, Known, Flat, LeafSlots, Underfull, Total, IsTop, Nodes;
      if !pages[root].isLeaf && |pages[root].slots| == 1 {
        HandOver(root);
        deleted := true;
      } else if pages[root].isLeaf && |pages[root].slots| == 0 {
        LastLeaf(pages, lv, rootPage, order);
        EraseLeaf(root);
        rootPage := IX_NO_PAGE;
        if root == firstLeaf {
          firstLeaf := pages[root].next;
        }
        if root == lastLeaf {
          lastLeaf := pages[root].prev;
        }
        numPages := numPages - 1;
        deleted := true;
      } else {
        RootStays(pages, lv, rootPage, order);
        deleted := false;
      }
    }

    // AdjustRoot, first case: the only child becomes the root.
    method HandOver(root: int)
      requires Allocated() && Counted() && Ends() && root == rootPage && root in pages
      requires TreeBut(pages, lv, rootPage, order, root, true) && !pages[root].isLeaf && |pages[root].slots| == 1
      modifies `pages, `numPages, `rootPage, `lv
      ensures Sound() && Entries() == old(Entries()) && Leaves() == old(Leaves())
      ensures |lv| > 1 ==> Seps(pages, lv) == old(Seps(pages, lv))
    {
      hide Seps, TreeBut, Known, Flat, LeafSlots, Total, IsTop, Nodes;
      ghost var P := pages;
      CollapseReady(P, lv, rootPage, order);
      var newRoot := pages[root].slots[0].rid.pageNo;
      pages := pages[newRoot := pages[newRoot].(parent := IX_NO_PAGE)];
      KnownFrame(P, pages, seen);
      SameLeaves(P, pages, lv[0]);
      CollapseRoot(P, pages, lv, rootPage, order, newRoot);
      SepsCollapsed(P, pages, lv, rootPage, newRoot);
      rootPage := newRoot;
      lv := lv[..|lv| - 1];
      numPages := numPages - 1;
    }

    // After a merge: two leaves have become one, whose first key stands on inner pages; above them nothing has changed.
    ghost predicate JoinedLeaves(leaves: seq<seq<Slot>>, K: Seen, S: seq<int>, h: nat, j: nat)
      reads this
    {
      if h > 0 then Leaves() == leaves && seen == K && (|lv| > 1 ==> Seps(pages, lv) == S)
      else
        && j + 1 < |leaves| && Leaves() == Together(leaves, j) && Leaves()[j] != [] && seen == K.Up({Leaves()[j][0].key})
        && (|lv| > 1 ==> Seps(pages, lv) == Corrects(LessSeps(S, j + 1), j, Leaves()))
    }

    /** Coalesce: `node`, number m of level h, is merged with its neighbour; the two are numbers j and j + 1. */
    method Coalesce(neighbor: int, node: int, parent: int, index: nat, ghost h: nat, ghost j: nat, ghost m: nat, ghost q: nat)
      requires Allocated() && Counted() && Ends() && order >= 3
      requires h + 1 < |lv| && j + 1 < |lv[h]| && (m == j || m == j + 1) && lv[h][m] == node
      requires neighbor == if m == j then lv[h][j + 1] else lv[h][j]
      requires TreeBut(pages, lv, rootPage, order, node, true)
      requires GoodPage(pages, node, h == 0, order) && GoodPage(pages, neighbor, h == 0, order)
      requires Underfull(pages[node], false, order)
      requires |pages[neighbor].slots| == if h == 0 then MinSize(order) - 1 else MinSize(order)
      requires q < |lv[h + 1]| && lv[h + 1][q] == parent && parent in pages
      requires index < |pages[parent].slots| && pages[parent].slots[index].rid.pageNo == node
      requires m == Offset(pages, lv[h + 1], q) + index
      requires var at := if m == j then index + 1 else index - 1;
               0 <= at < |pages[parent].slots| && pages[parent].slots[at].rid.pageNo == neighbor
      modifies `pages, `numPages, `rootPage, `firstLeaf, `lastLeaf, `lv, `seen
      ensures Sound() && Entries() == old(Entries())
      ensures JoinedLeaves(old(Leaves()), old(seen), old(Seps(pages, lv)), h, j)
      ensures h == 0 && m == j + 1 && old(LastChildGoes(pages, lv, order, j + 1, q)) ==>
        LastChildGone(old(pages), old(lv), pages, lv, j + 1, q)
      decreases |lv| - h, 0, 1
    {
      hide Seps, TreeBut;
      var at := FindChild(parent, neighbor);
      PlaceUnique(pages, lv, rootPage, order, h, j, node, q, if m == j then index + 1 else index - 1, at);
      var left, right, place := neighbor, node, index;
      if index < at {
        left, right, place := node, neighbor, index + 1;
      }
      MergeSiblings(left, right, parent, place, h, j, q, node);
    }

    // Coalesce once left and right are told apart, but for the parent that may have become too small; M is what the pages
    // were before the separators were corrected.
    method MergeBoth(left: int, right: int, parent: int, place: nat, ghost h: nat, ghost j: nat, ghost q: nat, ghost ex: int)
      returns (ghost M: Pages)
      requires Allocated() && Counted() && Ends() && order >= 3
      requires h + 1 < |lv| && j + 1 < |lv[h]| && left == lv[h][j] && right == lv[h][j + 1] && (ex == left || ex == right)
      requires TreeBut(pages, lv, rootPage, order, ex, true)
      requires GoodPage(pages, left, h == 0, order) && GoodPage(pages, right, h == 0, order)
      requires |pages[left].slots| + |pages[right].slots| == if h == 0 then 2 * MinSize(order) - 3 else 2 * MinSize(order) - 1
      requires h > 0 ==> pages[left].slots != []
      requires q < |lv[h + 1]| && lv[h + 1][q] == parent && parent in pages
      requires 1 <= place < |pages[parent].slots| && j == Offset(pages, lv[h + 1], q) + place - 1
      modifies `pages, `numPages, `firstLeaf, `lastLeaf, `lv, `seen
      ensures Allocated() && Counted() && Ends() && lv == WithoutPage(old(lv), h, j + 1) && Entries() == old(Entries())
      ensures JoinedLeaves(old(Leaves()), old(seen), old(Seps(pages, lv)), h, j)
      ensures parent in pages && !pages[parent].isLeaf && TreeBut(pages, lv, rootPage, order, parent, true)
      ensures if |pages[parent].slots| < MinSize(order) then Underfull(pages[parent], IsTop(lv, h + 1), order)
              else SizeOK(pages[parent], IsTop(lv, h + 1), order)
      ensures MergeAt(old(pages), M, old(lv), order, h, j, q, place - 1) && Settled(M, pages, lv, h, j)
      ensures parent in M && M[parent].spare == EraseAt(old(pages)[parent], place).spare
      ensures right in M && M[right].slots == [] && M[right].spare == old(pages)[right].Physical()
    {
      hide Seps, TreeBut, Flat, Total, Offset, Known, MergeAt, Underfull, SizeOK, IsTop, Misled, Together, Settled, Mergeable;
      hide JoinedLeaves, LessSeps, CorrectedSep, Leaves, LeafSlots;
      ghost var P, lw, K, leaves, S := pages, lv, seen, Leaves(), Seps(pages, lv);
      MergeReady(P, lv, rootPage, order, h, j, q, place - 1, ex);
      LeavesAre();
      LeavesCount(h, j);
      MergePair(left, right, parent, place, h, j, q, ex);
      LeavesAre();
      M := pages;
      MergeRest(P, lw, left, h, j, q, place - 1, ex);
      LeavesFollow(M, h);
      JoinedNow(M, leaves, K, S, h, j, left);
    }

    lemma LeavesCount(h: nat, j: nat)
      requires h < |lv| && j + 1 < |lv[h]|
      ensures h == 0 ==> j + 1 < |Leaves()|
    {
    }

    lemma JoinedNow(M: Pages, leaves: seq<seq<Slot>>, K: Seen, S: seq<int>, h: nat, j: nat, left: int)
      requires lv != [] && Leaves() == LeafSlots(M, lv[0]) && (h == 0 ==> j + 1 < |leaves|)
      requires Leaves() == if h == 0 then Together(leaves, j) else leaves
      requires h == 0 ==> j < |lv[0]| && lv[0][j] == left
      requires SlotsOf(M, left) != [] && seen == K.Up(if h == 0 then {SlotsOf(M, left)[0].key} else {})
      requires Seps(pages, lv) == if h > 0 then S else CorrectedSep(LessSeps(S, j + 1), j, SlotsOf(M, left)[0].key)
      ensures JoinedLeaves(leaves, K, S, h, j)
    {
      hide Seps, CorrectedSep, LessSeps;
      UpNothing(K);
    }

    // The same, and what it means for searches that the parent has lost its last child.
    method MergeChildren(left: int, right: int, parent: int, place: nat, ghost h: nat, ghost j: nat, ghost q: nat, ghost ex: int)
      requires Allocated() && Counted() && Ends() && order >= 3
      requires h + 1 < |lv| && j + 1 < |lv[h]| && left == lv[h][j] && right == lv[h][j + 1] && (ex == left || ex == right)
      requires TreeBut(pages, lv, rootPage, order, ex, true)
      requires GoodPage(pages, left, h == 0, order) && GoodPage(pages, right, h == 0, order)
      requires |pages[left].slots| + |pages[right].slots| == if h == 0 then 2 * MinSize(order) - 3 else 2 * MinSize(order) - 1
      requires h > 0 ==> pages[left].slots != []
      requires q < |lv[h + 1]| && lv[h + 1][q] == parent && parent in pages
      requires 1 <= place < |pages[parent].slots| && j == Offset(pages, lv[h + 1], q) + place - 1
      modifies `pages, `numPages, `firstLeaf, `lastLeaf, `lv, `seen
      ensures Allocated() && Counted() && Ends() && lv == WithoutPage(old(lv), h, j + 1) && Entries() == old(Entries())
      ensures JoinedLeaves(old(Leaves()), old(seen), old(Seps(pages, lv)), h, j)
      ensures parent in pages && !pages[parent].isLeaf && TreeBut(pages, lv, rootPage, order, parent, true)
      ensures if |pages[parent].slots| < MinSize(order) then Underfull(pages[parent], IsTop(lv, h + 1), order)
              else SizeOK(pages[parent], IsTop(lv, h + 1), order)
      ensures h == 0 && place == |old(pages)[parent].slots| - 1 && old(LastChildGoes(pages, lv, order, j + 1, q)) ==>
        LastChildGone(old(pages), old(lv), pages, lv, j + 1, q) && |pages[parent].slots| >= if IsTop(lv, 1) then 2 else MinSize(order)
    {
      hide Seps, TreeBut, Flat, Total, Offset, Known, MergeAt, Underfull, SizeOK, IsTop, LastChildGone, Settled, JoinedLeaves, WithoutPage;
      ghost var P, lw := pages, lv;
      ghost var P1 := MergeBoth(left, right, parent, place, h, j, q, ex);
      if h == 0 && place == |P[parent].slots| - 1 && LastChildGoes(P, lw, order, j + 1, q) {
        LastGone(P, P1, lw, j, q, ex);
      }
    }

    // The last child of page q has gone.
    lemma LastGone(P: Pages, P1: Pages, lw: seq<seq<int>>, j: nat, q: nat, ex: int)
      requires TreeBut(P, lw, rootPage, order, ex, true) && LastChildGoes(P, lw, order, j + 1, q) && order >= 3
      requires lw[1][q] in P && MergeAt(P, P1, lw, order, 0, j, q, |P[lw[1][q]].slots| - 2) && lv == WithoutPage(lw, 0, j + 1)
      requires lw[1][q] in P1 && P1[lw[1][q]].spare == EraseAt(P[lw[1][q]], |P[lw[1][q]].slots| - 1).spare
      requires Settled(P1, pages, lv, 0, j) && TreeBut(pages, lv, rootPage, order, lw[1][q], true)
      requires lw[0][j + 1] in P && lw[0][j + 1] in P1 && P1[lw[0][j + 1]].slots == [] && P1[lw[0][j + 1]].spare == P[lw[0][j + 1]].Physical()
      ensures LastChildGone(P, lw, pages, lv, j + 1, q) && |pages[lw[1][q]].slots| >= if IsTop(lv, 1) then 2 else MinSize(order)
    {
      hide TreeBut, Flat, MergeAt, Misleads, Settled, IsTop, Offset;
      LastChildMerged(P, P1, pages, lw, rootPage, order, j, q, ex);
      ReleasedStays(P1, pages, lv, j, lw[0][j + 1]);
    }

    // Coalesce once left and right are told apart.
    method MergeSiblings(left: int, right: int, parent: int, place: nat, ghost h: nat, ghost j: nat, ghost q: nat, ghost ex: int)
      requires Allocated() && Counted() && Ends() && order >= 3
      requires h + 1 < |lv| && j + 1 < |lv[h]| && left == lv[h][j] && right == lv[h][j + 1] && (ex == left || ex == right)
      requires TreeBut(pages, lv, rootPage, order, ex, true)
      requires GoodPage(pages, left, h == 0, order) && GoodPage(pages, right, h == 0, order)
      requires |pages[left].slots| + |pages[right].slots| == if h == 0 then 2 * MinSize(order) - 3 else 2 * MinSize(order) - 1
      requires h > 0 ==> pages[left].slots != []
      requires q < |lv[h + 1]| && lv[h + 1][q] == parent && parent in pages
      requires 1 <= place < |pages[parent].slots| && j == Offset(pages, lv[h + 1], q) + place - 1
      modifies `pages, `numPages, `rootPage, `firstLeaf, `lastLeaf, `lv, `seen
      ensures Sound() && Entries() == old(Entries())
      ensures JoinedLeaves(old(Leaves()), old(seen), old(Seps(pages, lv)), h, j)
      ensures h == 0 && place == |old(pages)[parent].slots| - 1 && old(LastChildGoes(pages, lv, order, j + 1, q)) ==>
        LastChildGone(old(pages), old(lv), pages, lv, j + 1, q)
      decreases |lv| - h, 0, 0
    {
      hide Seps, TreeBut, Offset, Known, Underfull, SizeOK, IsTop, LastChildGone, LastChildGoes, Total;
      MergeChildren(left, right, parent, place, h, j, q, ex);
      MendParent(parent, h + 1, q);
    }

    // Coalesce, recursion: the parent may have become too small.
    method MendParent(parent: int, ghost h: nat, ghost j: nat)
      requires Allocated() && Counted() && Ends() && order >= 3
      requires 0 < h < |lv| && j < |lv[h]| && lv[h][j] == parent && parent in pages && !pages[parent].isLeaf
      requires TreeBut(pages, lv, rootPage, order, parent, true)
      requires if |pages[parent].slots| < MinSize(order) then Underfull(pages[parent], IsTop(lv, h), order)
               else SizeOK(pages[parent], IsTop(lv, h), order)
      modifies `pages, `numPages, `rootPage, `firstLeaf, `lastLeaf, `lv, `seen
      ensures Sound() && Entries() == old(Entries())
      ensures Leaves() == old(Leaves()) && seen == old(seen) && (|lv| > 1 ==> Seps(pages, lv) == old(Seps(pages, lv)))
      ensures |old(pages)[parent].slots| >= (if old(IsTop(lv, h)) then 2 else MinSize(order)) ==>
        pages == old(pages) && lv == old(lv)
      decreases |lv| - h, 2
    {
      hide Seps, TreeBut;
      if |pages[parent].slots| < MinSize(order) {
        ParentlessIsTop(pages, lv, rootPage, order, parent, h, j);
        var deleted, _ := CoalesceOrRedistribute(parent, h, j);
      } else {
        AllSizes(pages, lv, rootPage, order, h, j, true);
      }
    }

    // The leaves after the repair of page j of level h: above the leaves nothing has happened to them.
    ghost predicate RepairedLeaves(P: Pages, lw: seq<seq<int>>, leaves: seq<seq<Slot>>, K: Seen, S: seq<int>, h: nat, j: nat, how: Mend)
      reads this
    {
      if h > 0 then Leaves() == leaves && seen == K && (|lv| > 1 ==> Seps(pages, lv) == S)
      else
        && FitsSizes(P, lw, leaves, j, how, order) && Mendable(leaves, j, how)
        && Leaves() == Mended(leaves, j, how) && seen == K.Up(MendKeys(Leaves(), j, how))
        && (|lv| > 1 ==> Seps(pages, lv) == MendSeps(S, Leaves(), j, how))
    }

    /** CoalesceOrRedistribute: mends a page that has become too small. The result tells whether a page was
        released. (The size test at its beginning always succeeds where it is called from.) */
    method CoalesceOrRedistribute(node: int, ghost h: nat, ghost j: nat) returns (deleted: bool, ghost how: Mend)
      requires Allocated() && Counted() && Ends() && order >= 3
      requires h < |lv| && j < |lv[h]| && lv[h][j] == node && node in pages
      requires TreeBut(pages, lv, rootPage, order, node, true) && Underfull(pages[node], IsTop(lv, h), order)
      modifies `pages, `numPages, `rootPage, `firstLeaf, `lastLeaf, `lv, `seen
      ensures if old(pages)[node].isLeaf && old(pages)[node].slots == [] && old(IsTop(lv, h))
              then deleted && Emptied() && old(Entries()) == [] && seen == old(seen)
              else
                && Sound() && Entries() == old(Entries())
                && RepairedLeaves(old(pages), old(lv), old(Leaves()), old(seen), old(Seps(pages, lv)), h, j, how)
                && (h == 0 ==> (deleted <==> how.WithLeft? || how.WithRight?))
      ensures !deleted ==> lv == old(lv)
      ensures old(IsTop(lv, h)) && (if old(pages)[node].isLeaf then old(pages)[node].slots != [] else |old(pages)[node].slots| != 1) ==>
        !deleted && pages == old(pages) && rootPage == old(rootPage) && how == Stays
      ensures forall q: nat :: h == 0 && old(LastChildGoes(pages, lv, order, j, q)) ==>
        deleted && LastChildGone(old(pages), old(lv), pages, lv, j, q)
      decreases |lv| - h, 1
    {
      hide Seps, TreeBut, FitsSizes, Mended, Known;
      ParentlessIsTop(pages, lv, rootPage, order, node, h, j);
      if pages[node].parent == IX_NO_PAGE {
        how := Stays;
        if h == 0 {
          NoRepair(pages, lv, rootPage, order, j, node);
        }
        ghost var K, leaves := seen, Leaves();
        deleted := AdjustRoot(node);
        UpNothing(K);
        StaysSame(leaves, j);
      } else {
        deleted, how := MendBelowRoot(node, h, j);
      }
    }

    static lemma UpNothing(K: Seen)
      ensures K.Up({}) == K
    {
    }

    static lemma StaysSame(leaves: seq<seq<Slot>>, j: nat)
      requires j < |leaves|
      ensures Mendable(leaves, j, Stays) && Mended(leaves, j, Stays) == leaves && MendKeys(leaves, j, Stays) == {}
    {
    }

    // CoalesceOrRedistribute below the root: borrow from the left, borrow from the right, merge left, merge right.
    method MendBelowRoot(node: int, ghost h: nat, ghost j: nat) returns (deleted: bool, ghost how: Mend)
      requires Allocated() && Counted() && Ends() && order >= 3
      requires h < |lv| && j < |lv[h]| && lv[h][j] == node && node in pages && pages[node].parent != IX_NO_PAGE
      requires TreeBut(pages, lv, rootPage, order, node, true) && Underfull(pages[node], false, order)
      modifies `pages, `numPages, `rootPage, `firstLeaf, `lastLeaf, `lv, `seen
      ensures Sound() && Entries() == old(Entries())
      ensures RepairedLeaves(old(pages), old(lv), old(Leaves()), old(seen), old(Seps(pages, lv)), h, j, how)
      ensures h == 0 ==> (deleted <==> how.WithLeft? || how.WithRight?)
      ensures forall r: nat :: h == 0 && old(LastChildGoes(pages, lv, order, j, r)) ==>
        deleted && LastChildGone(old(pages), old(lv), pages, lv, j, r)
      ensures !deleted ==> lv == old(lv)
      decreases |lv| - h, 1, 0
    {
      hide Seps, TreeBut, Flat, GoodPage, Known, FitsSizes, Mended, MendKeys, Together, LastChildGone, Total, JoinedLeaves, LentLeaves, RepairedLeaves;
      ghost var P, lw, leaves, K, S := pages, lv, Leaves(), seen, Seps(pages, lv);
      ParentlessIsTop(pages, lv, rootPage, order, node, h, j);
      ghost var q, i := PlaceInParent(pages, lv, rootPage, order, h, j);
      ParentSize(pages, lv, rootPage, order, h, j, q);
      var parent := pages[node].parent;
      var childId := FindChild(parent, node);
      PlaceUnique(pages, lv, rootPage, order, h, j, node, q, i, childId);
      LastChildPlace(h, j, q, i);
      how := Stays;
      if h == 0 {
        how := TheRepair(pages, lv, rootPage, order, j, q, i);
      }
      var least := if pages[node].isLeaf then MinSize(order) - 1 else MinSize(order);
      var hasLeft := false;
      if childId > 0 {
        hasLeft := true;
        Sibling(pages, lv, rootPage, order, h, j, q, i, childId - 1);
        var left := pages[parent].slots[childId - 1].rid.pageNo;
        if |pages[left].slots| > least {
          Redistribute(left, node, parent, childId, h, j - 1, j, q);
          LentIs(P, lw, leaves, K, S, h, j - 1, j, how);
          return false, how;
        }
      }
      if childId < |pages[parent].slots| - 1 {
        Sibling(pages, lv, rootPage, order, h, j, q, i, childId + 1);
        var right := pages[parent].slots[childId + 1].rid.pageNo;
        if |pages[right].slots| > least {
          Redistribute(right, node, parent, childId, h, j, j, q);
          LentIs(P, lw, leaves, K, S, h, j, j, how);
          return false, how;
        }
      }
      if hasLeft {
        var left := pages[parent].slots[childId - 1].rid.pageNo;
        Coalesce(left, node, parent, childId, h, j - 1, j, q);
        JoinedIs(P, lw, leaves, K, S, h, j - 1, j, how);
      } else {
        var right := pages[parent].slots[childId + 1].rid.pageNo;
        Coalesce(right, node, parent, childId, h, j, j, q);
        JoinedIs(P, lw, leaves, K, S, h, j, j, how);
      }
      deleted := true;
    }

    // The leaves after a borrowing or a merge are those after the repair.
    lemma LentIs(P: Pages, lw: seq<seq<int>>, leaves: seq<seq<Slot>>, K: Seen, S: seq<int>, h: nat, j: nat, m: nat, how: Mend)
      requires LentLeaves(leaves, K, S, h, j, m) && (m == j || m == j + 1)
      requires h == 0 ==> FitsSizes(P, lw, leaves, m, how, order) && how == if m == j then FromRight else FromLeft
      ensures RepairedLeaves(P, lw, leaves, K, S, h, m, how)
    {
    }

    lemma JoinedIs(P: Pages, lw: seq<seq<int>>, leaves: seq<seq<Slot>>, K: Seen, S: seq<int>, h: nat, j: nat, m: nat, how: Mend)
      requires JoinedLeaves(leaves, K, S, h, j) && (m == j || m == j + 1)
      requires h == 0 ==> FitsSizes(P, lw, leaves, m, how, order) && how == if m == j then WithRight else WithLeft
      ensures RepairedLeaves(P, lw, leaves, K, S, h, m, how)
    {
    }

    // The last child of its page is the child in its last slot.
    lemma LastChildPlace(h: nat, j: nat, q: nat, i: nat)
      requires h + 1 < |lv| && q < |lv[h + 1]| && i < |SlotsOf(pages, lv[h + 1][q])| && j == Offset(pages, lv[h + 1], q) + i
      ensures forall r: nat :: h == 0 && LastChildGoes(pages, lv, order, j, r) ==> r == q && i == |SlotsOf(pages, lv[h + 1][q])| - 1 && i > 0
    {
      forall r: nat | h == 0 && LastChildGoes(pages, lv, order, j, r)
        ensures r == q && i == |SlotsOf(pages, lv[h + 1][q])| - 1 && i > 0
      {
        OffUnique(pages, lv[1], q, i, r, |SlotsOf(pages, lv[1][r])| - 1);
      }
    }

    // delete_entry, first step: the pair leaves its leaf.
    method TakeFromLeaf(leaf: int, key: int, ghost j: nat) returns (removed: bool)
      requires Sound() && Covers(pages, lv, 0, j, key) && lv[0][j] == leaf && leaf in pages && pages[leaf].spare != []
      modifies `pages
      ensures removed <==> key in old(Contents())
      ensures Allocated()
      ensures leaf in pages && pages[leaf].isLeaf && |pages[leaf].slots| + |pages[leaf].spare| == order + 1
      ensures if removed then TreeBut(pages, lv, rootPage, order, leaf, true) && Contents() == old(Contents()) - {key}
              else pages == old(pages)
      ensures removed ==> var pos := LowerBound(old(pages)[leaf].slots, key);
              pos < |old(pages)[leaf].slots| && old(pages)[leaf].slots[pos].key == key && pages == old(pages)[leaf := EraseAt(old(pages)[leaf], pos)]
      ensures removed ==> var n := pages[leaf];
              if |n.slots| < Least(IsTop(lv, 0)) then Underfull(n, IsTop(lv, 0), order)
              else SizeOK(n, IsTop(lv, 0), order)
    {
      hide TreeBut, Known, Flat, IsTop;
      ghost var P := pages;
      LeafSize(P, lv, rootPage, order, j);
      LeafRoom(P, lv, rootPage, order, j);
      LeafDecides(P, lv, rootPage, order, j, key);
      var before := |pages[leaf].slots|;
      RemoveExact(pages[leaf], key);
      pages := pages[leaf := Remove(pages[leaf], key)];
      if |pages[leaf].slots| == before {
        assert pages == P;
        return false;
      }
      ErasedKnown(P, leaf, LowerBound(P[leaf].slots, key), seen);
      LeafRemove(P, pages, lv, rootPage, order, j, LowerBound(P[leaf].slots, key));
      removed := true;
    }

    // The number of keys below which delete_entry mends a leaf.
    ghost function Least(top: bool): int {
      if top then 2 else MinSize(order) - 1
    }

    // delete_entry, second step: a leaf that has become too small is mended.
    method MendLeaf(leaf: int, ghost j: nat) returns (deleted: bool, ghost how: Mend)
      requires Allocated() && Counted() && Ends()
      requires j < |lv[0]| && lv[0][j] == leaf && leaf in pages && pages[leaf].isLeaf
      requires TreeBut(pages, lv, rootPage, order, leaf, true)
      requires if |pages[leaf].slots| < Least(IsTop(lv, 0)) then Underfull(pages[leaf], IsTop(lv, 0), order)
               else SizeOK(pages[leaf], IsTop(lv, 0), order)
      modifies `pages, `numPages, `rootPage, `firstLeaf, `lastLeaf, `lv, `seen
      ensures if old(Entries()) == [] then deleted && Emptied() && seen == old(seen)
              else
                && Sound() && Entries() == old(Entries())
                && RepairedLeaves(old(pages), old(lv), old(Leaves()), old(seen), old(Seps(pages, lv)), 0, j, how)
                && (deleted <==> how.WithLeft? || how.WithRight?)
      ensures !deleted ==> lv == old(lv) && SlotsOf(pages, leaf) != []
      ensures |old(pages)[leaf].slots| >= Enough(old(IsTop(lv, 0)), order) ==>
        !deleted && how == Stays && pages == old(pages) && rootPage == old(rootPage)
      ensures forall q: nat :: old(LastChildGoes(pages, lv, order, j, q)) ==>
        deleted && LastChildGone(old(pages), old(lv), pages, lv, j, q)
    {
      hide Seps, TreeBut, Known, FitsSizes, Mended, Flat;
      OnlyLeaf(pages, lv, rootPage, order, j);
      ParentlessIsTop(pages, lv, rootPage, order, leaf, 0, j);
      var size, root := |pages[leaf].slots|, pages[leaf].parent == IX_NO_PAGE;
      deleted := false;
      how := Stays;
      if (size < MinSize(order) - 1 && !root) || (size < 2 && root) {
        deleted, how := CoalesceOrRedistribute(leaf, 0, j);
      } else {
        AllSizes(pages, lv, rootPage, order, 0, j, true);
        NoRepair(pages, lv, rootPage, order, j, leaf);
        UpNothing(seen);
        StaysSame(Leaves(), j);
      }
      if !deleted {
        LeafFilled(pages, lv, rootPage, order, j);
      }
    }

    // The keys that a deletion leaves on inner pages: that of a repair, and the first one of the leaf when the first byte
    // of its first key is not what it was.
    ghost function DropKeys(after: seq<seq<Slot>>, j: nat, how: Mend, before: int, inner: bool): set<int> {
      MendKeys(after, j, how) +
      if inner && !how.WithLeft? && !how.WithRight? && j < |after| && after[j] != [] && before != firstByte(after[j][0].key)
      then {after[j][0].key} else {}
    }

    // The separators after a deletion from leaf j.
    ghost function DropSeparators(S: seq<int>, after: seq<seq<Slot>>, j: nat, how: Mend, before: int): seq<int> {
      DropSeps(S, after, j, how, j < |after| && after[j] != [] && before != firstByte(after[j][0].key))
    }

    // The leaves, the keys that have been seen and the separators after a deletion from leaf j and its repair.
    ghost predicate DroppedLeaves(P: Pages, lw: seq<seq<int>>, leaves: seq<seq<Slot>>, K: Seen, S: seq<int>, j: nat, how: Mend, before: int)
      reads `pages, `lv, `seen
    {
      && FitsSizes(P, lw, leaves, j, how, order) && Mendable(leaves, j, how) && Leaves() == Mended(leaves, j, how)
      && seen == K.Up(DropKeys(Leaves(), j, how, before, |lw| > 1))
      && (|lv| > 1 ==> Separators() == DropSeparators(S, Leaves(), j, how, before))
    }

    lemma RepairIs(P: Pages, lw: seq<seq<int>>, leaves: seq<seq<Slot>>, K: Seen, S: seq<int>, j: nat, how: Mend)
      requires RepairedLeaves(P, lw, leaves, K, S, 0, j, how)
      ensures FitsSizes(P, lw, leaves, j, how, order) && Mendable(leaves, j, how) && Leaves() == Mended(leaves, j, how)
      ensures seen == K.Up(MendKeys(Leaves(), j, how)) && (|lv| > 1 ==> Seps(pages, lv) == MendSeps(S, Leaves(), j, how))
    {
    }

    // After the repair, which has left the leaves `after`, the keys K1 and the separators S1, separator j was corrected.
    lemma DropIs(P: Pages, lw: seq<seq<int>>, leaves: seq<seq<Slot>>, K: Seen, S: seq<int>, j: nat, how: Mend, before: int, K1: Seen, S1: seq<int>)
      requires FitsSizes(P, lw, leaves, j, how, order) && Mendable(leaves, j, how) && Leaves() == Mended(leaves, j, how)
      requires K1 == K.Up(MendKeys(Leaves(), j, how)) && (|lv| > 1 ==> S1 == MendSeps(S, Leaves(), j, how))
      requires how.WithLeft? || how.WithRight? ==> seen == K1 && Seps(pages, lv) == S1
      requires !how.WithLeft? && !how.WithRight? ==>
        && lv == lw && j < |Leaves()| && Leaves()[j] != []
        && var first := Leaves()[j][0].key;
        if before == firstByte(first) then seen == K1 && Seps(pages, lv) == S1
        else seen == K1.Up(if |lv| > 1 then {first} else {}) && Seps(pages, lv) == CorrectedSep(S1, j, first)
      ensures DroppedLeaves(P, lw, leaves, K, S, j, how, before)
    {
      hide Seps, FitsSizes, Mended, Mendable, MendKeys, MendSeps;
    }

    // delete_entry, last step: the separators, when the first byte of the leaf's first key has changed.
    method SettleLeaf(leaf: int, before: int, ghost j: nat) returns (ghost how: Mend)
      requires Allocated() && Counted() && Ends()
      requires j < |lv[0]| && lv[0][j] == leaf && leaf in pages && pages[leaf].isLeaf
      requires TreeBut(pages, lv, rootPage, order, leaf, true)
      requires if |pages[leaf].slots| < Least(IsTop(lv, 0)) then Underfull(pages[leaf], IsTop(lv, 0), order)
               else SizeOK(pages[leaf], IsTop(lv, 0), order)
      modifies `pages, `numPages, `rootPage, `firstLeaf, `lastLeaf, `lv, `seen
      ensures if old(Entries()) == [] then Emptied() && seen == old(seen)
              else
                && Sound() && Entries() == old(Entries())
                && DroppedLeaves(old(pages), old(lv), old(Leaves()), old(seen), old(Seps(pages, lv)), j, how, before)
      ensures |old(pages)[leaf].slots| >= Enough(old(IsTop(lv, 0)), order) ==>
        how == Stays && lv == old(lv) && rootPage == old(rootPage) && SameSlots(old(pages), pages, lv[0])
      ensures |old(pages)[leaf].slots| >= Enough(old(IsTop(lv, 0)), order) && old(pages)[leaf].slots != [] ==>
        before == firstByte(old(pages)[leaf].slots[0].key) ==> pages == old(pages)
      ensures forall q: nat :: old(LastChildGoes(pages, lv, order, j, q)) ==>
        LastChildGone(old(pages), old(lv), pages, lv, j, q)
    {
      hide Seps, TreeBut, Known, Flat, Underfull, FitsSizes, Mended, MendKeys, LastChildGoes, LastChildGone, SizeOK, Mendable, IsTop;
      hide RepairedLeaves, DroppedLeaves, Leaves;
      ghost var P, lw, leaves, K, S, alive := pages, lv, Leaves(), seen, Seps(pages, lv), Entries() != [];
      var deleted;
      deleted, how := MendLeaf(leaf, j);
      if alive {
        RepairIs(P, lw, leaves, K, S, j, how);
      }
      ghost var K1, S1 := seen, Seps(pages, lv);
      if !deleted {
        LeavesAt(j);
        SettleKeys(leaf, before, j);
      }
      if alive {
        DropIs(P, lw, leaves, K, S, j, how, before, K1, S1);
      }
    }

    lemma LeavesAre()
      requires lv != []
      ensures Leaves() == LeafSlots(pages, lv[0])
    {
    }

    lemma LeavesAt(j: nat)
      requires lv != [] && j < |lv[0]|
      ensures j < |Leaves()| && Leaves()[j] == SlotsOf(pages, lv[0][j])
    {
    }

    // Its separators, in a tree that lacks nothing else.
    method SettleKeys(leaf: int, before: int, ghost j: nat)
      requires Sound() && j < |lv[0]| && lv[0][j] == leaf && SlotsOf(pages, leaf) != []
      modifies `pages, `seen
      ensures Sound() && Entries() == old(Entries()) && Leaves() == old(Leaves()) && SameSlots(old(pages), pages, lv[0])
      ensures var first := old(SlotsOf(pages, leaf)[0].key);
        if before == firstByte(first) then pages == old(pages) && seen == old(seen)
        else
          && seen == old(seen).Up(if |lv| > 1 then {first} else {})
          && Settled(old(pages), pages, lv, 0, j) && Seps(pages, lv) == CorrectedSep(old(Seps(pages, lv)), j, first)
    {
      hide Seps, TreeBut, Known, Flat, Settled, Total;
      ghost var P := pages;
      if before != firstByte(pages[leaf].Physical()[0].key) {
        MaintainLeaf(leaf, j, true);
        SettledLeaves(P, pages, lv, j);
      }
    }

    // delete_entry once the leaf is found.
    method DeleteFrom(leaf: int, key: int, ghost j: nat) returns (ok: bool, ghost how: Mend)
      requires Sound() && Covers(pages, lv, 0, j, key) && lv[0][j] == leaf && leaf in pages && pages[leaf].spare != []
      requires forall a, b :: 0 <= a < b < |lv[0]| ==> lv[0][a] != lv[0][b]
      modifies `pages, `numPages, `rootPage, `firstLeaf, `lastLeaf, `lv, `seen
      ensures ok <==> key in old(Contents())
      ensures !ok ==> pages == old(pages) && lv == old(lv) && rootPage == old(rootPage) && seen == old(seen) && Sound() && Contents() == old(Contents())
      ensures ok ==> if old(Contents()) - {key} == map[] then Emptied() && seen == old(seen)
                     else Sound() && Contents() == old(Contents()) - {key}
      ensures ok ==> Dropped(old(pages), old(lv), old(rootPage), old(seen), leaf, key, j, how, old(Contents()) - {key} != map[])
    {
      hide Seps, TreeBut, Known, Flat, DroppedLeaves, IsTop, LastChildGone, LastChildGoes, Dropped, LowerBound, Leaves, Underfull, SizeOK, Least;
      how := Stays;
      ghost var P, lw, root, K, M := pages, lv, rootPage, seen, Contents();
      var before := firstByte(pages[leaf].Physical()[0].key);
      ok := TakeFromLeaf(leaf, key, j);
      if ok {
        EmptyMap(Entries());
        FirstByteOf(P[leaf]);
        LeavesPut(P, lv[0], j, EraseAt(P[leaf], LowerBound(P[leaf].slots, key)), 0);
        ghost var Q := pages;
        TreeNodesBut(P, lw, root, order, -1, true);
        SepsLeaf(P, Q, lw, j, Q[leaf]);
        LeavesAre();
        how := SettleLeaf(leaf, before, j);
        DroppedIs(P, Q, lw, root, K, leaf, key, j, how, M - {key} != map[], before);
      }
    }

    // What the two steps add up to.
    lemma DroppedIs(P: Pages, Q: Pages, lw: seq<seq<int>>, root: int, K: Seen, leaf: int, key: int, j: nat, how: Mend, alive: bool, before: int)
      requires lw != [] && j < |lw[0]| && leaf in P && P[leaf].slots != [] && before == firstByte(P[leaf].slots[0].key)
      requires var pos := LowerBound(P[leaf].slots, key);
        pos < |P[leaf].slots| && P[leaf].slots[pos].key == key && Q == P[leaf := EraseAt(P[leaf], pos)]
      requires LeafSlots(Q, lw[0]) == LeafSlots(P, lw[0])[j := Q[leaf].slots]
      requires alive ==> DroppedLeaves(Q, lw, LeafSlots(Q, lw[0]), K, Seps(P, lw), j, how, before)
      requires |Q[leaf].slots| >= Enough(IsTop(lw, 0), order) ==>
        && how == Stays && lv == lw && rootPage == root
        && (Q[leaf].slots != [] && before == firstByte(Q[leaf].slots[0].key) ==> pages == Q)
      requires forall q: nat :: LastChildGoes(Q, lw, order, j, q) ==> LastChildGone(Q, lw, pages, lv, j, q)
      ensures Dropped(P, lw, root, K, leaf, key, j, how, alive)
    {
      hide Seps, DroppedLeaves, LastChildGoes, LastChildGone;
    }

    lemma FirstByteOf(n: Node)
      requires n.slots != []
      ensures n.Physical()[0] == n.slots[0]
    {
    }

    /** What the deletion of a stored key does from pages P and levels lw on: leaf number j loses its slot and is mended
        where it has become too small, as `how` tells; the keys that come to stand on inner pages are `DropKeys`, and the
        separators are `DropSeparators`: where the first byte of its first key has changed, the separator of the leaf is
        that key. A leaf
        that keeps enough keys stays, and no other page changes if the first byte of its first key is the same. If it is
        merged away as the last child of its page, its separator misleads the search there. */
    ghost predicate Dropped(P: Pages, lw: seq<seq<int>>, root: int, K: Seen, leaf: int, key: int, j: nat, how: Mend, alive: bool)
      reads `pages, `rootPage, `lv, `seen
    {
      && lw != [] && j < |lw[0]| && leaf in P && var n := P[leaf]; var pos := LowerBound(n.slots, key);
      && pos < |n.slots| && n.slots[pos].key == key
      && var Q := P[leaf := EraseAt(n, pos)]; var leaves := LeafSlots(P, lw[0])[j := EraseAt(n, pos).slots];
      && (|n.slots| > Enough(IsTop(lw, 0), order) ==> how == Stays && lv == lw && rootPage == root)
      && (|n.slots| > Enough(IsTop(lw, 0), order) && EraseAt(n, pos).slots != [] && firstByte(n.slots[0].key) == firstByte(EraseAt(n, pos).slots[0].key) ==>
            pages == Q)
      && (alive ==> DroppedLeaves(Q, lw, leaves, K, Seps(P, lw), j, how, firstByte(n.slots[0].key)))
      && forall q: nat :: LastChildGoes(Q, lw, order, j, q) ==> LastChildGone(Q, lw, pages, lv, j, q)
    }

    // What is known of the leaf at the end of the way down.
    lemma LeafReady(j: nat)
      requires Sound() && j < |lv[0]|
      ensures lv != [] && lv[0][j] in pages && pages[lv[0][j]].spare != [] && pages[lv[0][j]].isLeaf && Known(pages, seen) && Nodes(pages, lv, order)
      ensures forall a, b :: 0 <= a < b < |lv[0]| ==> lv[0][a] != lv[0][b]
      ensures forall h :: 0 < h < |lv| ==> lv[0][j] !in lv[h]
    {
      LeafRoom(pages, lv, rootPage, order, j);
      LeavesDistinct(pages, lv, rootPage, order, -1, true);
      forall h | 0 < h < |lv| ensures lv[0][j] !in lv[h] {
        ElsewhereNot(lv, 0, j, h);
      }
    }

    // The strays after a deletion: where no page but the leaf has changed, they are those of before on the inner pages,
    // and one more on the leaves if the slot was not the first of its leaf; otherwise perhaps all spare slots.
    ghost method MarkStale(P: Pages, leaf: int, pos: nat, K: Seen, kept: bool)
      requires Sound() && leaf in P && pos < |P[leaf].slots| && P[leaf].isLeaf && Known(P, K) && stale.Within(K)
      requires K.all == seen.all && K.inner <= seen.inner
      requires kept ==>
        && pages == P[leaf := EraseAt(P[leaf], pos)] && Quiet(P, lv, stale) && leaf in lv[0] && Nodes(P, lv, order)
        && forall h :: 0 < h < |lv| ==> leaf !in lv[h]
      modifies `stale
      ensures Valid() && Contents() == old(Contents())
      ensures kept ==> stale.inner == old(stale).inner
      ensures kept && pos > 0 ==> stale == old(stale).(leaf := old(stale).leaf + {P[leaf].slots[|P[leaf].slots| - 1]})
    {
      hide TreeBut, Quiet, Known, Nodes, Spares;
      TreeNodes(pages, lv, rootPage, order, -1);
      QuietSpares(pages, lv, order, seen);
      if !kept {
        stale := AllSpares(pages);
      } else if pos > 0 {
        QuietErase(P, lv, leaf, pos, stale);
        LastKnown(P, leaf, K);
        stale := stale.(leaf := stale.leaf + {P[leaf].slots[|P[leaf].slots| - 1]});
      } else {
        QuietEraseFirst(P, lv, order, leaf, pos, stale);
        stale := stale.(leaf := Spares(pages, true) + {ZERO});
      }
    }

    static lemma LastKnown(P: Pages, p: int, K: Seen)
      requires Known(P, K) && p in P && P[p].isLeaf && P[p].slots != []
      ensures P[p].slots[|P[p].slots| - 1].key in K.all
    {
      assert KeysIn(P[p], K.all);
    }

    /** delete_entry: the map loses the key, and the result says whether it was there. When the last pair goes,
        the tree goes with it. What else it does is `Dropped`. Where no page but the leaf changes, there are no new strays
        on inner pages, and on the leaves the last slot is the only one if the leaf kept its first. */
    method DeleteEntry(key: int) returns (ok: bool, ghost j: nat, ghost how: Mend)
      requires Valid() && ClearRoute(key)
      modifies this
      ensures ok <==> key in old(Contents())
      ensures !ok ==> pages == old(pages) && lv == old(lv) && rootPage == old(rootPage) && stale == old(stale) && seen == old(seen) && Valid()
      ensures if old(Contents()).Keys == {key} then Emptied()
              else Valid() && Contents() == old(Contents()) - {key}
      ensures seen.all == old(seen.all)
      ensures j < |old(lv)[0]| && old(lv)[0][j] == old(LeafOf(key)) && old(LeafOf(key)) in old(pages)
      ensures ok ==>
        Dropped(old(pages), old(lv), old(rootPage), old(seen), old(LeafOf(key)), key, j, how, old(Contents()).Keys != {key})
      ensures ok && old(Contents()).Keys != {key} ==> var n := old(pages)[old(LeafOf(key))]; var pos := LowerBound(n.slots, key);
        && pos < |n.slots|
        && (pages == old(pages)[old(LeafOf(key)) := EraseAt(n, pos)] && lv == old(lv) ==>
              && stale.inner == old(stale).inner
              && (pos > 0 ==> stale == old(stale).(leaf := old(stale).leaf + {n.slots[|n.slots| - 1]})))
    {
      hide Sound, Contents, LeafOf, ClearRoute, Known, Quiet, Emptied, Strays.Within, Nodes, Dropped;
      var leaf;
      leaf, j := FindLeafPage(key);
      LeafReady(j);
      ghost var P, K, lw, root, M := pages, seen, lv, rootPage, Contents();
      ok, how := DeleteFrom(leaf, key, j);
      if ok {
        OnlyKey(M, key);
        ghost var pos := LowerBound(P[leaf].slots, key);
        DroppedAt(P, lw, root, K, leaf, key, j, how, M.Keys != {key});
        if M.Keys != {key} {
          MarkStale(P, leaf, pos, K, pages == P[leaf := EraseAt(P[leaf], pos)] && lv == lw);
        }
      } else {
        assert M == M - {key};
      }
    }

    lemma DroppedAt(P: Pages, lw: seq<seq<int>>, root: int, K: Seen, leaf: int, key: int, j: nat, how: Mend, alive: bool)
      requires Dropped(P, lw, root, K, leaf, key, j, how, alive)
      ensures leaf in P && LowerBound(P[leaf].slots, key) < |P[leaf].slots|
      ensures alive ==> seen.all == K.all && K.inner <= seen.inner
    {
    }

    // A leaf that can do without the key stays, and so does all else if it keeps its first key.
    lemma DroppedStays(P: Pages, lw: seq<seq<int>>, root: int, K: Seen, leaf: int, key: int, j: nat, how: Mend, alive: bool)
      requires Dropped(P, lw, root, K, leaf, key, j, how, alive) && |P[leaf].slots| > Enough(IsTop(lw, 0), order)
      ensures j < |lw[0]| && LowerBound(P[leaf].slots, key) < |P[leaf].slots| && how == Stays && lv == lw && rootPage == root
      ensures LowerBound(P[leaf].slots, key) > 0 ==> pages == P[leaf := EraseAt(P[leaf], LowerBound(P[leaf].slots, key))]
      ensures alive ==> Leaves() == LeafSlots(P, lw[0])[j := EraseAt(P[leaf], LowerBound(P[leaf].slots, key)).slots]
      ensures alive && |lv| > 1 ==> var first := P[leaf].slots[0].key; var now := EraseAt(P[leaf], LowerBound(P[leaf].slots, key)).slots;
        Separators() == if now != [] && firstByte(first) != firstByte(now[0].key) then CorrectedSep(Seps(P, lw), j, now[0].key) else Seps(P, lw)
    {
    }

    // Leaf j, the last child of page q, is merged away.
    lemma DroppedLast(P: Pages, lw: seq<seq<int>>, root: int, K: Seen, leaf: int, key: int, j: nat, how: Mend, alive: bool, q: nat)
      requires Dropped(P, lw, root, K, leaf, key, j, how, alive)
      requires LastChildGoes(P[leaf := EraseAt(P[leaf], LowerBound(P[leaf].slots, key))], lw, order, j, q)
      ensures LastChildGone(P[leaf := EraseAt(P[leaf], LowerBound(P[leaf].slots, key))], lw, pages, lv, j, q)
    {
    }
  }
}
