/** A scan over the leaf ring. */
module IxScan {
  import opened Defs
  import opened IxNode
  import opened IxTree
  import opened IxPositions
  import opened IxIndexHandle

  class IxScan {
    const ih: IxIndexHandle
    var iid: Iid
    var end: Iid
    // the leaves of the two places
    ghost var j: nat
    ghost var k: nat

    /** Both places are proper and the scan has not passed its end. */
    ghost predicate Valid()
      reads this, ih
    {
      && ih.Valid()
      && Proper(ih.pages, ih.lv[0], j, iid) && Proper(ih.pages, ih.lv[0], k, end)
      && At() <= Until()
    }

    // The rank of the scan's place.
    ghost function At(): int
      reads this, ih
    {
      if ih.lv != [] && j < |ih.lv[0]| then Rank(ih.pages, ih.lv[0], j, iid) else 0
    }

    ghost function Until(): int
      reads this, ih
    {
      if ih.lv != [] && k < |ih.lv[0]| then Rank(ih.pages, ih.lv[0], k, end) else 0
    }

    constructor (ih: IxIndexHandle, lower: Iid, upper: Iid, ghost j: nat, ghost k: nat)
      requires ih.Valid() && Proper(ih.pages, ih.lv[0], j, lower) && Proper(ih.pages, ih.lv[0], k, upper)
      requires Rank(ih.pages, ih.lv[0], j, lower) <= Rank(ih.pages, ih.lv[0], k, upper)
      ensures Valid() && this.ih == ih
      ensures At() == Rank(ih.pages, ih.lv[0], j, lower) && Until() == Rank(ih.pages, ih.lv[0], k, upper)
    {
      this.ih := ih;
      iid, end := lower, upper;
      this.j, this.k := j, k;
    }

    predicate IsEnd()
      reads this
    {
      iid == end
    }

    /** The comparison of two places tells whether their ranks meet. */
    lemma EndExact()
      requires Valid()
      ensures IsEnd() <==> At() == Until()
      ensures 0 <= At() <= Until() <= |ih.Entries()|
    {
      RankUnique(ih.pages, ih.lv[0], j, iid, k, end);
      RankBound(ih.pages, ih.lv[0], j, iid);
      RankBound(ih.pages, ih.lv[0], k, end);
    }

    // Before its end a scan stands on a live slot, so the assertions of next hold and get_rid finds a rid.
    lemma OnSlot()
      requires Valid() && !IsEnd()
      ensures iid.pageNo in ih.pages && ih.pages[iid.pageNo].isLeaf && 0 <= iid.slotNo < |ih.pages[iid.pageNo].slots|
      ensures 0 <= At() < |ih.Entries()| && ih.Entries()[At()] == ih.pages[iid.pageNo].slots[iid.slotNo]
    {
      EndExact();
      RankBound(ih.pages, ih.lv[0], j, iid);
      NextPlace(ih.pages, ih.lv, ih.rootPage, ih.order, j, iid);
    }

    /** next: one pair further. */
    method Next()
      requires Valid() && !IsEnd()
      modifies this
      ensures Valid() && end == old(end)
      ensures At() == old(At()) + 1 && Until() == old(Until())
    {
      hide TreeBut;
      OnSlot();
      EndExact();
      NextPlace(ih.pages, ih.lv, ih.rootPage, ih.order, j, iid);
      var page := iid.pageNo;
      iid := Iid(page, iid.slotNo + 1);
      if page != ih.lastLeaf && iid.slotNo == |ih.pages[page].slots| {
        iid := Iid(ih.pages[page].next, 0);
        j := j + 1;
      }
    }

    /** rid: the rid of the pair the scan stands on. */
    method GetRid() returns (r: Result)
      requires Valid() && !IsEnd()
      ensures 0 <= At() < |ih.Entries()| && r == Found(ih.Entries()[At()].rid)
    {
      OnSlot();
      r := ih.GetRid(iid);
    }
  }

  // The loop of a caller: the rids of all pairs from the scan's place to its end, in the order of their keys.
  method Drain(scan: IxScan) returns (rids: seq<Rid>)
    requires scan.Valid()
    modifies scan
    ensures scan.Valid() && scan.IsEnd()
    ensures var lo, hi := old(scan.At()), old(scan.Until());
            0 <= lo <= hi <= |scan.ih.Entries()| && |rids| == hi - lo
            && forall g :: 0 <= g < |rids| ==> rids[g] == scan.ih.Entries()[lo + g].rid
  {
    hide *;
    rids := [];
    scan.EndExact();
    ghost var lo := scan.At();
    while !scan.IsEnd()
      invariant scan.Valid() && scan.Until() == old(scan.Until()) && scan.At() == lo + |rids|
      invariant lo + |rids| <= |scan.ih.Entries()|
      invariant forall g :: 0 <= g < |rids| ==> rids[g] == scan.ih.Entries()[lo + g].rid
      decreases scan.Until() - scan.At()
    {
      var r := scan.GetRid();
      rids := rids + [r.rid];
      scan.Next();
      scan.EndExact();
    }
    scan.EndExact();
  }

  /** A scan from the first place to the last lists every stored pair once, in ascending order of the keys. */
  method ScanAll(ih: IxIndexHandle) returns (rids: seq<Rid>)
    requires ih.Valid()
    ensures Sorted(ih.Entries()) && |rids| == |ih.Entries()|
    ensures forall g :: 0 <= g < |rids| ==> rids[g] == ih.Entries()[g].rid
  {
    hide *;
    var lower, upper;
    ghost var j, k;
    lower, j := ih.LeafBegin();
    upper, k := ih.LeafEnd();
    var scan := new IxScan(ih, lower, upper, j, k);
    rids := Drain(scan);
    ih.EntriesAscend();
  }
}
