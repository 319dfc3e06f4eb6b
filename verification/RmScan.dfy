/** The scan of a record file. */
module RmScan {
  import opened Defs
  import opened RecordPage
  import opened RecordFile
  import opened RmFileHandle

  // The order of pages, and of slots within a page.
  predicate Before(a: Rid, b: Rid) {
    a.pageNo < b.pageNo || (a.pageNo == b.pageNo && a.slotNo < b.slotNo)
  }

  class RmScan {
    const fh: RmFileHandle
    var rid: Rid

    // The end of the file.
    function End(): Rid
      reads this, fh
    {
      Rid(fh.numPages, fh.l.n)
    }

    predicate IsEnd()
      reads this, fh
    {
      rid == End()
    }

    // rid is the first record behind `from`, or the end when there is none.
    ghost predicate FirstBehind(from: Rid)
      requires fh.Valid()
      reads this, fh, fh.repr
    {
      if rid in fh.Records() then
        Before(from, rid) && forall r :: r in fh.Records() && Before(from, r) ==> r == rid || Before(rid, r)
      else
        IsEnd() && forall r :: r in fh.Records() ==> !Before(from, r)
    }

    /** What a place of the file means for the table. */
    lemma PlaceIs(p: int, k: int)
      requires fh.Valid() && p in fh.pages && 0 <= k < fh.l.n
      ensures Rid(p, k) in fh.Records() <==> Live(fh.l, fh.pages[p].data[..], k)
    {
      TableAt(fh.l, fh.Values(), Rid(p, k));
      assert fh.Values()[p] == fh.pages[p].Value();
    }

    // Bitmap::next_bit on page p, behind slot k, in terms of the table.
    method NextOnPage(p: int, k: int) returns (slot: nat)
      requires fh.Valid() && p in fh.pages && -1 <= k < fh.l.n
      ensures k < slot <= fh.l.n && fh.Valid()
      ensures slot < fh.l.n ==> Rid(p, slot) in fh.Records()
      ensures forall r :: r in fh.Records() && r.pageNo == p && r.slotNo > k ==> slot <= r.slotNo && slot < fh.l.n
    {
      slot := fh.pages[p].NextBit(true, k);
      if slot < fh.l.n {
        PlaceIs(p, slot);
      }
      forall r | r in fh.Records() && r.pageNo == p && r.slotNo > k ensures slot <= r.slotNo && slot < fh.l.n {
        fh.RecordAt(r);
        PlaceIs(p, r.slotNo);
        assert r == Rid(p, r.slotNo);
      }
    }

    /** The constructor stands on the first record. In a file without records it stands nowhere: not on a record,
        and not at the end either. `slot` is what the slot number happens to be when no loop sets it. */
    constructor (fh: RmFileHandle, slot: int)
      requires fh.Valid()
      ensures this.fh == fh && fh.Valid() && this !in fh.repr
      ensures rid in fh.Records() <==> fh.Records() != map[]
      ensures forall r :: r in fh.Records() ==> r == rid || Before(rid, r)
      ensures !IsEnd()
    {
      this.fh := fh;
      rid := Rid(0, slot);
      new;
      assert this !in fh.repr;
      Seek();
    }

    // The body of the constructor.
    method Seek()
      requires fh.Valid() && this !in fh.repr && rid.pageNo == 0
      modifies this
      ensures fh.Valid()
      ensures rid in fh.Records() <==> fh.Records() != map[]
      ensures forall r :: r in fh.Records() ==> r == rid || Before(rid, r)
      ensures !IsEnd()
    {
      hide RmFileHandle.Valid, RmFileHandle.Records;
      fh.PagesThere();
      ghost var R := fh.Records();
      RecordPlaces();
      var maxN := fh.l.n;
      if fh.numPages == 1 {
        rid := Rid(0, maxN);
        assert fh.Valid() && fh.Records() == R;
        return;
      }
      var i := 1;
      while i < fh.numPages
        invariant 1 <= i <= fh.numPages && fh.Valid() && fh.Records() == R && rid.pageNo == i - 1
        invariant forall r :: r in R ==> r.pageNo >= i
      {
        rid := rid.(pageNo := i);
        var slotNo := NextOnPage(i, -1);
        if slotNo != maxN {
          rid := Rid(i, slotNo);
          assert fh.Valid() && fh.Records() == R;
          return;
        }
        i := i + 1;
      }
    }

    lemma RecordPlaces()
      requires fh.Valid()
      ensures forall r :: r in fh.Records() ==> 1 <= r.pageNo < fh.numPages && 0 <= r.slotNo < fh.l.n
    {
      forall r | r in fh.Records() ensures 1 <= r.pageNo < fh.numPages && 0 <= r.slotNo < fh.l.n {
        fh.RecordAt(r);
      }
    }

    /** next: the first record behind the current one, or the end. */
    method Next()
      requires fh.Valid() && rid in fh.Records() && this !in fh.repr
      modifies this
      ensures fh.Valid() && FirstBehind(old(rid))
    {
      hide RmFileHandle.Valid, RmFileHandle.Records;
      fh.PagesThere();
      RecordPlaces();
      ghost var from, R := rid, fh.Records();
      var init := rid.pageNo;
      var i := rid.pageNo;
      while i < fh.numPages
        invariant init <= i <= fh.numPages && fh.Valid() && fh.Records() == R
        invariant i == init ==> rid == from
        invariant forall r :: r in R && Before(from, r) ==> r.pageNo >= i
      {
        rid := rid.(pageNo := i);
        var slotNo := NextOnPage(i, if i == init then rid.slotNo else -1);
        if slotNo != fh.l.n {
          rid := Rid(i, slotNo);
          return;
        }
        i := i + 1;
      }
      rid := Rid(fh.numPages, fh.l.n);
      assert fh.Valid() && fh.Records() == R;
    }
  }

  // The loop of a client over all records.
  method ScanAll(fh: RmFileHandle, slot: int) returns (rids: seq<Rid>)
    requires fh.Valid() && fh.Records() != map[]
    ensures fh.Valid() && forall r :: r in rids <==> r in fh.Records()
    ensures forall i, j :: 0 <= i < j < |rids| ==> Before(rids[i], rids[j])
  {
    hide RmFileHandle.Valid, RmFileHandle.Records;
    ghost var R := fh.Records();
    var scan := new RmScan(fh, slot);
    rids := [];
    scan.RecordPlaces();
    while !scan.IsEnd()
      invariant fh.Valid() && fh.Records() == R && scan.fh == fh
      invariant scan.rid in R || scan.IsEnd()
      invariant forall r :: r in rids ==> r in R && (scan.IsEnd() || Before(r, scan.rid))
      invariant forall r :: r in R && r !in rids ==> !scan.IsEnd() && (r == scan.rid || Before(scan.rid, r))
      invariant forall i, j :: 0 <= i < j < |rids| ==> Before(rids[i], rids[j])
      decreases fh.numPages - scan.rid.pageNo, fh.l.n - scan.rid.slotNo
    {
      rids := rids + [scan.rid];
      scan.Next();
    }
  }
}
