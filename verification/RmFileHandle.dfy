/** A record file: its header fields and its pages, and the operations on records. */
module RmFileHandle {
  import opened Defs
  import opened RecordPage
  import opened RecordFile
  import opened RmPageHandle

  class RmFileHandle {
    // file header; record size and records per page are in the layout
    const l: Layout
    var numPages: int
    var firstFreePageNo: int
    var pages: map<int, RmPageHandle>
    // the list of the pages with room
    ghost var free: seq<int>

    // the page handles and their bytes
    ghost var repr: set<object>

    ghost predicate Covered()
      reads this
    {
      forall p :: p in pages ==> pages[p] in repr && pages[p].data in repr
    }

    // Page handles do not share pages.
    ghost predicate Separate()
      reads this
    {
      forall p, q :: p in pages && q in pages && p != q ==> pages[p] != pages[q] && pages[p].data != pages[q].data
    }

    ghost function Values(): RmPages
      requires Covered()
      reads this, repr
    {
      map p | p in pages :: pages[p].Value()
    }

    /** The pages are numbered from 1 to numPages - 1, each with its own handle. */
    ghost predicate Shape()
      reads this
    {
      && numPages >= 1 && (forall p :: p in pages <==> 1 <= p < numPages)
      && l.Valid() && BitmapFits(l) && Separate() && Covered() && this !in repr
      && (forall p :: p in pages ==> pages[p].data.Length == l.Body() && pages[p].l == l)
    }

    /** The counts of the pages agree with their bitmaps, and the free list leads through exactly the pages with room. */
    ghost predicate Valid()
      reads this, repr
    {
      Shape() && PagesOK(l, Values()) && FreeList(l, Values(), firstFreePageNo, free)
    }

    /** The records by place. */
    ghost function Records(): map<Rid, seq<bv8>>
      requires Valid()
      reads this, repr
    {
      Table(l, Values())
    }

    lemma PagesThere()
      requires Valid()
      ensures numPages >= 1 && l.n >= 1 && forall p :: p in pages <==> 1 <= p < numPages
    {
    }

    // Where a record can be, and how long it is.
    lemma RecordAt(rid: Rid)
      requires Valid() && rid in Records()
      ensures rid.pageNo in pages && 1 <= rid.pageNo < numPages && 0 <= rid.slotNo < l.n && |Records()[rid]| == l.size
    {
      TableAt(l, Values(), rid);
    }

    /** Where insert_record puts the next record: the lowest free slot of the first page of the list, or of a new page. */
    ghost predicate NextPlace(rid: Rid)
      requires Valid()
      reads this, repr
    {
      && rid.pageNo == (if firstFreePageNo == RM_NO_PAGE then numPages else firstFreePageNo)
      && 0 <= rid.slotNo < l.n && rid !in Records() && forall k :: 0 <= k < rid.slotNo ==> Rid(rid.pageNo, k) in Records()
    }

    // Some page has room for a record.
    ghost predicate Roomy()
      requires Valid()
      reads this, repr
    {
      HasRoom(Records(), numPages, l.n)
    }

    lemma FirstFree()
      requires Valid()
      ensures firstFreePageNo != RM_NO_PAGE <==> Roomy()
      ensures firstFreePageNo != RM_NO_PAGE ==> 1 <= firstFreePageNo < numPages && free != []
    {
      hide PagesOK, FreeList, Table, HasRoom;
      ListMeansRoom(l, Values(), firstFreePageNo, free, numPages);
    }

    /** create_file and open_file: a file without pages. Its pages will hold as many records as can be. */
    constructor (recordSize: nat)
      requires 1 <= recordSize <= RM_MAX_RECORD_SIZE
      ensures Valid() && Records() == map[] && repr == {} && numPages == 1
      ensures l == Layout(RecordsPerPage(recordSize), recordSize)
      ensures l.size == recordSize && l.n * (1 + 8 * l.size) <= 8 * 4075 + 1 < (l.n + 1) * (1 + 8 * l.size)
    {
      PageFits(recordSize);
      l := Layout(RecordsPerPage(recordSize), recordSize);
      numPages, firstFreePageNo, pages := 1, RM_NO_PAGE, map[];
      free, repr := [], {};
    }

    // create_new_page_handle: the new page becomes the first one with room.
    method CreateNewPage()
      requires Valid()
      modifies this
      ensures Valid() && Records() == old(Records()) && free == [old(numPages)] + old(free) && firstFreePageNo == old(numPages)
      ensures fresh(repr - old(repr)) && numPages == old(numPages) + 1
      ensures Values() == old(Values())[old(numPages) := EmptyPage(l, old(firstFreePageNo))]
    {
      hide PagesOK, FreeList, Table, EmptyPage, BitmapFits;
      ghost var P := Values();
      var first := firstFreePageNo;
      PageAdded(l, P, numPages, first);
      AddedFree(l, P, first, free, numPages);
      AppendPage(first);
      ghost var Q := Values();
      firstFreePageNo := numPages - 1;
      free := [numPages - 1] + free;
      assert Values() == Q;
    }

    // The new page gets its handle.
    method AppendPage(next: int)
      requires Shape()
      modifies this`pages, this`numPages, this`repr
      ensures Shape() && fresh(repr - old(repr)) && numPages == old(numPages) + 1
      ensures Values() == old(Values())[old(numPages) := EmptyPage(l, next)]
    {
      hide EmptyPage, BitmapFits;
      ghost var P := Values();
      var page := new RmPageHandle(l, next);
      pages := pages[numPages := page];
      repr := repr + {page, page.data};
      numPages := numPages + 1;
      assert Values() == P[numPages - 1 := EmptyPage(l, next)];
    }

    // insert_record on a page: the slot, the bit and the count.
    method FillSlot(p: int, k: nat, buf: seq<bv8>)
      requires Shape() && p in pages && k < l.n && |buf| == l.size
      modifies pages[p], pages[p].data
      ensures Values() == old(Values())[p := WithRecord(l, old(pages[p].Value()), k, buf)]
    {
      hide BitmapFits, MarkSlot;
      var h := pages[p];
      ghost var P, v := Values(), h.Value();
      h.CopyIn(k, buf);
      h.Set(k);
      h.numRecords := h.numRecords + 1;
      assert h.Value() == WithRecord(l, v, k, buf);
      forall x | x in pages && x != p ensures pages[x].Value() == old(pages[x].Value()) {
        assert pages[x] != h && pages[x].data != h.data;
      }
      assert Values() == P[p := h.Value()];
    }

    // delete_record on a page: the bit and the count.
    method EmptySlot(p: int, k: nat)
      requires Shape() && p in pages && k < l.n
      modifies pages[p], pages[p].data
      ensures Values() == old(Values())[p := WithoutRecord(l, old(pages[p].Value()), k)]
    {
      var h := pages[p];
      ghost var P, v := Values(), h.Value();
      h.Reset(k);
      h.numRecords := h.numRecords - 1;
      assert h.Value() == WithoutRecord(l, v, k);
      forall x | x in pages && x != p ensures pages[x].Value() == old(pages[x].Value()) {
        assert pages[x] != h && pages[x].data != h.data;
      }
      assert Values() == P[p := h.Value()];
    }

    /** insert_record: the record is added at the lowest free slot of the first page with room; there is a new page only if
        no page has room. */
    method InsertRecord(buf: seq<bv8>) returns (rid: Rid)
      requires Valid() && |buf| == l.size
      modifies this, repr
      ensures Valid() && fresh(repr - old(repr))
      ensures old(NextPlace(rid)) && Records() == old(Records())[rid := buf]
      ensures numPages == old(numPages) + if old(Roomy()) then 0 else 1
    {
      hide Valid, Records, HasRoom;
      FirstFree();
      if firstFreePageNo == RM_NO_PAGE {
        CreateNewPage();
        FirstFree();
      }
      rid := InsertIntoFree(buf);
    }

    // insert_record once there is a page with room.
    method InsertIntoFree(buf: seq<bv8>) returns (rid: Rid)
      requires Valid() && |buf| == l.size && free != []
      modifies this, repr
      ensures Valid() && repr == old(repr) && numPages == old(numPages)
      ensures rid !in old(Records()) && Records() == old(Records())[rid := buf]
      ensures rid.pageNo == old(firstFreePageNo) && 0 <= rid.slotNo < l.n
      ensures forall k :: 0 <= k < rid.slotNo ==> Rid(rid.pageNo, k) in old(Records())
    {
      hide Table, PagesOK, FreeList, WithRecord, Live;
      ghost var P := Values();
      FirstHasRoom(l, P, firstFreePageNo, free);
      var p := firstFreePageNo;
      var k := pages[p].NextBit(false, -1);
      assert P[p] == pages[p].Value();
      forall j | 0 <= j < k ensures Rid(p, j) in Table(l, P) {
        TableAt(l, P, Rid(p, j));
      }
      Inserted(l, P, p, k, buf);
      FillSlot(p, k, buf);
      InsertedFree(l, P, p, free, k, buf);
      AdvanceFree(p, k, Values());
      rid := Rid(p, k);
    }

    // The end of insert_record: a page that has become full leaves the list.
    method AdvanceFree(p: int, ghost k: nat, ghost Q: RmPages)
      requires Shape() && p in pages && p == firstFreePageNo && free != [] && Q == Values()
      requires if Q[p].numRecords >= l.n then FreeList(l, Q, Q[p].nextFree, free[1..]) else FreeList(l, Q, p, free)
      modifies this`firstFreePageNo, this`free
      ensures Shape() && Values() == Q && FreeList(l, Q, firstFreePageNo, free)
    {
      hide FreeList;
      assert Q[p] == pages[p].Value();
      if pages[p].numRecords >= l.n {
        firstFreePageNo := pages[p].nextFreePageNo;
        free := free[1..];
      }
      assert Values() == Q;
    }

    /** delete_record: the record at the place is gone; a place without a record is left alone. */
    method DeleteRecord(rid: Rid)
      requires Valid() && rid.pageNo in pages && 0 <= rid.slotNo < l.n
      modifies this, repr
      ensures Valid() && repr == old(repr) && numPages == old(numPages)
      ensures Records() == old(Records()) - {rid}
    {
      hide Table, PagesOK, FreeList, WithoutRecord;
      ghost var P := Values();
      var p, k := rid.pageNo, rid.slotNo;
      TableAt(l, P, rid);
      var live := pages[p].TestBit(k);
      if live {
        Removed(l, P, p, k);
        EmptySlot(p, k);
        if pages[p].numRecords == l.n - 1 {
          ReleasePage(P, p, k);
        } else {
          StillListed(l, P, firstFreePageNo, free, p, k);
        }
      }
    }

    // release_page_handle: a page that was full becomes the first one with room.
    method ReleasePage(ghost P: RmPages, p: int, ghost k: nat)
      requires Shape() && p in pages && P.Keys == pages.Keys && k < l.n
      requires PagesOK(l, P) && FreeList(l, P, firstFreePageNo, free) && Live(l, P[p].body, k)
      requires Values() == P[p := WithoutRecord(l, P[p], k)] && pages[p].numRecords == l.n - 1
      modifies this`firstFreePageNo, this`free, pages[p]
      ensures Values() == P[p := WithoutRecord(l, P[p], k).(nextFree := old(firstFreePageNo))]
      ensures PagesOK(l, Values()) && FreeList(l, Values(), firstFreePageNo, free)
      ensures Table(l, Values()) == Table(l, P) - {Rid(p, k)}
    {
      hide Table, PagesOK, FreeList, WithoutRecord;
      var h := pages[p];
      ghost var Q := Values();
      Removed(l, P, p, k);
      HeaderAlone(l, Q, p, firstFreePageNo);
      Released(l, P, firstFreePageNo, free, p, k);
      h.nextFreePageNo := firstFreePageNo;
      firstFreePageNo := p;
      free := [p] + free;
      assert h.Value() == Q[p].(nextFree := old(firstFreePageNo));
      forall x | x in pages && x != p ensures pages[x].Value() == old(pages[x].Value()) {
        assert pages[x] != h && pages[x].data != h.data;
      }
      assert Values() == Q[p := h.Value()];
    }

    /** update_record: the record at the place has the new bytes. */
    method UpdateRecord(rid: Rid, buf: seq<bv8>)
      requires Valid() && rid.pageNo in pages && 0 <= rid.slotNo < l.n && |buf| == l.size
      modifies this, repr
      ensures Valid() && repr == old(repr) && numPages == old(numPages)
      ensures Records() == if rid in old(Records()) then old(Records())[rid := buf] else old(Records())
    {
      hide Table, PagesOK, FreeList;
      ghost var P := Values();
      var p, k := rid.pageNo, rid.slotNo;
      Overwritten(l, P, p, k, buf);
      var h := pages[p];
      h.CopyIn(k, buf);
      forall x | x in pages && x != p ensures pages[x].Value() == old(pages[x].Value()) {
        assert pages[x] != h && pages[x].data != h.data;
      }
      assert Values() == P[p := WithBytes(l, P[p], k, buf)];
      SameFree(l, P, Values(), firstFreePageNo, free);
    }

    /** get_record: the bytes at the place. */
    method GetRecord(rid: Rid) returns (r: seq<bv8>)
      requires Valid() && rid.pageNo in pages && 0 <= rid.slotNo < l.n
      ensures Valid() && (rid in Records() ==> r == Records()[rid])
    {
      hide Table, PagesOK, FreeList;
      TableAt(l, Values(), rid);
      assert Values()[rid.pageNo] == pages[rid.pageNo].Value();
      r := pages[rid.pageNo].CopyOut(rid.slotNo);
    }
  }
}
