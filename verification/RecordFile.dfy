/** The pages of a record file as values: the table of records that they hold and the list of the pages with room. */
module RecordFile {
  import opened Defs
  import opened RecordPage

  const RM_NO_PAGE: int := -1

  datatype RmPage = RmPage(nextFree: int, numRecords: int, body: seq<bv8>)

  type RmPages = map<int, RmPage>

  ghost predicate PageOK(l: Layout, p: RmPage) {
    l.Valid() && |p.body| == l.Body() && BitmapFits(l) && p.numRecords == Count(BitmapOf(l, p.body), l.n)
  }

  ghost predicate BitmapFits(l: Layout) {
    l.n <= BitmapSize(l.n) * BITMAP_WIDTH
  }

  ghost predicate PagesOK(l: Layout, P: RmPages) {
    l.Valid() && forall p :: p in P ==> PageOK(l, P[p])
  }

  /** The records: every place whose bit is set, with the bytes of its slot. */
  ghost function Table(l: Layout, P: RmPages): map<Rid, seq<bv8>>
    requires PagesOK(l, P)
  {
    map p, k | p in P && 0 <= k < l.n && Live(l, P[p].body, k) :: Rid(p, k) := Slot(l, P[p].body, k)
  }

  lemma TableAt(l: Layout, P: RmPages, r: Rid)
    requires PagesOK(l, P)
    ensures r in Table(l, P) <==> r.pageNo in P && 0 <= r.slotNo < l.n && Live(l, P[r.pageNo].body, r.slotNo)
    ensures r in Table(l, P) ==> Table(l, P)[r] == Slot(l, P[r.pageNo].body, r.slotNo)
  {
    assert r == Rid(r.pageNo, r.slotNo);
  }

  lemma SameMap(a: map<Rid, seq<bv8>>, b: map<Rid, seq<bv8>>)
    requires forall r :: r in a <==> r in b
    requires forall r :: r in a && r in b ==> a[r] == b[r]
    ensures a == b
  {
  }

  // Link i of the list.
  ghost predicate LinkOK(P: RmPages, free: seq<int>, i: int)
    requires 0 <= i < |free|
  {
    free[i] in P && P[free[i]].nextFree == if i + 1 < |free| then free[i + 1] else RM_NO_PAGE
  }

  /** From `first` on, the next_free_page_no fields lead through exactly the pages with room, each once. */
  ghost predicate FreeList(l: Layout, P: RmPages, first: int, free: seq<int>) {
    && first == (if free == [] then RM_NO_PAGE else free[0])
    && (forall i, j :: 0 <= i < j < |free| ==> free[i] != free[j])
    && (forall i :: 0 <= i < |free| ==> LinkOK(P, free, i))
    && (forall p :: p in P ==> (p in free <==> P[p].numRecords < l.n))
  }

  // ---- what the steps do to the table

  // Two sets of pages that agree but for page p have tables that agree but for its places.
  lemma TablesBut(l: Layout, P: RmPages, Q: RmPages, p: int, r: Rid)
    requires PagesOK(l, P) && PagesOK(l, Q) && r.pageNo != p
    requires (r.pageNo in P <==> r.pageNo in Q) && (r.pageNo in P ==> P[r.pageNo] == Q[r.pageNo])
    ensures r in Table(l, P) <==> r in Table(l, Q)
    ensures r in Table(l, P) && r in Table(l, Q) ==> Table(l, P)[r] == Table(l, Q)[r]
  {
    TableAt(l, P, r);
    TableAt(l, Q, r);
  }

  // The bit and the slot of place k.
  predicate SameSlot(l: Layout, p: RmPage, q: RmPage, k: nat)
    requires l.Valid() && |p.body| == |q.body| == l.Body() && k < l.n
  {
    (Live(l, p.body, k) <==> Live(l, q.body, k)) && Slot(l, p.body, k) == Slot(l, q.body, k)
  }

  function WithRecord(l: Layout, p: RmPage, k: nat, buf: seq<bv8>): RmPage
    requires l.Valid() && |p.body| == l.Body() && k < l.n && |buf| == l.size
  {
    p.(body := MarkSlot(l, WriteSlot(l, p.body, k, buf), k), numRecords := p.numRecords + 1)
  }

  lemma PageInserted(l: Layout, p: RmPage, k: nat, buf: seq<bv8>)
    requires PageOK(l, p) && k < l.n && |buf| == l.size && !Live(l, p.body, k)
    ensures var q := WithRecord(l, p, k, buf);
      PageOK(l, q) && Live(l, q.body, k) && Slot(l, q.body, k) == buf
      && forall j :: 0 <= j < l.n && j != k ==> SameSlot(l, p, q, j)
  {
    var q, w := WithRecord(l, p, k, buf), WriteSlot(l, p.body, k, buf);
    WriteAlone(l, p.body, k, buf, k);
    MarkAlone(l, w, k, k);
    BucketInside(k, l.n);
    CountSet(BitmapOf(l, p.body), l.n, k);
    forall j | 0 <= j < l.n && j != k ensures SameSlot(l, p, q, j) {
      WriteAlone(l, p.body, k, buf, j);
      MarkAlone(l, w, k, j);
    }
  }

  /** Writing a free slot and setting its bit adds a record. */
  lemma Inserted(l: Layout, P: RmPages, p: int, k: nat, buf: seq<bv8>)
    requires PagesOK(l, P) && p in P && k < l.n && |buf| == l.size && !Live(l, P[p].body, k)
    ensures PagesOK(l, P[p := WithRecord(l, P[p], k, buf)]) && Rid(p, k) !in Table(l, P)
    ensures Table(l, P[p := WithRecord(l, P[p], k, buf)]) == Table(l, P)[Rid(p, k) := buf]
  {
    hide Table, Live, Slot, WithRecord;
    PageInserted(l, P[p], k, buf);
    var Q := P[p := WithRecord(l, P[p], k, buf)];
    assert PagesOK(l, Q);
    TableAt(l, P, Rid(p, k));
    var A, B := Table(l, Q), Table(l, P)[Rid(p, k) := buf];
    forall r ensures (r in A <==> r in B) && (r in A && r in B ==> A[r] == B[r]) {
      if r.pageNo != p {
        TablesBut(l, P, Q, p, r);
      } else {
        TableAt(l, P, r);
        TableAt(l, Q, r);
        assert 0 <= r.slotNo < l.n && r.slotNo != k ==> SameSlot(l, P[p], Q[p], r.slotNo);
      }
    }
    SameMap(A, B);
  }

  function WithoutRecord(l: Layout, p: RmPage, k: nat): RmPage
    requires l.Valid() && |p.body| == l.Body() && k < l.n
  {
    p.(body := ClearSlot(l, p.body, k), numRecords := p.numRecords - 1)
  }

  lemma PageRemoved(l: Layout, p: RmPage, k: nat)
    requires PageOK(l, p) && k < l.n && Live(l, p.body, k)
    ensures var q := WithoutRecord(l, p, k);
      PageOK(l, q) && !Live(l, q.body, k) && forall j :: 0 <= j < l.n && j != k ==> SameSlot(l, p, q, j)
  {
    var q := WithoutRecord(l, p, k);
    MarkAlone(l, p.body, k, k);
    BucketInside(k, l.n);
    CountReset(BitmapOf(l, p.body), l.n, k);
    forall j | 0 <= j < l.n && j != k ensures SameSlot(l, p, q, j) {
      MarkAlone(l, p.body, k, j);
    }
  }

  /** Clearing the bit of a record removes it. */
  lemma Removed(l: Layout, P: RmPages, p: int, k: nat)
    requires PagesOK(l, P) && p in P && k < l.n && Live(l, P[p].body, k)
    ensures PagesOK(l, P[p := WithoutRecord(l, P[p], k)]) && Rid(p, k) in Table(l, P)
    ensures Table(l, P[p := WithoutRecord(l, P[p], k)]) == Table(l, P) - {Rid(p, k)}
  {
    hide Table, Live, Slot, WithoutRecord;
    PageRemoved(l, P[p], k);
    var Q := P[p := WithoutRecord(l, P[p], k)];
    assert PagesOK(l, Q);
    TableAt(l, P, Rid(p, k));
    var A, B := Table(l, Q), Table(l, P) - {Rid(p, k)};
    forall r ensures (r in A <==> r in B) && (r in A && r in B ==> A[r] == B[r]) {
      if r.pageNo != p {
        TablesBut(l, P, Q, p, r);
      } else {
        TableAt(l, P, r);
        TableAt(l, Q, r);
        assert 0 <= r.slotNo < l.n && r.slotNo != k ==> SameSlot(l, P[p], Q[p], r.slotNo);
      }
    }
    SameMap(A, B);
  }

  function WithBytes(l: Layout, p: RmPage, k: nat, buf: seq<bv8>): RmPage
    requires l.Valid() && |p.body| == l.Body() && k < l.n && |buf| == l.size
  {
    p.(body := WriteSlot(l, p.body, k, buf))
  }

  lemma PageOverwritten(l: Layout, p: RmPage, k: nat, buf: seq<bv8>)
    requires PageOK(l, p) && k < l.n && |buf| == l.size
    ensures var q := WithBytes(l, p, k, buf);
      PageOK(l, q) && (Live(l, q.body, k) <==> Live(l, p.body, k)) && Slot(l, q.body, k) == buf
      && forall j :: 0 <= j < l.n && j != k ==> SameSlot(l, p, q, j)
  {
    var q := WithBytes(l, p, k, buf);
    WriteAlone(l, p.body, k, buf, k);
    forall j | 0 <= j < l.n && j != k ensures SameSlot(l, p, q, j) {
      WriteAlone(l, p.body, k, buf, j);
    }
  }

  /** Writing a slot changes the record there, if there is one, and no other. */
  lemma Overwritten(l: Layout, P: RmPages, p: int, k: nat, buf: seq<bv8>)
    requires PagesOK(l, P) && p in P && k < l.n && |buf| == l.size
    ensures PagesOK(l, P[p := WithBytes(l, P[p], k, buf)])
    ensures Table(l, P[p := WithBytes(l, P[p], k, buf)])
         == if Rid(p, k) in Table(l, P) then Table(l, P)[Rid(p, k) := buf] else Table(l, P)
  {
    hide Table, Live, Slot, WithBytes;
    PageOverwritten(l, P[p], k, buf);
    var Q := P[p := WithBytes(l, P[p], k, buf)];
    assert PagesOK(l, Q);
    TableAt(l, P, Rid(p, k));
    var A, B := Table(l, Q), if Rid(p, k) in Table(l, P) then Table(l, P)[Rid(p, k) := buf] else Table(l, P);
    forall r ensures (r in A <==> r in B) && (r in A && r in B ==> A[r] == B[r]) {
      if r.pageNo != p {
        TablesBut(l, P, Q, p, r);
      } else {
        TableAt(l, P, r);
        TableAt(l, Q, r);
        assert 0 <= r.slotNo < l.n && r.slotNo != k ==> SameSlot(l, P[p], Q[p], r.slotNo);
      }
    }
    SameMap(A, B);
  }

  // The header of a page is not part of the table.
  lemma HeaderAlone(l: Layout, P: RmPages, p: int, next: int)
    requires PagesOK(l, P) && p in P
    ensures PagesOK(l, P[p := P[p].(nextFree := next)]) && Table(l, P[p := P[p].(nextFree := next)]) == Table(l, P)
  {
    hide Table, Live, Slot;
    var Q := P[p := P[p].(nextFree := next)];
    assert PageOK(l, P[p]) && PageOK(l, Q[p]);
    var A, B := Table(l, Q), Table(l, P);
    forall r ensures (r in A <==> r in B) && (r in A && r in B ==> A[r] == B[r]) {
      TableAt(l, P, r);
      TableAt(l, Q, r);
    }
    SameMap(A, B);
  }

  function EmptyPage(l: Layout, next: int): RmPage {
    RmPage(next, 0, seq(l.Body(), _ => 0))
  }

  lemma EmptyPageOK(l: Layout, next: int)
    requires l.Valid() && BitmapFits(l)
    ensures PageOK(l, EmptyPage(l, next))
    ensures forall k :: 0 <= k < l.n ==> !Live(l, EmptyPage(l, next).body, k)
  {
    var b := BitmapOf(l, EmptyPage(l, next).body);
    forall k | 0 <= k < l.n ensures GetBucket(k) < |b| && !IsSet(b, k) {
      BucketInside(k, l.n);
      ZerosClear(b, k);
    }
    CountFull(b, l.n);
  }

  /** A new page brings no record. */
  lemma PageAdded(l: Layout, P: RmPages, p: int, next: int)
    requires PagesOK(l, P) && p !in P && BitmapFits(l)
    ensures PagesOK(l, P[p := EmptyPage(l, next)]) && Table(l, P[p := EmptyPage(l, next)]) == Table(l, P)
  {
    hide Table, Live, Slot, EmptyPage;
    EmptyPageOK(l, next);
    var Q := P[p := EmptyPage(l, next)];
    assert PagesOK(l, Q);
    var A, B := Table(l, Q), Table(l, P);
    forall r ensures (r in A <==> r in B) && (r in A && r in B ==> A[r] == B[r]) {
      if r.pageNo != p {
        TablesBut(l, P, Q, p, r);
      } else {
        TableAt(l, P, r);
        TableAt(l, Q, r);
      }
    }
    SameMap(A, B);
  }

  /** A page has room exactly if it has a clear bit. */
  lemma Room(l: Layout, p: RmPage)
    requires PageOK(l, p)
    ensures 0 <= p.numRecords <= l.n
    ensures p.numRecords < l.n <==> exists k :: 0 <= k < l.n && !Live(l, p.body, k)
  {
    CountFull(BitmapOf(l, p.body), l.n);
    forall k | 0 <= k < l.n ensures Live(l, p.body, k) <==> IsSet(BitmapOf(l, p.body), k) {
    }
  }

  /** Some place on the pages 1 to numPages - 1 holds no record. */
  ghost predicate HasRoom(t: map<Rid, seq<bv8>>, numPages: int, n: nat) {
    exists p, k :: 1 <= p < numPages && 0 <= k < n && Rid(p, k) !in t
  }

  /** The list of pages with room is empty exactly if every place holds a record. */
  lemma ListMeansRoom(l: Layout, P: RmPages, first: int, free: seq<int>, numPages: int)
    requires PagesOK(l, P) && FreeList(l, P, first, free) && forall p :: p in P <==> 1 <= p < numPages
    ensures first != RM_NO_PAGE <==> HasRoom(Table(l, P), numPages, l.n)
    ensures first != RM_NO_PAGE ==> 1 <= first < numPages && free != []
  {
    hide Live, Table;
    if free != [] {
      FirstHasRoom(l, P, first, free);
      var k :| 0 <= k < l.n && !Live(l, P[first].body, k);
      TableAt(l, P, Rid(first, k));
    }
    if HasRoom(Table(l, P), numPages, l.n) {
      var p, k :| 1 <= p < numPages && 0 <= k < l.n && Rid(p, k) !in Table(l, P);
      TableAt(l, P, Rid(p, k));
      assert PageOK(l, P[p]);
      Room(l, P[p]);
    }
  }

  // ---- what the steps do to the list

  // The first page of the list has become full.
  lemma PoppedFree(l: Layout, P: RmPages, Q: RmPages, first: int, free: seq<int>)
    requires FreeList(l, P, first, free) && free != [] && first in P && Q.Keys == P.Keys
    requires Q[first].nextFree == P[first].nextFree && Q[first].numRecords >= l.n
    requires forall p :: p in P && p != first ==> Q[p] == P[p]
    ensures FreeList(l, Q, Q[first].nextFree, free[1..])
  {
    var rest := free[1..];
    assert LinkOK(P, free, 0);
    forall i | 0 <= i < |rest| ensures LinkOK(Q, rest, i) {
      assert LinkOK(P, free, i + 1);
    }
    forall p | p in Q ensures p in rest <==> Q[p].numRecords < l.n {
      assert free == [first] + rest;
      if p == first {
        assert forall i :: 0 <= i < |rest| ==> rest[i] == free[i + 1] != free[0];
      }
    }
  }

  // A page that is not in the list and has room now comes to its front.
  lemma PushedFree(l: Layout, P: RmPages, Q: RmPages, first: int, free: seq<int>, p: int)
    requires FreeList(l, P, first, free) && p !in free && p in Q && Q.Keys == P.Keys + {p}
    requires Q[p].nextFree == first && Q[p].numRecords < l.n
    requires forall x :: x in P && x != p ==> Q[x] == P[x]
    ensures FreeList(l, Q, p, [p] + free)
  {
    var more := [p] + free;
    forall i | 0 <= i < |more| ensures LinkOK(Q, more, i) {
      if i > 0 {
        assert more[i] == free[i - 1] && LinkOK(P, free, i - 1);
      }
    }
  }

  // Links and room are as before.
  lemma SameFree(l: Layout, P: RmPages, Q: RmPages, first: int, free: seq<int>)
    requires FreeList(l, P, first, free) && Q.Keys == P.Keys
    requires forall p :: p in P ==> Q[p].nextFree == P[p].nextFree && (Q[p].numRecords < l.n <==> P[p].numRecords < l.n)
    ensures FreeList(l, Q, first, free)
  {
    forall i | 0 <= i < |free| ensures LinkOK(Q, free, i) {
      assert LinkOK(P, free, i);
    }
  }

  // A new page comes to the front of the list.
  lemma AddedFree(l: Layout, P: RmPages, first: int, free: seq<int>, p: int)
    requires l.Valid() && FreeList(l, P, first, free) && p !in P
    ensures FreeList(l, P[p := EmptyPage(l, first)], p, [p] + free)
  {
    forall i | 0 <= i < |free| ensures free[i] != p {
      assert LinkOK(P, free, i);
    }
    PushedFree(l, P, P[p := EmptyPage(l, first)], first, free, p);
  }

  lemma FirstHasRoom(l: Layout, P: RmPages, first: int, free: seq<int>)
    requires PagesOK(l, P) && FreeList(l, P, first, free) && free != []
    ensures first in P && P[first].numRecords < l.n && |P[first].body| == l.Body()
    ensures exists k :: 0 <= k < l.n && !Live(l, P[first].body, k)
  {
    assert LinkOK(P, free, 0) && PageOK(l, P[first]);
    assert free[0] in free;
    Room(l, P[first]);
  }

  // The list after an insertion into its first page.
  lemma InsertedFree(l: Layout, P: RmPages, first: int, free: seq<int>, k: nat, buf: seq<bv8>)
    requires PagesOK(l, P) && FreeList(l, P, first, free) && first in P && free != []
    requires k < l.n && |buf| == l.size
    ensures var Q := P[first := WithRecord(l, P[first], k, buf)];
      Q[first].nextFree == P[first].nextFree && Q[first].numRecords == P[first].numRecords + 1
      && if P[first].numRecords + 1 >= l.n then FreeList(l, Q, P[first].nextFree, free[1..]) else FreeList(l, Q, first, free)
  {
    var Q := P[first := WithRecord(l, P[first], k, buf)];
    assert LinkOK(P, free, 0) && free[0] in free;
    if P[first].numRecords + 1 >= l.n {
      PoppedFree(l, P, Q, first, free);
    } else {
      SameFree(l, P, Q, first, free);
    }
  }

  // The list after a deletion from a page that had room before.
  lemma StillListed(l: Layout, P: RmPages, first: int, free: seq<int>, p: int, k: nat)
    requires PagesOK(l, P) && FreeList(l, P, first, free) && p in P && k < l.n
    requires WithoutRecord(l, P[p], k).numRecords != l.n - 1
    ensures FreeList(l, P[p := WithoutRecord(l, P[p], k)], first, free)
  {
    assert PageOK(l, P[p]);
    Room(l, P[p]);
    SameFree(l, P, P[p := WithoutRecord(l, P[p], k)], first, free);
  }

  // The list after a deletion from a page that was full.
  lemma Released(l: Layout, P: RmPages, first: int, free: seq<int>, p: int, k: nat)
    requires PagesOK(l, P) && FreeList(l, P, first, free) && p in P && k < l.n
    requires WithoutRecord(l, P[p], k).numRecords == l.n - 1
    ensures FreeList(l, P[p := WithoutRecord(l, P[p], k).(nextFree := first)], p, [p] + free)
  {
    PushedFree(l, P, P[p := WithoutRecord(l, P[p], k).(nextFree := first)], first, free, p);
  }
}
