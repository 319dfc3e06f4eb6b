/** The buffer pool: a write-back cache of pages with pin counts, over a disk. */
module BufferPoolManager {
  import opened Cardinality
  import opened LruReplacer
  import opened PoolState

  const MAX_FD: int := 8192

  datatype Option<T> = None | Some(value: T)

  class BufferPoolManager {
    const pages: array<Page>
    var pageTable: map<PageId, int>
    var freeList: seq<int>
    const replacer: LRUReplacer
    // the disk manager: the pages on the disk and the next page number of each file
    var disk: map<PageId, Data>
    var fd2pageno: map<int, int>
    // frames whose data a client has changed since they were last flushed or unpinned as dirty
    ghost var touched: set<int>
    // the frame taken and not yet filled, or -1
    ghost var hand: int

    ghost function State(): Pool
      reads this, pages, replacer
    {
      Pool(pages[..], pageTable, freeList, replacer.Frames(), disk, touched, hand)
    }

    // The invariant with a frame in hand.
    ghost predicate Holding(h: int)
      reads this, pages, replacer
    {
      replacer.Valid() && replacer.maxSize == pages.Length && hand == h && Sound(State())
    }

    ghost predicate Valid()
      reads this, pages, replacer
    {
      Holding(-1)
    }

    constructor (poolSize: nat, disk: map<PageId, Data>, fd2pageno: map<int, int>)
      ensures Valid() && fresh(pages) && fresh(replacer) && pages.Length == poolSize
      ensures this.disk == disk && this.fd2pageno == fd2pageno && pageTable == map[] && touched == {}
      ensures forall f :: 0 <= f < poolSize ==> pages[f] == Page(PageId(0, INVALID_PAGE_NO), Zeros(), false, 0)
      ensures forall f, i :: 0 <= f < poolSize && 0 <= i < 4096 ==> |pages[f].data| == 4096 && pages[f].data[i] == 0
      ensures forall id :: Logical(State(), id) == DiskRead(disk, id)
      ensures (forall id :: id in disk ==> id.pageNo < Counter(fd2pageno, id.fd)) ==> Numbered(State(), fd2pageno)
    {
      pages := new Page[poolSize](_ => Page(PageId(0, INVALID_PAGE_NO), Zeros(), false, 0));
      pageTable := map[];
      replacer := new LRUReplacer(poolSize);
      freeList := seq(poolSize, i => i);
      this.disk, this.fd2pageno := disk, fd2pageno;
      touched, hand := {}, -1;
      new;
      forall f | 0 <= f < poolSize ensures Placed(State(), f) && Coherent(State(), f) {
        assert freeList[f] == f;
      }
    }

    // The replacer never holds more frames than there are, so its assertions hold.
    lemma ReplacerFits()
      requires replacer.Valid() && replacer.maxSize == pages.Length && Sound(State())
      ensures replacer.Size() <= replacer.maxSize
    {
      DistinctBelow(replacer.Frames(), pages.Length);
    }

    // The frame that is taken when one is needed: the first free one, else the one that became evictable first.
    ghost function NextFrame(): int
      reads this, replacer
    {
      if freeList != [] then freeList[0] else if replacer.Frames() != [] then replacer.Frames()[0] else -1
    }

    // FindVictimPage: a free frame, else the victim of the replacer.
    method TakeFrame() returns (found: bool, f: int)
      requires Valid()
      modifies this`freeList, this`hand, replacer
      ensures SameStore(old(State()), State())
      ensures found <==> exists g :: 0 <= g < pages.Length && old(pages[g].pinCount) == 0
      ensures if found then 0 <= f < pages.Length && pages[f].pinCount == 0 && Holding(f)
              else Valid() && State() == old(State())
      ensures found && old(freeList) != [] ==> f == old(freeList[0])
      ensures found && old(freeList) == [] ==> old(replacer.Frames()) != [] && f == old(replacer.Frames())[0]
    {
      ghost var s := State();
      NoneToTake(s);
      if freeList != [] {
        TakeFree(s);
        f := freeList[0];
        freeList := freeList[1..];
        found := true;
        hand := f;
        assert f in s.free;
        assert State() == s.(free := s.free[1..], hand := f);
      } else {
        ReplacerFits();
        found, f := replacer.Victim();
        if found {
          TakeVictim(s);
          hand := f;
          assert f in s.evictable;
          assert State() == s.(evictable := s.evictable[1..], hand := f);
        }
      }
      if found {
        assert Placed(State(), f);
        assert s.pages[f].pinCount == 0;
      }
    }

    // The steps between taking a frame and using it: the old page goes to the disk if it is dirty.
    method CleanFrame(f: int)
      requires 0 <= f < pages.Length && Holding(f)
      modifies this`disk, this`touched, pages
      ensures Holding(f) && SameStore(old(State()), State())
      ensures !pages[f].dirty && pages[f] == old(pages[f]).(dirty := false)
      ensures forall g :: 0 <= g < pages.Length && g != f ==> pages[g] == old(pages[g])
      ensures forall id :: id in disk ==> id in old(disk) || id in pageTable
      ensures touched <= old(touched)
    {
      ghost var s := State();
      assert Placed(s, f) && Coherent(s, f);
      if pages[f].dirty {
        if pages[f].id in pageTable {
          disk := disk[pages[f].id := pages[f].data];
        }
        pages[f] := pages[f].(dirty := false);
        touched := touched - {f};
        Written(s, f);
        assert State() == WriteBack(s, f);
      }
    }

    // The frame gets its new page, with a pin count of one.
    method FillFrame(f: int, id: PageId, data: Data)
      requires 0 <= f < pages.Length && Holding(f) && !pages[f].dirty
      requires id !in pageTable && id.pageNo != INVALID_PAGE_NO && data == DiskRead(disk, id)
      modifies this`pageTable, this`hand, pages, replacer
      ensures Valid() && SameStore(old(State()), State())
      ensures pages[f] == Page(id, data, false, 1)
      ensures id in pageTable && pageTable[id] == f && forall i :: i in pageTable ==> i in old(pageTable) || i == id
      ensures forall g :: 0 <= g < pages.Length && g != f ==> pages[g] == old(pages[g])
    {
      ghost var s := State();
      Filled(s, id, data);
      assert Placed(s, f);
      ReplacerFits();
      DropAbsent(replacer.Frames(), f);
      pageTable := pageTable - {pages[f].id};
      pageTable := pageTable[id := f];
      pages[f] := pages[f].(id := id, data := data);
      replacer.Pin(f);
      pages[f] := pages[f].(pinCount := 1);
      hand := -1;
      assert State() == Fill(s, id, data);
    }

    /** FetchPage: the frame of the page, pinned once more; no frame exactly when the page is not resident and all
        frames are pinned. No page changes, and no pinned frame but the one returned is disturbed. */
    method FetchPage(id: PageId) returns (r: Option<int>)
      requires Valid() && id.pageNo != INVALID_PAGE_NO
      modifies this, pages, replacer
      ensures Valid() && SameStore(old(State()), State()) && fd2pageno == old(fd2pageno)
      ensures r == None <==>
        id !in old(pageTable) && forall f :: 0 <= f < pages.Length ==> old(pages[f].pinCount) > 0
      ensures r.Some? ==> var f := r.value;
        && 0 <= f < pages.Length && id in pageTable && pageTable[id] == f && pages[f].id == id
        && pages[f].data == Logical(old(State()), id)
        && pages[f].pinCount == if id in old(pageTable) then old(pages[pageTable[id]].pinCount) + 1 else 1
      ensures forall f :: 0 <= f < pages.Length && r != Some(f) ==> pages[f] == old(pages[f])
      ensures r.Some? && id !in old(pageTable) && id !in old(disk) ==>
        |pages[r.value].data| == 4096 && forall i :: 0 <= i < 4096 ==> pages[r.value].data[i] == 0
      ensures r.Some? ==>
        if id in old(pageTable) then r.value == old(pageTable[id]) else old(pages[r.value].pinCount) == 0 && r.value == old(NextFrame())
      ensures r == None ==> State() == old(State())
      ensures Undisturbed(old(State()), State())
      ensures Numbered(old(State()), old(fd2pageno)) && id.pageNo < Counter(fd2pageno, id.fd) ==> Numbered(State(), fd2pageno)
    {
      hide SameStore, Numbered, Sound, Zeros;
      ghost var s := State();
      if id in pageTable {
        var f := PinResident(id);
        r := Some(f);
      } else {
        r := Load(id);
      }
      if id !in s.table && id !in s.disk && r.Some? {
        ZeroBytes(pages[r.value].data);
      }
      if Numbered(s, fd2pageno) && id.pageNo < Counter(fd2pageno, id.fd) {
        NumberedStep(s, fd2pageno, State(), fd2pageno, id);
      }
    }

    // FetchPage on a resident page.
    method PinResident(id: PageId) returns (f: int)
      requires Valid() && id in pageTable
      modifies pages, replacer
      ensures Valid() && SameStore(old(State()), State())
      ensures 0 <= f < pages.Length && f == pageTable[id]
      ensures pages[f] == old(pages[f]).(pinCount := old(pages[f].pinCount) + 1)
      ensures pages[f].id == id && pages[f].data == Logical(old(State()), id)
      ensures forall g :: 0 <= g < pages.Length && g != f ==> pages[g] == old(pages[g])
    {
      ghost var s := State();
      f := pageTable[id];
      ReplacerFits();
      PinnedOnce(s, f);
      replacer.Pin(f);
      pages[f] := pages[f].(pinCount := pages[f].pinCount + 1);
      assert State() == PinOnce(s, f);
    }

    // FetchPage on a page that is not resident.
    method Load(id: PageId) returns (r: Option<int>)
      requires Valid() && id !in pageTable && id.pageNo != INVALID_PAGE_NO
      modifies this, pages, replacer
      ensures Valid() && SameStore(old(State()), State()) && fd2pageno == old(fd2pageno)
      ensures r == None <==> forall f :: 0 <= f < pages.Length ==> old(pages[f].pinCount) > 0
      ensures r == None ==> State() == old(State())
      ensures r.Some? ==> var f := r.value;
        && 0 <= f < pages.Length && id in pageTable && pageTable[id] == f
        && pages[f] == Page(id, Logical(old(State()), id), false, 1) && old(pages[f].pinCount) == 0
        && f == old(NextFrame())
      ensures forall f :: 0 <= f < pages.Length && r != Some(f) ==> pages[f] == old(pages[f])
      ensures Undisturbed(old(State()), State())
      ensures forall i :: i in pageTable ==> i in old(pageTable) || i == id
      ensures forall i :: i in disk ==> i in old(disk) || i in old(pageTable)
    {
      hide SameStore, Sound;
      ghost var s := State();
      var found, f := TakeFrame();
      if !found {
        return None;
      }
      ghost var s1 := State();
      SameAt(s, s1, id);
      Replace(f, id, DiskRead(disk, id));
      SameStoreTwice(s, s1, State());
      r := Some(f);
    }

    // The frame in hand is cleaned and gets its new page.
    method Replace(f: int, id: PageId, data: Data)
      requires 0 <= f < pages.Length && Holding(f) && pages[f].pinCount == 0
      requires id !in pageTable && id.pageNo != INVALID_PAGE_NO && data == DiskRead(disk, id)
      modifies this`pageTable, this`hand, this`disk, this`touched, pages, replacer
      ensures Valid() && SameStore(old(State()), State()) && Undisturbed(old(State()), State())
      ensures pages[f] == Page(id, data, false, 1) && id in pageTable && pageTable[id] == f
      ensures forall g :: 0 <= g < pages.Length && g != f ==> pages[g] == old(pages[g])
      ensures forall i :: i in pageTable ==> i in old(pageTable) || i == id
      ensures forall i :: i in disk ==> i in old(disk) || i in old(pageTable)
    {
      hide SameStore, Sound, Zeros, FramesOf;
      ghost var s := State();
      CleanFrame(f);
      ghost var s1 := State();
      SameAt(s, s1, id);
      FillFrame(f, id, data);
      SameStoreTwice(s, s1, State());
    }

    /** NewPage: a page of zeros under the next number of the file. */
    method NewPage(fd: int) returns (r: Option<int>, pageNo: int)
      requires Valid() && 0 <= fd <= MAX_FD && Counter(fd2pageno, fd) >= 0
      requires Numbered(State(), fd2pageno)
      modifies this, pages, replacer
      ensures Valid() && SameStore(old(State()), State()) && Numbered(State(), fd2pageno)
      ensures r == None <==> forall f :: 0 <= f < pages.Length ==> old(pages[f].pinCount) > 0
      ensures r == None ==> fd2pageno == old(fd2pageno) && State() == old(State())
      ensures r.Some? ==> var f := r.value;
        && 0 <= f < pages.Length && pages[f] == Page(PageId(fd, pageNo), Zeros(), false, 1)
        && |pages[f].data| == 4096 && (forall i :: 0 <= i < 4096 ==> pages[f].data[i] == 0)
        && PageId(fd, pageNo) !in old(pageTable) && PageId(fd, pageNo) !in old(disk)
        && pageNo == (if fd in old(fd2pageno) then old(fd2pageno)[fd] else 0) && fd2pageno == old(fd2pageno)[fd := pageNo + 1]
        && old(pages[f].pinCount) == 0 && f == old(NextFrame())
      ensures forall f :: 0 <= f < pages.Length && r != Some(f) ==> pages[f] == old(pages[f])
      ensures Undisturbed(old(State()), State())
    {
      hide SameStore, Sound, Numbered, Zeros, FramesOf, Indexed;
      ghost var s, next := State(), fd2pageno;
      NextIsNew(s, next, fd);
      pageNo := INVALID_PAGE_NO;
      var found, f := TakeFrame();
      if !found {
        return None, pageNo;
      }
      ghost var s1 := State();
      pageNo := Counter(fd2pageno, fd);
      fd2pageno := fd2pageno[fd := pageNo + 1];
      Replace(f, PageId(fd, pageNo), Zeros());
      SameStoreTwice(s, s1, State());
      NumberedStep(s, next, State(), fd2pageno, PageId(fd, pageNo));
      r := Some(f);
      ZeroBytes(pages[f].data);
    }

    /** UnpinPage: true exactly if the page is resident and pinned; then it has one pin less. */
    method UnpinPage(id: PageId, isDirty: bool) returns (ok: bool)
      requires Valid()
      requires id in pageTable && pageTable[id] in touched && pages[pageTable[id]].pinCount == 1 ==> isDirty
      modifies this`touched, pages, replacer
      ensures Valid() && SameStore(old(State()), State())
      ensures ok <==> id in pageTable && old(pages[pageTable[id]].pinCount) > 0
      ensures State() == if ok then UnpinOnce(old(State()), pageTable[id], isDirty) else old(State())
      ensures ok ==> var f := pageTable[id]; var p := old(pages[f]);
        && pages[f] == p.(pinCount := p.pinCount - 1, dirty := p.dirty || isDirty)
        && replacer.Frames() == old(replacer.Frames()) + if p.pinCount == 1 then [f] else []
    {
      hide Coherent, Logical, Placed, SameStore;
      if id !in pageTable {
        SameStoreSelf(State());
        return false;
      }
      ghost var s := State();
      SameStoreSelf(s);
      var f := pageTable[id];
      if pages[f].pinCount == 0 {
        return false;
      }
      PinnedNotQueued(s, f, isDirty);
      TableExact();
      UnpinFrame(f, isDirty);
      ok := true;
    }

    // The frame has one pin less, and can be taken when it has none.
    method UnpinFrame(f: int, isDirty: bool)
      requires Valid() && Resident(State(), f) && pages[f].pinCount > 0 && (f in touched && pages[f].pinCount == 1 ==> isDirty)
      modifies this`touched, pages, replacer
      ensures Valid() && SameStore(old(State()), State()) && State() == UnpinOnce(old(State()), f, isDirty)
    {
      hide Coherent, Indexed, Logical, Placed, SameStore;
      ghost var s := State();
      UnpinnedOnce(s, f, isDirty);
      pages[f] := pages[f].(pinCount := pages[f].pinCount - 1);
      if pages[f].pinCount == 0 {
        ReplacerFitsBefore(s);
        replacer.Unpin(f);
      }
      if isDirty {
        pages[f] := pages[f].(dirty := true);
        touched := touched - {f};
      }
      assert State() == UnpinOnce(s, f, isDirty);
    }

    lemma ReplacerFitsBefore(s: Pool)
      requires replacer.Valid() && replacer.maxSize == pages.Length && Sound(s)
      requires |s.pages| == pages.Length && s.evictable == replacer.Frames()
      ensures replacer.Size() <= replacer.maxSize
    {
      DistinctBelow(replacer.Frames(), pages.Length);
    }

    // The page table as the frames show it.
    lemma TableExact()
      requires Valid()
      ensures forall id :: id in pageTable ==>
        && 0 <= pageTable[id] < pages.Length && pages[pageTable[id]].id == id && id.pageNo != INVALID_PAGE_NO
        && Logical(State(), id) == pages[pageTable[id]].data
    {
    }

    lemma FrameResident(f: int)
      requires Valid() && 0 <= f < pages.Length && pages[f].id.pageNo != INVALID_PAGE_NO
      ensures Resident(State(), f)
    {
      assert Placed(State(), f);
    }

    // One page is written to the disk, dirty or not.
    method WriteOut(f: int)
      requires Valid() && Resident(State(), f)
      modifies this`disk, this`touched, pages
      ensures Valid() && SameStore(old(State()), State()) && State() == WriteBack(old(State()), f)
    {
      ghost var s := State();
      Written(s, f);
      disk := disk[pages[f].id := pages[f].data];
      pages[f] := pages[f].(dirty := false);
      touched := touched - {f};
      assert State() == WriteBack(s, f);
    }

    /** FlushPage: a resident page is on the disk afterwards, as it is in its frame. */
    method FlushPage(id: PageId) returns (ok: bool)
      requires Valid()
      modifies this`disk, this`touched, pages
      ensures Valid() && SameStore(old(State()), State())
      ensures ok <==> id in pageTable
      ensures ok ==> DiskRead(disk, id) == Logical(State(), id) && !pages[pageTable[id]].dirty
      ensures State() == if ok then WriteBack(old(State()), pageTable[id]) else old(State())
    {
      if id !in pageTable {
        return false;
      }
      WriteOut(pageTable[id]);
      ok := true;
    }

    // One round of the loop of FlushAllPages.
    method FlushFrame(i: int, fd: int)
      requires Valid() && 0 <= i < pages.Length
      modifies this`disk, this`touched, pages
      ensures Valid() && SameStore(old(State()), State()) && touched <= old(touched)
      ensures forall f :: 0 <= f < pages.Length ==> pages[f] == old(pages[f]).(dirty := pages[f].dirty)
      ensures forall f :: 0 <= f < pages.Length ==> pages[f].dirty == (old(pages[f].dirty) && !(f == i && pages[f].id.fd == fd && pages[f].id.pageNo != INVALID_PAGE_NO))
      ensures if pages[i].id.fd == fd && pages[i].id.pageNo != INVALID_PAGE_NO
              then pages[i].id in pageTable && pageTable[pages[i].id] == i && disk == old(disk)[pages[i].id := pages[i].data]
              else disk == old(disk)
    {
      hide Sound, SameStore, Logical;
      SameStoreSelf(State());
      if pages[i].id.fd == fd && pages[i].id.pageNo != INVALID_PAGE_NO {
        FrameResident(i);
        WriteOut(i);
      }
    }

    /** FlushAllPages: all resident pages of the file are on the disk afterwards. */
    method FlushAllPages(fd: int)
      requires Valid()
      modifies this`disk, this`touched, pages
      ensures Valid() && SameStore(old(State()), State())
      ensures forall id :: id in pageTable && id.fd == fd ==> DiskRead(disk, id) == Logical(State(), id)
      ensures forall f :: 0 <= f < pages.Length ==> pages[f] == old(pages[f]).(dirty := pages[f].dirty)
      ensures forall f :: 0 <= f < pages.Length ==> pages[f].dirty == (old(pages[f].dirty) && !(pages[f].id.fd == fd && pages[f].id.pageNo != INVALID_PAGE_NO))
      ensures forall id :: id in disk ==> id in old(disk) || (id in pageTable && id.fd == fd)
      ensures touched <= old(touched)
      ensures Numbered(old(State()), fd2pageno) ==> Numbered(State(), fd2pageno)
    {
      hide Sound, SameStore, Logical, FramesOf, Numbered, FlushedUpTo;
      ghost var s0 := State();
      SameStoreSelf(s0);
      FlushedNone(s0, fd);
      var i := 0;
      while i < pages.Length
        invariant 0 <= i <= pages.Length && Valid() && SameStore(s0, State())
        invariant forall f :: 0 <= f < pages.Length ==> pages[f].dirty == (s0.pages[f].dirty && !(f < i && pages[f].id.fd == fd && pages[f].id.pageNo != INVALID_PAGE_NO))
        invariant FlushedUpTo(State(), fd, i)
        invariant forall f :: 0 <= f < pages.Length ==> pages[f] == s0.pages[f].(dirty := pages[f].dirty)
        invariant forall id :: id in disk ==> id in s0.disk || (id in pageTable && id.fd == fd)
        invariant touched <= s0.touched
      {
        ghost var s := State();
        FlushFrame(i, fd);
        SameStoreTwice(s0, s, State());
        FlushedOne(s, State(), fd, i);
        i := i + 1;
      }
      TableExact();
      FlushedAllOf(State(), fd);
      FlushedNumbered(s0, State(), fd2pageno);
    }

    /** A client changes a page that it has pinned: that page changes in the store, and no other. */
    method Write(f: int, data: Data)
      requires Valid() && 0 <= f < pages.Length && pages[f].pinCount > 0
      modifies this`touched, pages
      ensures Valid() && State() == ClientWrite(old(State()), f, data)
      ensures forall id :: Logical(State(), id) == if id == old(pages[f].id) then data else Logical(old(State()), id)
    {
      ghost var s := State();
      ClientWrote(s, f, data);
      pages[f] := pages[f].(data := data);
      touched := touched + {f};
      assert State() == ClientWrite(s, f, data);
    }
  }

  // The pages of the file in the first frames are on the disk as they are there.
  ghost predicate FlushedUpTo(s: Pool, fd: int, upto: nat) {
    forall f :: 0 <= f < upto && f < |s.pages| && s.pages[f].id.fd == fd && s.pages[f].id.pageNo != INVALID_PAGE_NO ==>
      var id := s.pages[f].id;
      id in s.table && s.table[id] == f && id in s.disk && s.disk[id] == s.pages[f].data
  }

  lemma FlushedOne(s: Pool, t: Pool, fd: int, i: nat)
    requires FlushedUpTo(s, fd, i) && t.table == s.table && i < |s.pages| == |t.pages|
    requires forall f :: 0 <= f < |s.pages| ==> t.pages[f].id == s.pages[f].id && t.pages[f].data == s.pages[f].data
    requires var p := s.pages[i];
      if p.id.fd == fd && p.id.pageNo != INVALID_PAGE_NO
      then p.id in s.table && s.table[p.id] == i && t.disk == s.disk[p.id := p.data]
      else t.disk == s.disk
    ensures FlushedUpTo(t, fd, i + 1)
  {
  }

  lemma FlushedNone(s: Pool, fd: int)
    ensures FlushedUpTo(s, fd, 0)
  {
  }

  lemma FlushedAllOf(s: Pool, fd: int)
    requires FlushedUpTo(s, fd, |s.pages|)
    requires forall id :: id in s.table ==>
      0 <= s.table[id] < |s.pages| && s.pages[s.table[id]].id == id && id.pageNo != INVALID_PAGE_NO
    ensures forall id :: id in s.table && id.fd == fd ==> DiskRead(s.disk, id) == Logical(s, id)
  {
  }

  lemma DistinctBelow(s: seq<int>, n: nat)
    requires Frames(s, n)
    ensures |s| <= n
  {
    DistinctSize(s);
    BelowSize(n);
    SubsetSize((set f | f in s), Below(n));
  }

  lemma {:induction false} DistinctSize(s: seq<int>)
    requires NoDuplicates(s)
    ensures |set f | f in s| == |s|
  {
    if s != [] {
      var m := |s| - 1;
      var t := s[..m];
      assert s == t + [s[m]];
      DistinctSize(t);
      assert (set f | f in s) == (set f | f in t) + {s[m]};
    }
  }
}
