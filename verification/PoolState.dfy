/** The state of the buffer pool as a value: the frames, the page table, the free list, the evictable frames and
    the disk, with the invariant that every operation keeps and the store of pages that it stands for. */
module PoolState {
  import opened LruReplacer

  const PAGE_SIZE: nat := 4096
  const INVALID_PAGE_NO: int := -1

  type Data = seq<bv8>

  function Zeros(): Data {
    seq(PAGE_SIZE, _ => 0)
  }

  // 4096 bytes 0.
  lemma ZeroBytes(data: Data)
    requires data == Zeros()
    ensures |data| == 4096 && forall i :: 0 <= i < 4096 ==> data[i] == 0
  {
  }

  datatype PageId = PageId(fd: int, pageNo: int)

  datatype Page = Page(id: PageId, data: Data, dirty: bool, pinCount: nat)

  // `evictable` are the frames in the replacer; `touched` the frames whose data a client has changed since the page
  // was last flushed or unpinned as dirty; `hand` is the frame that an operation has taken and not yet filled, or -1.
  datatype Pool = Pool(
    pages: seq<Page>,
    table: map<PageId, int>,
    free: seq<int>,
    evictable: seq<int>,
    disk: map<PageId, Data>,
    touched: set<int>,
    hand: int)

  // A page that was never written reads as zeros.
  function DiskRead(disk: map<PageId, Data>, id: PageId): Data {
    if id in disk then disk[id] else Zeros()
  }

  /** The store of pages behind the cache: the frame if the page is resident, else the disk. */
  ghost function Logical(s: Pool, id: PageId): Data {
    if id in s.table && 0 <= s.table[id] < |s.pages| then s.pages[s.table[id]].data else DiskRead(s.disk, id)
  }

  ghost predicate Resident(s: Pool, f: int) {
    0 <= f < |s.pages| && s.pages[f].id in s.table && s.table[s.pages[f].id] == f
  }

  // Every frame is free, evictable or pinned.
  ghost predicate Placed(s: Pool, f: int)
    requires 0 <= f < |s.pages|
  {
    var p := s.pages[f];
    if f == s.hand then
      f !in s.free && f !in s.evictable && p.pinCount == 0 && (Resident(s, f) || p.id.pageNo == INVALID_PAGE_NO)
    else
      && (f in s.free ==> p.pinCount == 0 && p.id.pageNo == INVALID_PAGE_NO)
      && (f !in s.free ==> Resident(s, f))
      && (f in s.evictable <==> f !in s.free && p.pinCount == 0)
  }

  // A frame that differs from the disk is resident and known to differ.
  ghost predicate Coherent(s: Pool, f: int)
    requires 0 <= f < |s.pages|
  {
    var p := s.pages[f];
    && (p.dirty || f in s.touched ==> Resident(s, f))
    && (f in s.touched ==> p.pinCount > 0)
    && (Resident(s, f) && !p.dirty && f !in s.touched ==> p.data == DiskRead(s.disk, p.id))
  }

  ghost predicate Frames(s: seq<int>, n: nat) {
    NoDuplicates(s) && forall f :: f in s ==> 0 <= f < n
  }

  /** The invariant. The page table maps each id to the frame that carries it. */
  ghost predicate Sound(s: Pool) {
    && Frames(s.free, |s.pages|) && Frames(s.evictable, |s.pages|)
    && (forall id :: id in s.table ==>
          0 <= s.table[id] < |s.pages| && s.pages[s.table[id]].id == id && id.pageNo != INVALID_PAGE_NO)
    && (forall f :: 0 <= f < |s.pages| ==> Placed(s, f) && Coherent(s, f))
    && -1 <= s.hand < |s.pages|
  }

  ghost predicate SameStore(s: Pool, t: Pool) {
    forall id :: Logical(s, id) == Logical(t, id)
  }

  lemma SameStoreSelf(s: Pool)
    ensures SameStore(s, s)
  {
  }

  lemma SameStoreTwice(s: Pool, t: Pool, u: Pool)
    requires SameStore(s, t) && SameStore(t, u)
    ensures SameStore(s, u)
  {
  }

  lemma SameAt(s: Pool, t: Pool, id: PageId)
    requires SameStore(s, t)
    ensures Logical(s, id) == Logical(t, id)
  {
  }

  // ---- the steps

  lemma TakeFree(s: Pool)
    requires Sound(s) && s.hand == -1 && s.free != []
    ensures var t := s.(free := s.free[1..], hand := s.free[0]); Sound(t) && SameStore(s, t)
  {
    var t := s.(free := s.free[1..], hand := s.free[0]);
    var h := s.free[0];
    assert h in s.free && h !in t.free;
    forall f ensures f in s.free <==> f == h || f in t.free {
      assert s.free == [h] + t.free;
    }
    forall f | 0 <= f < |t.pages| ensures Placed(t, f) && Coherent(t, f) {
      assert Placed(s, f) && Coherent(s, f);
    }
  }

  lemma TakeVictim(s: Pool)
    requires Sound(s) && s.hand == -1 && s.evictable != []
    ensures var t := s.(evictable := s.evictable[1..], hand := s.evictable[0]); Sound(t) && SameStore(s, t)
  {
    var t := s.(evictable := s.evictable[1..], hand := s.evictable[0]);
    var h := s.evictable[0];
    assert h in s.evictable && h !in t.evictable;
    forall f ensures f in s.evictable <==> f == h || f in t.evictable {
      assert s.evictable == [h] + t.evictable;
    }
    forall f | 0 <= f < |t.pages| ensures Placed(t, f) && Coherent(t, f) {
      assert Placed(s, f) && Coherent(s, f);
    }
  }

  /** No frame is to be had exactly when all are pinned. */
  lemma NoneToTake(s: Pool)
    requires Sound(s) && s.hand == -1
    ensures s.free == [] && s.evictable == [] <==> forall f :: 0 <= f < |s.pages| ==> s.pages[f].pinCount > 0
  {
    if s.free != [] {
      assert s.free[0] in s.free;
      assert Placed(s, s.free[0]);
    } else if s.evictable != [] {
      assert s.evictable[0] in s.evictable;
      assert Placed(s, s.evictable[0]);
    } else {
      forall f | 0 <= f < |s.pages| ensures s.pages[f].pinCount > 0 {
        assert Placed(s, f);
      }
    }
  }

  // The page in frame f is written to the disk, dirty or not.
  function WriteBack(s: Pool, f: int): Pool
    requires 0 <= f < |s.pages|
  {
    var p := s.pages[f];
    s.(pages := s.pages[f := p.(dirty := false)], disk := s.disk[p.id := p.data], touched := s.touched - {f})
  }

  lemma Written(s: Pool, f: int)
    requires Sound(s) && Resident(s, f)
    ensures Sound(WriteBack(s, f)) && SameStore(s, WriteBack(s, f))
  {
    var t := WriteBack(s, f);
    forall g | 0 <= g < |t.pages| ensures Placed(t, g) && Coherent(t, g) {
      assert Placed(s, g) && Coherent(s, g);
      assert t.pages[g].id == s.pages[g].id && (Resident(t, g) <==> Resident(s, g));
    }
  }

  // The frame in hand gets a page that is not in the pool.
  function Fill(s: Pool, id: PageId, data: Data): Pool
    requires 0 <= s.hand < |s.pages|
  {
    s.(pages := s.pages[s.hand := Page(id, data, false, 1)],
       table := (s.table - {s.pages[s.hand].id})[id := s.hand], hand := -1)
  }

  lemma Filled(s: Pool, id: PageId, data: Data)
    requires Sound(s) && 0 <= s.hand < |s.pages| && !s.pages[s.hand].dirty
    requires id !in s.table && id.pageNo != INVALID_PAGE_NO && data == DiskRead(s.disk, id)
    ensures Sound(Fill(s, id, data)) && SameStore(s, Fill(s, id, data))
  {
    var t, h := Fill(s, id, data), s.hand;
    var was := s.pages[h].id;
    assert Placed(s, h) && Coherent(s, h);
    forall i | i in t.table
      ensures 0 <= t.table[i] < |t.pages| && t.pages[t.table[i]].id == i && i.pageNo != INVALID_PAGE_NO
    {
    }
    forall g | 0 <= g < |t.pages| ensures Placed(t, g) && Coherent(t, g) {
      assert Placed(s, g) && Coherent(s, g);
      assert g != h && Resident(s, g) ==> s.pages[g].id != was && s.pages[g].id != id;
    }
    forall i ensures Logical(s, i) == Logical(t, i) {
      if i in s.table && s.table[i] == h {
        assert i == was && Resident(s, h);
      }
    }
  }

  function PinOnce(s: Pool, f: int): Pool
    requires 0 <= f < |s.pages|
  {
    s.(pages := s.pages[f := s.pages[f].(pinCount := s.pages[f].pinCount + 1)], evictable := Drop(s.evictable, f))
  }

  lemma PinnedOnce(s: Pool, f: int)
    requires Sound(s) && s.hand == -1 && Resident(s, f)
    ensures Sound(PinOnce(s, f)) && SameStore(s, PinOnce(s, f))
  {
    var t := PinOnce(s, f);
    DropKeeps(s.evictable, f);
    assert Placed(s, f);
    forall g | 0 <= g < |t.pages| ensures Placed(t, g) && Coherent(t, g) {
      assert Placed(s, g) && Coherent(s, g);
      assert t.pages[g].id == s.pages[g].id && (Resident(t, g) <==> Resident(s, g));
    }
  }

  function UnpinOnce(s: Pool, f: int, dirty: bool): Pool
    requires 0 <= f < |s.pages| && s.pages[f].pinCount > 0
  {
    var p := s.pages[f];
    s.(pages := s.pages[f := p.(pinCount := p.pinCount - 1, dirty := p.dirty || dirty)],
       evictable := if p.pinCount == 1 then Step(s.evictable, Unpin(f)) else s.evictable,
       touched := if dirty then s.touched - {f} else s.touched)
  }

  // The last pin of a page with changes must not go without telling that it is dirty.
  lemma UnpinnedOnce(s: Pool, f: int, dirty: bool)
    requires Sound(s) && s.hand == -1 && Resident(s, f) && s.pages[f].pinCount > 0
    requires f in s.touched && s.pages[f].pinCount == 1 ==> dirty
    ensures Sound(UnpinOnce(s, f, dirty)) && SameStore(s, UnpinOnce(s, f, dirty))
  {
    var t := UnpinOnce(s, f, dirty);
    assert Placed(s, f) && Coherent(s, f);
    forall g ensures g in t.evictable <==> g in s.evictable || (g == f && t.pages[f].pinCount == 0) {
    }
    forall g | 0 <= g < |t.pages| ensures Placed(t, g) && Coherent(t, g) {
      assert Placed(s, g) && Coherent(s, g);
      assert t.pages[g].id == s.pages[g].id && (Resident(t, g) <==> Resident(s, g));
    }
  }

  lemma PinnedNotQueued(s: Pool, f: int, dirty: bool)
    requires Sound(s) && s.hand == -1 && 0 <= f < |s.pages| && s.pages[f].pinCount > 0
    ensures UnpinOnce(s, f, dirty).evictable == s.evictable + if s.pages[f].pinCount == 1 then [f] else []
  {
    assert Placed(s, f);
  }

  // A client writes into a page that it has pinned.
  function ClientWrite(s: Pool, f: int, data: Data): Pool
    requires 0 <= f < |s.pages|
  {
    s.(pages := s.pages[f := s.pages[f].(data := data)], touched := s.touched + {f})
  }

  lemma ClientWrote(s: Pool, f: int, data: Data)
    requires Sound(s) && s.hand == -1 && 0 <= f < |s.pages| && s.pages[f].pinCount > 0
    ensures Resident(s, f) && Sound(ClientWrite(s, f, data))
    ensures forall id :: Logical(ClientWrite(s, f, data), id) == if id == s.pages[f].id then data else Logical(s, id)
  {
    var t := ClientWrite(s, f, data);
    assert Placed(s, f);
    forall g | 0 <= g < |t.pages| ensures Placed(t, g) && Coherent(t, g) {
      assert Placed(s, g) && Coherent(s, g);
      assert t.pages[g].id == s.pages[g].id && (Resident(t, g) <==> Resident(s, g));
    }
  }

  /** Pinned frames keep their page and its data, and no change is forgotten or invented. */
  ghost predicate Undisturbed(s: Pool, t: Pool) {
    && |t.pages| == |s.pages| && t.touched <= s.touched
    && forall f :: 0 <= f < |s.pages| && s.pages[f].pinCount > 0 ==> t.pages[f].id == s.pages[f].id && t.pages[f].data == s.pages[f].data
  }

  // ---- page numbers

  // Pages that are resident or on the disk have numbers below the next one of their file.
  ghost predicate Numbered(s: Pool, next: map<int, int>) {
    && (forall id :: id in s.table ==> id.pageNo < Counter(next, id.fd))
    && (forall id :: id in s.disk ==> id.pageNo < Counter(next, id.fd))
  }

  function Counter(next: map<int, int>, fd: int): int {
    if fd in next then next[fd] else 0
  }

  // A step that makes page `id` resident and writes to the disk only what is resident.
  lemma NumberedStep(s: Pool, next: map<int, int>, t: Pool, next': map<int, int>, id: PageId)
    requires Numbered(s, next) && forall fd :: Counter(next, fd) <= Counter(next', fd)
    requires id.pageNo < Counter(next', id.fd)
    requires forall i :: i in t.table ==> i in s.table || i == id
    requires forall i :: i in t.disk ==> i in s.disk || i in s.table
    ensures Numbered(t, next')
  {
  }

  lemma FlushedNumbered(s: Pool, t: Pool, next: map<int, int>)
    requires t.table == s.table && forall i :: i in t.disk ==> i in s.disk || i in s.table
    ensures Numbered(s, next) ==> Numbered(t, next)
  {
  }

  // The next page of a file is neither resident nor on the disk.
  lemma NextIsNew(s: Pool, next: map<int, int>, fd: int)
    requires Numbered(s, next)
    ensures PageId(fd, Counter(next, fd)) !in s.table && PageId(fd, Counter(next, fd)) !in s.disk
  {
  }
}
