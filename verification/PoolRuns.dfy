/** Runs of a client of the buffer pool: what it reads is what it wrote last. */
module PoolRuns {
  import opened PoolState
  import opened BufferPoolManager

  datatype Op =
    | Fetch(id: PageId)
    | New(fd: int)
    | Modify(id: PageId, data: Data)
    | Unpin(id: PageId, dirty: bool)
    | Flush(id: PageId)
    | FlushAll(fd: int)

  /** What comes of an operation. `Invalid` are those that the client does not ask the pool for: pages that were never
      allocated and files that cannot be. */
  datatype Event =
    | Invalid
    | NoFrame
    | Saw(id: PageId, data: Data)
    | NotHeld
    | Wrote(id: PageId, data: Data)
    | Unpinned(ok: bool)
    | Flushed(ok: bool)
    | FlushedAll

  // ---- what the operations mean

  // The pool and the page counters of the files.
  datatype Client = Client(pool: Pool, next: map<int, int>)

  ghost function Pins(s: Pool, id: PageId): nat {
    if id in s.table && 0 <= s.table[id] < |s.pages| then s.pages[s.table[id]].pinCount else 0
  }

  ghost predicate AllPinned(s: Pool) {
    forall f :: 0 <= f < |s.pages| ==> s.pages[f].pinCount > 0
  }

  // The page has so many pins now, and all others have theirs.
  ghost predicate Pinned(s: Pool, t: Pool, id: PageId, pins: nat) {
    Pins(t, id) == pins && forall x :: x != id ==> Pins(t, x) == Pins(s, x)
  }

  ghost predicate SamePins(s: Pool, t: Pool) {
    forall x :: Pins(t, x) == Pins(s, x)
  }

  /** One operation: what comes of it, and which pages, pins and counters it changes.

      Fetching fails exactly if the page is not resident and all frames are pinned; a new page has the next number of its
      file and is all zeros; a page is changed exactly if the client holds it; nothing else changes the store. */
  ghost predicate Step(c: Client, op: Op, e: Event, d: Client) {
    match op
    case Fetch(id) =>
      if id.pageNo == INVALID_PAGE_NO || id.pageNo >= Counter(c.next, id.fd) then e == Invalid && d == c
      else if id !in c.pool.table && AllPinned(c.pool) then e == NoFrame && d == c
      else
        && e == Saw(id, Logical(c.pool, id)) && d.next == c.next
        && SameStore(c.pool, d.pool) && Pinned(c.pool, d.pool, id, Pins(c.pool, id) + 1)
    case New(fd) =>
      if !(0 <= fd <= MAX_FD) then e == Invalid && d == c
      else if AllPinned(c.pool) then e == NoFrame && d == c
      else
        var id := PageId(fd, Counter(c.next, fd));
        && e == Saw(id, Zeros()) && d.next == c.next[fd := Counter(c.next, fd) + 1]
        && Logical(c.pool, id) == Zeros() && Pins(c.pool, id) == 0
        && SameStore(c.pool, d.pool) && Pinned(c.pool, d.pool, id, 1)
    case Modify(id, data) =>
      if Pins(c.pool, id) == 0 then e == NotHeld && d == c
      else
        && e == Wrote(id, data) && d.next == c.next && SamePins(c.pool, d.pool)
        && forall x :: Logical(d.pool, x) == if x == id then data else Logical(c.pool, x)
    case Unpin(id, _) =>
      && e == Unpinned(Pins(c.pool, id) > 0)
      && if Pins(c.pool, id) == 0 then d == c
         else SameStore(c.pool, d.pool) && d.next == c.next && Pinned(c.pool, d.pool, id, Pins(c.pool, id) - 1)
    case Flush(id) =>
      && e == Flushed(id in c.pool.table)
      && if id !in c.pool.table then d == c
         else
           && SameStore(c.pool, d.pool) && d.next == c.next && SamePins(c.pool, d.pool)
           && DiskRead(d.pool.disk, id) == Logical(c.pool, id)
    case FlushAll(fd) =>
      && e == FlushedAll && SameStore(c.pool, d.pool) && d.next == c.next && SamePins(c.pool, d.pool)
      && forall id :: id in c.pool.table && id.fd == fd ==> DiskRead(d.pool.disk, id) == Logical(c.pool, id)
  }

  // ---- what is read

  /** The data of a page after some events: what was written to it last, or what it held in the beginning. */
  function Latest(log: seq<Event>, id: PageId, initial: Data): Data {
    if log == [] then initial
    else
      var e := log[|log| - 1];
      if e.Wrote? && e.id == id then e.data else Latest(log[..|log| - 1], id, initial)
  }

  lemma LatestMore(log: seq<Event>, e: Event, id: PageId, initial: Data)
    ensures Latest(log + [e], id, initial) == if e.Wrote? && e.id == id then e.data else Latest(log, id, initial)
  {
    assert (log + [e])[..|log|] == log;
  }

  // The client has not written to the page.
  predicate Untouched(log: seq<Event>, id: PageId) {
    forall k :: 0 <= k < |log| && log[k].Wrote? ==> log[k].id != id
  }

  // Neither the disk nor the client has given the page any data.
  predicate NeverWritten(log: seq<Event>, id: PageId, disk: map<PageId, Data>) {
    id !in disk && Untouched(log, id)
  }

  lemma {:induction false} UntouchedLast(log: seq<Event>, id: PageId, initial: Data)
    requires Untouched(log, id)
    ensures Latest(log, id, initial) == initial
  {
    if log != [] {
      UntouchedLast(log[..|log| - 1], id, initial);
    }
  }

  lemma ZerosLast(log: seq<Event>, id: PageId, disk: map<PageId, Data>)
    requires NeverWritten(log, id, disk)
    ensures var data := Latest(log, id, DiskRead(disk, id)); |data| == 4096 && forall b :: 0 <= b < 4096 ==> data[b] == 0
  {
    ZeroBytes(DiskRead(disk, id));
    UntouchedLast(log, id, DiskRead(disk, id));
  }

  lemma DiskSeen(log: seq<Event>, id: PageId, disk: map<PageId, Data>)
    requires id in disk && Untouched(log, id)
    ensures Latest(log, id, DiskRead(disk, id)) == disk[id]
  {
    UntouchedLast(log, id, DiskRead(disk, id));
  }

  lemma NewSeesZeros(c: Client, op: Op, e: Event, d: Client)
    requires Step(c, op, e, d)
    ensures op.New? && e.Saw? ==> |e.data| == 4096 && forall b :: 0 <= b < 4096 ==> e.data[b] == 0
  {
    hide Logical, Pins, Zeros, AllPinned, Pinned, SamePins;
    if op.New? && e.Saw? {
      ZeroBytes(e.data);
    }
  }

  // The store after a step.
  lemma StepStore(c: Client, op: Op, e: Event, d: Client, id: PageId)
    requires Step(c, op, e, d)
    ensures Logical(d.pool, id) == if e.Wrote? && e.id == id then e.data else Logical(c.pool, id)
    ensures e.Saw? ==> e.data == Logical(c.pool, e.id)
  {
    hide Logical, Pins, Zeros, AllPinned, Pinned, SamePins;
  }

  /** In every run the store holds what was written last, and what the client sees of a page is that. */
  lemma {:induction false} ReadsLast(trace: seq<Client>, ops: seq<Op>, log: seq<Event>, i: nat)
    requires |trace| == |ops| + 1 && |log| == |ops| && i <= |ops|
    requires forall k :: 0 <= k < |ops| ==> Step(trace[k], ops[k], log[k], trace[k + 1])
    ensures forall id :: Logical(trace[i].pool, id) == Latest(log[..i], id, Logical(trace[0].pool, id))
    ensures i < |ops| && log[i].Saw? ==> log[i].data == Latest(log[..i], log[i].id, Logical(trace[0].pool, log[i].id))
  {
    hide Step, Logical;
    if i > 0 {
      ReadsLast(trace, ops, log, i - 1);
      assert log[..i] == log[..i - 1] + [log[i - 1]];
      forall id ensures Logical(trace[i].pool, id) == Latest(log[..i], id, Logical(trace[0].pool, id)) {
        LatestMore(log[..i - 1], log[i - 1], id, Logical(trace[0].pool, id));
        StepStore(trace[i - 1], ops[i - 1], log[i - 1], trace[i], id);
      }
    } else {
      assert log[..0] == [];
    }
    if i < |ops| && log[i].Saw? {
      StepStore(trace[i], ops[i], log[i], trace[i + 1], log[i].id);
    }
  }

  // ---- pins

  // A pinned frame is the one of its page.
  lemma PinnedFrame(s: Pool, f: int)
    requires Sound(s) && s.hand == -1 && 0 <= f < |s.pages| && s.pages[f].pinCount > 0
    ensures s.pages[f].id in s.table && s.table[s.pages[f].id] == f
  {
    assert Placed(s, f);
  }

  lemma TableThere(t: Pool)
    requires Sound(t)
    ensures forall id :: id in t.table ==> 0 <= t.table[id] < |t.pages| && t.pages[t.table[id]].id == id
  {
  }

  /** Where only frame f changes, which carried the page or was not pinned and carries the page now, no other page gains
      or loses a pin. */
  lemma OthersKept(s: Pool, t: Pool, f: int, id: PageId)
    requires Sound(s) && s.hand == -1 && Sound(t) && t.hand == -1 && |s.pages| == |t.pages| && 0 <= f < |s.pages|
    requires forall g :: 0 <= g < |s.pages| && g != f ==> t.pages[g] == s.pages[g]
    requires t.pages[f].id == id && (s.pages[f].id == id || s.pages[f].pinCount == 0)
    ensures forall x :: x != id ==> Pins(t, x) == Pins(s, x)
  {
    hide Sound;
    TableThere(s);
    TableThere(t);
    forall x | x != id ensures Pins(t, x) == Pins(s, x) {
      if Pins(s, x) > 0 {
        PinnedFrame(t, s.table[x]);
      }
      if Pins(t, x) > 0 {
        PinnedFrame(s, t.table[x]);
      }
    }
  }

  // ---- the client

  // The client remembers the pages that it has changed.
  ghost predicate Remembered(t: Pool, changed: set<PageId>) {
    forall f :: f in t.touched && 0 <= f < |t.pages| ==> t.pages[f].id in changed
  }

  ghost predicate Follows(pool: BufferPoolManager, changed: set<PageId>)
    reads pool, pool.pages, pool.replacer
  {
    && pool.Valid() && Numbered(pool.State(), pool.fd2pageno) && (forall fd :: Counter(pool.fd2pageno, fd) >= 0)
    && Remembered(pool.State(), changed)
  }

  ghost function ClientOf(pool: BufferPoolManager): Client
    reads pool, pool.pages, pool.replacer
  {
    Client(pool.State(), pool.fd2pageno)
  }

  // Operations that leave pinned frames alone leave the changed ones alone.
  lemma StillRemembered(s: Pool, t: Pool, changed: set<PageId>)
    requires Sound(s) && s.hand == -1 && Remembered(s, changed) && Undisturbed(s, t)
    ensures Remembered(t, changed)
  {
    forall f | f in t.touched && 0 <= f < |t.pages| ensures t.pages[f].id in changed {
      assert Coherent(s, f);
    }
  }

  lemma SoundState(pool: BufferPoolManager)
    requires pool.Valid()
    ensures Sound(pool.State()) && pool.State().hand == -1 && pool.State().table == pool.pageTable
    ensures pool.State().pages == pool.pages[..] && pool.State().touched == pool.touched && pool.State().disk == pool.disk
  {
  }

  method DoFetch(pool: BufferPoolManager, id: PageId, ghost changed: set<PageId>) returns (e: Event)
    requires Follows(pool, changed)
    modifies pool, pool.pages, pool.replacer
    ensures Follows(pool, changed) && Step(old(ClientOf(pool)), Fetch(id), e, ClientOf(pool))
  {
    hide BufferPoolManager.Valid, BufferPoolManager.State, Numbered, Remembered, Undisturbed, Sound, SameStore, Logical;
    if id.pageNo == INVALID_PAGE_NO || id.pageNo >= Counter(pool.fd2pageno, id.fd) {
      return Invalid;
    }
    ghost var was := pool.State();
    SoundState(pool);
    TableThere(was);
    var r := pool.FetchPage(id);
    SoundState(pool);
    StillRemembered(was, pool.State(), changed);
    match r
    case None =>
      e := NoFrame;
    case Some(f) =>
      e := Saw(id, pool.pages[f].data);
      OthersKept(was, pool.State(), f, id);
  }

  method DoNew(pool: BufferPoolManager, fd: int, ghost changed: set<PageId>) returns (e: Event)
    requires Follows(pool, changed)
    modifies pool, pool.pages, pool.replacer
    ensures Follows(pool, changed) && Step(old(ClientOf(pool)), New(fd), e, ClientOf(pool))
  {
    hide BufferPoolManager.Valid, BufferPoolManager.State, Numbered, Remembered, Undisturbed, Sound, SameStore, Zeros;
    if !(0 <= fd <= MAX_FD) {
      return Invalid;
    }
    ghost var was, next := pool.State(), pool.fd2pageno;
    SoundState(pool);
    var r, pageNo := pool.NewPage(fd);
    forall x ensures Counter(pool.fd2pageno, x) >= 0 {
      assert Counter(next, x) >= 0;
    }
    SoundState(pool);
    StillRemembered(was, pool.State(), changed);
    match r
    case None =>
      e := NoFrame;
    case Some(f) =>
      e := Saw(PageId(fd, pageNo), pool.pages[f].data);
      PinnedFrame(pool.State(), f);
      OthersKept(was, pool.State(), f, PageId(fd, pageNo));
  }

  method DoModify(pool: BufferPoolManager, id: PageId, data: Data, changed: set<PageId>) returns (e: Event, changed': set<PageId>)
    requires Follows(pool, changed)
    modifies pool, pool.pages
    ensures Follows(pool, changed') && Step(old(ClientOf(pool)), Modify(id, data), e, ClientOf(pool))
  {
    hide BufferPoolManager.Valid, BufferPoolManager.State, Sound, Logical, Pins;
    SoundState(pool);
    TableThere(pool.State());
    ghost var was := pool.State();
    PinsAre(was, id);
    if id !in pool.pageTable || pool.pages[pool.pageTable[id]].pinCount == 0 {
      return NotHeld, changed;
    }
    var f := pool.pageTable[id];
    pool.Write(f, data);
    SoundState(pool);
    e, changed' := Wrote(id, data), changed + {id};
    PinsAre(pool.State(), id);
    OthersKept(was, pool.State(), f, id);
  }

  lemma PinsAre(s: Pool, id: PageId)
    requires Sound(s)
    ensures Pins(s, id) == if id in s.table then s.pages[s.table[id]].pinCount else 0
  {
  }

  method DoUnpin(pool: BufferPoolManager, id: PageId, dirty: bool, changed: set<PageId>) returns (e: Event)
    requires Follows(pool, changed)
    modifies pool, pool.pages, pool.replacer
    ensures Follows(pool, changed) && Step(old(ClientOf(pool)), Unpin(id, dirty), e, ClientOf(pool))
  {
    hide BufferPoolManager.Valid, BufferPoolManager.State, Sound, Logical, Pins, SameStore;
    SoundState(pool);
    TableThere(pool.State());
    ghost var was := pool.State();
    PinsAre(was, id);
    // a page that the client has changed is reported as dirty
    var ok := pool.UnpinPage(id, dirty || id in changed);
    SoundState(pool);
    e := Unpinned(ok);
    if ok {
      PinsAre(pool.State(), id);
      OthersKept(was, pool.State(), pool.pageTable[id], id);
    }
  }

  // Frames that differ in their dirty bits at most carry the same pins.
  lemma PinsStay(s: Pool, t: Pool)
    requires |s.pages| == |t.pages| && t.table == s.table
    requires forall f :: 0 <= f < |s.pages| ==> t.pages[f].pinCount == s.pages[f].pinCount
    ensures SamePins(s, t)
  {
  }

  method DoFlush(pool: BufferPoolManager, id: PageId, ghost changed: set<PageId>) returns (e: Event)
    requires Follows(pool, changed)
    modifies pool, pool.pages
    ensures Follows(pool, changed) && Step(old(ClientOf(pool)), Flush(id), e, ClientOf(pool))
  {
    hide BufferPoolManager.Valid, BufferPoolManager.State, Sound, Logical, Pins, SameStore;
    SoundState(pool);
    TableThere(pool.State());
    ghost var was := pool.State();
    var ok := pool.FlushPage(id);
    SoundState(pool);
    e := Flushed(ok);
    SameFor(was, pool.State());
    if ok {
      PinsStay(was, pool.State());
    }
  }

  lemma SameFor(s: Pool, t: Pool)
    requires SameStore(s, t)
    ensures forall id :: Logical(s, id) == Logical(t, id)
  {
  }

  method DoFlushAll(pool: BufferPoolManager, fd: int, ghost changed: set<PageId>) returns (e: Event)
    requires Follows(pool, changed)
    modifies pool, pool.pages
    ensures Follows(pool, changed) && Step(old(ClientOf(pool)), FlushAll(fd), e, ClientOf(pool))
  {
    hide BufferPoolManager.Valid, BufferPoolManager.State, Numbered, Sound, Logical, Pins, SameStore;
    SoundState(pool);
    ghost var was := pool.State();
    pool.FlushAllPages(fd);
    SoundState(pool);
    e := FlushedAll;
    SameFor(was, pool.State());
    PinsStay(was, pool.State());
  }

  method Do(pool: BufferPoolManager, op: Op, changed: set<PageId>) returns (e: Event, changed': set<PageId>)
    requires Follows(pool, changed)
    modifies pool, pool.pages, pool.replacer
    ensures Follows(pool, changed') && Step(old(ClientOf(pool)), op, e, ClientOf(pool))
  {
    hide *;
    changed' := changed;
    match op
    case Fetch(id) => e := DoFetch(pool, id, changed);
    case New(fd) => e := DoNew(pool, fd, changed);
    case Modify(id, data) => e, changed' := DoModify(pool, id, data, changed);
    case Unpin(id, dirty) => e := DoUnpin(pool, id, dirty, changed);
    case Flush(id) => e := DoFlush(pool, id, changed);
    case FlushAll(fd) => e := DoFlushAll(pool, fd, changed);
  }

  /** Every run of a client from a new pool on, with any number of frames: each operation does what `Step` says, whenever
      the client sees a page, the page holds what the client wrote to it last, or else what was on the disk, and in the
      end the store does. */
  method RunClient(poolSize: nat, disk: map<PageId, Data>, fd2pageno: map<int, int>, ops: seq<Op>)
    returns (pool: BufferPoolManager, log: seq<Event>, ghost trace: seq<Client>)
    requires (forall id :: id in disk ==> id.pageNo < Counter(fd2pageno, id.fd)) && forall fd :: Counter(fd2pageno, fd) >= 0
    ensures pool.Valid() && Numbered(pool.State(), pool.fd2pageno)
    ensures |log| == |ops| && |trace| == |ops| + 1 && trace[|ops|] == ClientOf(pool)
    ensures trace[0].next == fd2pageno && trace[0].pool.table == map[] && |trace[0].pool.pages| == poolSize
    ensures forall f :: 0 <= f < poolSize ==> trace[0].pool.pages[f].pinCount == 0
    ensures forall i :: 0 <= i < |ops| ==> Step(trace[i], ops[i], log[i], trace[i + 1])
    ensures forall i :: 0 <= i < |ops| && log[i].Saw? ==> log[i].data == Latest(log[..i], log[i].id, DiskRead(disk, log[i].id))
    ensures forall i :: 0 <= i < |ops| && log[i].Saw? && (ops[i].New? || NeverWritten(log[..i], log[i].id, disk)) ==>
      |log[i].data| == 4096 && forall b :: 0 <= b < 4096 ==> log[i].data[b] == 0
    ensures forall i :: 0 <= i < |ops| && log[i].Saw? && log[i].id in disk && Untouched(log[..i], log[i].id) ==> log[i].data == disk[log[i].id]
    ensures forall id :: Logical(pool.State(), id) == Latest(log, id, DiskRead(disk, id))
  {
    hide BufferPoolManager.Valid, Sound, Step, Logical, Numbered, Remembered, DiskRead, Zeros, NeverWritten, Untouched;
    pool := new BufferPoolManager(poolSize, disk, fd2pageno);
    NothingTouched(pool);
    var changed: set<PageId> := {};
    log, trace := [], [ClientOf(pool)];
    var i := 0;
    while i < |ops|
      invariant i == |log| <= |ops| && |trace| == i + 1 && fresh(pool) && fresh(pool.pages) && fresh(pool.replacer)
      invariant Follows(pool, changed) && trace[i] == ClientOf(pool)
      invariant trace[0].next == fd2pageno && trace[0].pool.table == map[] && |trace[0].pool.pages| == poolSize
      invariant forall f :: 0 <= f < poolSize ==> trace[0].pool.pages[f].pinCount == 0
      invariant forall id :: Logical(trace[0].pool, id) == DiskRead(disk, id)
      invariant forall k :: 0 <= k < i ==> Step(trace[k], ops[k], log[k], trace[k + 1])
    {
      var e;
      e, changed := Do(pool, ops[i], changed);
      log, trace := log + [e], trace + [ClientOf(pool)];
      i := i + 1;
    }
    forall k | 0 <= k < |ops| && log[k].Saw? ensures log[k].data == Latest(log[..k], log[k].id, DiskRead(disk, log[k].id)) {
      ReadsLast(trace, ops, log, k);
    }
    forall k | 0 <= k < |ops| && log[k].Saw? && (ops[k].New? || NeverWritten(log[..k], log[k].id, disk))
      ensures |log[k].data| == 4096 && forall b :: 0 <= b < 4096 ==> log[k].data[b] == 0
    {
      NewSeesZeros(trace[k], ops[k], log[k], trace[k + 1]);
      if NeverWritten(log[..k], log[k].id, disk) {
        ZerosLast(log[..k], log[k].id, disk);
      }
    }
    forall k | 0 <= k < |ops| && log[k].Saw? && log[k].id in disk && Untouched(log[..k], log[k].id) ensures log[k].data == disk[log[k].id] {
      DiskSeen(log[..k], log[k].id, disk);
    }
    ReadsLast(trace, ops, log, |ops|);
    assert log[..|ops|] == log;
  }

  lemma NothingTouched(pool: BufferPoolManager)
    requires pool.touched == {}
    ensures Remembered(pool.State(), {})
  {
  }
}
