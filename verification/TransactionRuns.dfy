/** A run in which aborting a transaction does not restore the table. */
module TransactionRuns {
  import opened Defs
  import opened RecordPage
  import opened RecordFile
  import opened RmFileHandle
  import opened TransactionLog
  import opened TransactionManager

  // On one page the lowest free place is determined by the records.
  lemma OnlyPage(t: TableMap, n: nat, place: Rid, used: nat)
    requires place.pageNo == 1 && place !in t && Lowest(t, place) && 0 <= place.slotNo
    requires forall r :: r in t <==> r.pageNo == 1 && 0 <= r.slotNo < used
    requires used < n
    ensures place == Rid(1, used) && HasRoom(t, 2, n)
  {
    assert Rid(1, used) !in t && (place.slotNo < used ==> Rid(1, place.slotNo) in t);
    assert place == Rid(1, place.slotNo);
  }

  lemma Room(t: TableMap, n: nat, a: Rid, b: Rid)
    requires n >= 3 && forall r :: r in t ==> r == a || r == b
    ensures HasRoom(t, 2, n)
  {
    var k := if Rid(1, 0) != a && Rid(1, 0) != b then 0 else if Rid(1, 1) != a && Rid(1, 1) != b then 1 else 2;
    assert Rid(1, k) !in t;
  }

  // What undoing "insert a; delete x; delete a" does if every record goes to the lowest free slot of page 1.
  lemma Swapped(W: seq<WriteRecord>, states: seq<State>, places: seq<Rid>, back: seq<State>, x: Bytes, a: Bytes)
    requires W == [InsertTuple("t", Rid(1, 1)), DeleteTuple("t", Rid(1, 0), x), DeleteTuple("t", Rid(1, 1), a)]
    requires Undone(states, W, places, back) && states[3] == map["t" := map[]]
    requires places[1].pageNo == 1 && places[2].pageNo == 1 && 0 <= places[1].slotNo && 0 <= places[2].slotNo
    ensures back[0] == map["t" := map[Rid(1, 0) := a]]
  {
    assert Undid(W, places, back, 0) && Undid(W, places, back, 1) && Undid(W, places, back, 2);
    OnlyPage(back[3]["t"], 1, places[2], 0);
    assert back[2]["t"] == map[Rid(1, 0) := a];
    OnlyPage(back[2]["t"], 2, places[1], 1);
    assert back[1]["t"] == map[Rid(1, 0) := a, Rid(1, 1) := x];
    assert back[0]["t"] == map[Rid(1, 0) := a];
  }

  // Page 1 has room for both records.
  lemma RoomWhenUndone(tm: TransactionManager, W: seq<WriteRecord>, states: seq<State>, places: seq<Rid>, back: seq<State>, x: Bytes, a: Bytes)
    requires W == [InsertTuple("t", Rid(1, 1)), DeleteTuple("t", Rid(1, 0), x), DeleteTuple("t", Rid(1, 1), a)]
    requires Undone(states, W, places, back) && states[3] == map["t" := map[]] && "t" in tm.fhs && tm.fhs["t"].l.n >= 3
    ensures |places| == 3 && |back| == 4 && tm.RoomFor(W, back, 0, "t", 2)
  {
    hide HasRoom;
    assert Undid(W, places, back, 2);
    Room(back[3]["t"], tm.fhs["t"].l.n, places[2], places[2]);
    Room(back[2]["t"], tm.fhs["t"].l.n, places[2], places[2]);
    forall k | 0 <= k < |W| && W[k].DeleteTuple? && W[k].tab == "t"
      ensures "t" in back[k - 0 + 1] && HasRoom(back[k - 0 + 1]["t"], 2, tm.fhs["t"].l.n)
    {
      assert k == 1 || k == 2;
    }
  }

  // The first record of a file.
  lemma FirstPlace(fh: RmFileHandle)
    requires fh.Valid() && fh.Records() == map[] && fh.numPages == 1
    ensures forall r :: fh.NextPlace(r) ==> r == Rid(1, 0)
    ensures !fh.Roomy()
  {
    hide RmFileHandle.Valid, RmFileHandle.Records;
    fh.FirstFree();
    forall r | fh.NextPlace(r) ensures r == Rid(1, 0) {
      assert Rid(r.pageNo, 0) !in fh.Records() && r == Rid(r.pageNo, r.slotNo);
    }
  }

  // A file of one record, and its table.
  method OneRecord(recordSize: nat, x: Bytes) returns (tm: TransactionManager)
    requires 1 <= recordSize <= RM_MAX_RECORD_SIZE && |x| == recordSize
    ensures fresh(tm) && fresh(tm.repr) && tm.Valid() && tm.Tables() == map["t" := map[Rid(1, 0) := x]]
    ensures "t" in tm.fhs && tm.fhs["t"].l.size == recordSize && tm.fhs["t"].l.n >= 7 && tm.fhs["t"].numPages == 2
  {
    hide RmFileHandle.Valid, RmFileHandle.Records, TransactionManager.Shape, RmFileHandle.Roomy, RmFileHandle.NextPlace;
    PageFits(recordSize);
    var fh := new RmFileHandle(recordSize);
    FirstPlace(fh);
    var r := fh.InsertRecord(x);
    tm := new TransactionManager(map["t" := fh], {fh} + fh.repr);
    tm.TablesAre();
    assert tm.Tables() == map["t" := fh.Records()];
  }

  // Where the second record of a file goes.
  lemma SecondPlace(t: TableMap, x: Bytes, n: nat, numPages: int, place: Rid)
    requires t == map[Rid(1, 0) := x] && n >= 7
    requires 1 <= place.pageNo < numPages && numPages == 2 + if HasRoom(t, 2, n) then 0 else 1
    requires place !in t && Lowest(t, place) && 0 <= place.slotNo
    ensures numPages == 2 && place == Rid(1, 1)
  {
    assert Rid(1, 1) !in t;
    OnlyPage(t, n, place, 1);
  }

  // A transaction inserts a and deletes both records.
  method InsertAndDelete(tm: TransactionManager, txn: Transaction, x: Bytes, a: Bytes)
    requires tm.Running(txn) && txn.writeSet == [] && tm.Tables() == map["t" := map[Rid(1, 0) := x]]
    requires "t" in tm.fhs && tm.fhs["t"].l.n >= 7 && tm.fhs["t"].numPages == 2 && |a| == tm.fhs["t"].l.size
    modifies tm.repr, tm`repr, txn`writeSet, txn`states
    ensures tm.Running(txn) && fresh(tm.repr - old(tm.repr)) && tm.fhs["t"].numPages == 2 && txn.states[0] == old(txn.states[0])
    ensures txn.writeSet == [InsertTuple("t", Rid(1, 1)), DeleteTuple("t", Rid(1, 0), x), DeleteTuple("t", Rid(1, 1), a)]
    ensures tm.Tables() == map["t" := map[]]
  {
    hide *;
    tm.RunningIs(txn);
    tm.RoomyIs("t");
    var r := tm.InsertTuple(txn, "t", a);
    SecondPlace(map[Rid(1, 0) := x], x, tm.fhs["t"].l.n, tm.fhs["t"].numPages, r);
    tm.RunningIs(txn);
    assert tm.Tables()["t"] == map[Rid(1, 0) := x, Rid(1, 1) := a];
    tm.DeleteTuple(txn, "t", Rid(1, 0));
    tm.RunningIs(txn);
    assert tm.Tables()["t"] == map[Rid(1, 1) := a];
    tm.DeleteTuple(txn, "t", Rid(1, 1));
    tm.RunningIs(txn);
    assert tm.Tables()["t"] == map[];
  }

  /** A file of one record x; a transaction inserts a, deletes x and deletes a, and is aborted: a is in the file then, at
      the place of x, and x is not. */
  method AbortSwaps(recordSize: nat, x: Bytes, a: Bytes) returns (tm: TransactionManager, ghost before: State)
    requires 1 <= recordSize <= RM_MAX_RECORD_SIZE && |x| == |a| == recordSize && x != a
    ensures tm.Valid() && before == map["t" := map[Rid(1, 0) := x]] && tm.Tables() == map["t" := map[Rid(1, 0) := a]]
    ensures !SameValues(tm.Tables(), before)
  {
    hide *;
    tm := OneRecord(recordSize, x);
    var txn := tm.Begin(null);
    before := tm.Tables();
    tm.RunningIs(txn);
    InsertAndDelete(tm, txn, x, a);
    tm.RunningIs(txn);
    ghost var W, S := txn.writeSet, txn.states;
    ghost var places, back := tm.Abort(txn);
    RoomWhenUndone(tm, W, S, places, back, x, a);
    OnPageOne(tm, places[1]);
    OnPageOne(tm, places[2]);
    Swapped(W, S, places, back, x, a);
    OtherValues(tm.Tables(), before, x, a);
  }

  lemma OnPageOne(tm: TransactionManager, place: Rid)
    requires tm.Placed(WriteRecord.InsertTuple("t", place)) && "t" in tm.fhs && tm.fhs["t"].numPages == 2
    ensures place.pageNo == 1 && 0 <= place.slotNo
  {
  }

  lemma OtherValues(s: State, t: State, x: Bytes, a: Bytes)
    requires s == map["t" := map[Rid(1, 0) := a]] && t == map["t" := map[Rid(1, 0) := x]] && x != a
    ensures !SameValues(s, t)
  {
    hide Values;
    ValuesOne(Rid(1, 0), a);
    ValuesOne(Rid(1, 0), x);
    assert multiset{a}[a] == 1 && multiset{x}[a] == 0;
    assert Values(s["t"]) != Values(t["t"]);
  }
}
