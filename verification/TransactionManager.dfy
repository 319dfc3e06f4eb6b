/** Transactions over record files: the writes they make, and their abortion. */
module TransactionManager {
  import opened Defs
  import opened TransactionLog
  import opened RecordFile
  import opened RmFileHandle

  datatype TransactionState = DEFAULT | GROWING | SHRINKING | COMMITTED | ABORTED

  class Transaction {
    const id: int
    var state: TransactionState
    var writeSet: seq<WriteRecord>
    // the state of the tables at the beginning and after each write
    ghost var states: seq<State>

    constructor (id: int, ghost now: State)
      ensures this.id == id && state == DEFAULT && writeSet == [] && states == [now]
    {
      this.id, state, writeSet, states := id, DEFAULT, [], [now];
    }
  }

  class TransactionManager {
    const fhs: map<string, RmFileHandle>
    var txnMap: map<int, Transaction>
    var nextTxnId: int
    // the record files and everything they consist of
    ghost var repr: set<object>

    ghost predicate Apart(m: string, n: string)
      requires m in fhs && n in fhs
      reads fhs[m], fhs[n]
    {
      m != n ==> fhs[m] != fhs[n] && fhs[m] !in fhs[n].repr && fhs[n] !in fhs[m].repr && fhs[m].repr !! fhs[n].repr
    }

    // The files lie within repr and apart from each other.
    ghost predicate Shape()
      reads `repr, fhs.Values
    {
      && this !in repr
      && (forall n :: n in fhs ==> fhs[n] in repr && fhs[n].repr <= repr && this !in fhs[n].repr)
      && (forall m, n :: m in fhs && n in fhs ==> Apart(m, n))
    }

    ghost predicate Valid()
      reads `repr, fhs.Values, repr
    {
      Shape() && forall n :: n in fhs ==> fhs[n].Valid()
    }

    ghost function Tables(): State
      requires Valid()
      reads `repr, fhs.Values, repr
    {
      map n | n in fhs :: fhs[n].Records()
    }

    // A write record names a place that exists, and holds a whole record.
    ghost predicate Placed(w: WriteRecord)
      reads `repr, fhs.Values
    {
      && w.tab in fhs && 1 <= w.rid.pageNo < fhs[w.tab].numPages && 0 <= w.rid.slotNo < fhs[w.tab].l.n
      && (!w.InsertTuple? ==> |w.old_| == fhs[w.tab].l.size)
    }

    /** The transaction has run alone since it began: its write set tells how the tables came to be as they are. */
    ghost predicate Running(txn: Transaction)
      reads `repr, fhs.Values, repr, txn
    {
      && Valid() && txn !in repr
      && History(txn.states, txn.writeSet) && txn.states[|txn.writeSet|] == Tables()
      && forall k :: 0 <= k < |txn.writeSet| ==> Placed(txn.writeSet[k])
    }

    lemma RunningIs(txn: Transaction)
      requires Running(txn)
      ensures Valid() && txn !in repr && |txn.states| == |txn.writeSet| + 1 && txn.states[|txn.writeSet|] == Tables()
    {
    }

    lemma FilesInside()
      requires Valid()
      ensures this !in repr && forall n :: n in fhs ==> fhs[n] in repr && fhs[n].repr <= repr
      ensures Tables().Keys == fhs.Keys
    {
    }

    // ---- operations on one table

    // The insertion leaves the other files alone.
    method InsertAlone(tab: string, buf: seq<bv8>) returns (rid: Rid)
      requires Valid() && tab in fhs && |buf| == fhs[tab].l.size
      modifies fhs[tab], fhs[tab].repr
      ensures forall n :: n in fhs ==> fhs[n].Valid()
      ensures forall n :: n in fhs && n != tab ==>
        fhs[n].Records() == old(Tables())[n] && fhs[n].repr == old(fhs[n].repr) && fhs[n].numPages == old(fhs[n].numPages)
      ensures rid !in old(Tables())[tab] && Lowest(old(Tables())[tab], rid)
      ensures fhs[tab].Records() == old(Tables())[tab][rid := buf]
      ensures fhs[tab].numPages == old(fhs[tab].numPages) + if old(fhs[tab].Roomy()) then 0 else 1
      ensures fresh(fhs[tab].repr - old(fhs[tab].repr))
      ensures Placed(WriteRecord.InsertTuple(tab, rid))
    {
      hide RmFileHandle.Valid, RmFileHandle.Records, RmFileHandle.Roomy;
      ghost var S := Tables();
      var fh := fhs[tab];
      rid := fh.InsertRecord(buf);
      forall n | n in fhs && n != tab ensures fhs[n].Valid() && fhs[n].Records() == S[n] {
        assert Apart(n, tab);
      }
      fh.RecordAt(rid);
    }

    method InsertInto(tab: string, buf: seq<bv8>) returns (rid: Rid)
      requires Valid() && tab in fhs && |buf| == fhs[tab].l.size
      modifies fhs[tab], fhs[tab].repr, this`repr
      ensures Valid() && fresh(repr - old(repr))
      ensures rid !in old(Tables())[tab] && Lowest(old(Tables())[tab], rid)
      ensures Tables() == old(Tables())[tab := old(Tables())[tab][rid := buf]]
      ensures forall n :: n in fhs && n != tab ==> fhs[n].numPages == old(fhs[n].numPages)
      ensures fhs[tab].numPages == old(fhs[tab].numPages) + if old(fhs[tab].Roomy()) then 0 else 1
      ensures Placed(WriteRecord.InsertTuple(tab, rid))
    {
      hide RmFileHandle.Valid, RmFileHandle.Records, Tables, Lowest, RmFileHandle.Roomy;
      ghost var was, all, S := fhs[tab].repr, repr, Tables();
      FilesInside();
      TablesAre();
      rid := InsertAlone(tab, buf);
      ghost var more := fhs[tab].repr - was;
      assert more !! all && this !in more;
      repr := repr + fhs[tab].repr;
      GrownShape(tab, was, more, all);
      TablesChanged(S, tab, S[tab][rid := buf]);
    }

    // One file has grown by objects that were nowhere before.
    lemma GrownShape(tab: string, was: set<object>, more: set<object>, all: set<object>)
      requires tab in fhs && this !in all && this !in more && more !! all && fhs[tab].repr <= was + more && repr == all + fhs[tab].repr
      requires was <= all && forall n :: n in fhs ==> fhs[n] in all && (n != tab ==> fhs[n].repr <= all)
      requires forall m, n :: m in fhs && n in fhs && m != n ==>
        fhs[m] != fhs[n] && (n != tab ==> fhs[m] !in fhs[n].repr) && (n == tab ==> fhs[m] !in was)
        && (m != tab && n != tab ==> fhs[m].repr !! fhs[n].repr) && (m == tab ==> was !! fhs[n].repr)
      ensures Shape()
    {
      forall m, n | m in fhs && n in fhs ensures Apart(m, n) {
      }
    }

    lemma TablesAre()
      requires Valid()
      ensures Tables().Keys == fhs.Keys && forall n :: n in fhs ==> Tables()[n] == fhs[n].Records()
    {
    }

    lemma TablesChanged(s: State, tab: string, t: TableMap)
      requires Valid() && s.Keys == fhs.Keys && tab in fhs && fhs[tab].Records() == t
      requires forall n :: n in fhs && n != tab ==> fhs[n].Records() == s[n]
      ensures Tables() == s[tab := t]
    {
      hide RmFileHandle.Valid, RmFileHandle.Records, Tables, Shape;
      TablesAre();
    }

    method DeleteFrom(tab: string, rid: Rid)
      requires Valid() && tab in fhs && 1 <= rid.pageNo < fhs[tab].numPages && 0 <= rid.slotNo < fhs[tab].l.n
      modifies fhs[tab], fhs[tab].repr
      ensures Valid() && Tables() == old(Tables())[tab := old(Tables())[tab] - {rid}]
      ensures forall n :: n in fhs ==> fhs[n].numPages == old(fhs[n].numPages)
    {
      hide RmFileHandle.Valid, RmFileHandle.Records, BitmapFits, Tables;
      ghost var S := Tables();
      TablesAre();
      var fh := fhs[tab];
      fh.PagesThere();
      fh.DeleteRecord(rid);
      forall n | n in fhs && n != tab ensures fhs[n].Valid() && fhs[n].Records() == S[n] {
        assert Apart(n, tab);
      }
      forall m, n | m in fhs && n in fhs ensures Apart(m, n) {
      }
      TablesChanged(S, tab, S[tab] - {rid});
    }

    method UpdateIn(tab: string, rid: Rid, buf: seq<bv8>)
      requires Valid() && tab in fhs && 1 <= rid.pageNo < fhs[tab].numPages && 0 <= rid.slotNo < fhs[tab].l.n
      requires |buf| == fhs[tab].l.size
      modifies fhs[tab], fhs[tab].repr
      ensures Valid()
      ensures var t := old(Tables())[tab]; Tables() == old(Tables())[tab := if rid in t then t[rid := buf] else t]
      ensures forall n :: n in fhs ==> fhs[n].numPages == old(fhs[n].numPages)
    {
      hide RmFileHandle.Valid, RmFileHandle.Records, BitmapFits, Tables;
      ghost var S := Tables();
      TablesAre();
      var fh := fhs[tab];
      fh.PagesThere();
      fh.UpdateRecord(rid, buf);
      forall n | n in fhs && n != tab ensures fhs[n].Valid() && fhs[n].Records() == S[n] {
        assert Apart(n, tab);
      }
      forall m, n | m in fhs && n in fhs ensures Apart(m, n) {
      }
      TablesChanged(S, tab, if rid in S[tab] then S[tab][rid := buf] else S[tab]);
    }

    method ReadFrom(tab: string, rid: Rid) returns (rec: seq<bv8>)
      requires Valid() && tab in fhs && rid in Tables()[tab]
      ensures Valid() && rec == Tables()[tab][rid] && |rec| == fhs[tab].l.size
      ensures 1 <= rid.pageNo < fhs[tab].numPages && 0 <= rid.slotNo < fhs[tab].l.n
    {
      hide Tables, Shape, RmFileHandle.Records, RmFileHandle.Valid;
      TablesAre();
      var fh := fhs[tab];
      fh.RecordAt(rid);
      rec := fh.GetRecord(rid);
      TablesAre();
    }

    // ---- transactions

    constructor (fhs: map<string, RmFileHandle>, ghost repr: set<object>)
      requires forall n :: n in fhs ==> fhs[n] in repr && fhs[n].repr <= repr && fhs[n].Valid()
      requires forall m, n :: m in fhs && n in fhs && m != n ==>
        fhs[m] != fhs[n] && fhs[m] !in fhs[n].repr && fhs[n] !in fhs[m].repr && fhs[m].repr !! fhs[n].repr
      ensures Valid() && this.fhs == fhs && this.repr == repr && txnMap == map[] && nextTxnId == 0
    {
      this.fhs, this.repr, txnMap, nextTxnId := fhs, repr, map[], 0;
    }

    /** Begin: a transaction that is passed in is entered into the table of transactions; without one a new
        transaction, which has written nothing, is made. */
    method Begin(passed: Transaction?) returns (txn: Transaction)
      requires Valid()
      modifies this`txnMap, this`nextTxnId
      ensures Valid() && Tables() == old(Tables())
      ensures txnMap == old(txnMap)[txn.id := txn]
      ensures if passed == null then fresh(txn) && Running(txn) && txn.writeSet == [] && txn.id == old(nextTxnId) && nextTxnId == txn.id + 1
              else txn == passed && nextTxnId == old(nextTxnId)
    {
      hide RmFileHandle.Valid, RmFileHandle.Records, Shape, Tables, Does;
      FilesInside();
      if passed == null {
        txn := new Transaction(nextTxnId, Tables());
        nextTxnId := nextTxnId + 1;
      } else {
        txn := passed;
      }
      txnMap := txnMap[txn.id := txn];
    }

    // The transaction has made one more write.
    lemma HistoryMore(states: seq<State>, writes: seq<WriteRecord>, w: WriteRecord, t: State)
      requires History(states, writes) && Does(states[|writes|], w, t)
      ensures History(states + [t], writes + [w])
    {
      var S, W := states + [t], writes + [w];
      forall k | 0 <= k < |W| ensures Did(S, W, k) {
        if k < |writes| {
          assert Did(states, writes, k);
        }
      }
    }

    lemma HistoryLength(states: seq<State>, writes: seq<WriteRecord>)
      requires History(states, writes)
      ensures |states| == |writes| + 1
    {
    }

    // AppendWriteRecord
    method Append(txn: Transaction, w: WriteRecord)
      requires Valid() && txn !in repr && History(txn.states, txn.writeSet) && Placed(w)
      requires forall k :: 0 <= k < |txn.writeSet| ==> Placed(txn.writeSet[k])
      requires Does(txn.states[|txn.writeSet|], w, Tables())
      modifies txn`writeSet, txn`states
      ensures Running(txn) && txn.writeSet == old(txn.writeSet) + [w] && txn.states[0] == old(txn.states[0])
    {
      hide RmFileHandle.Valid, RmFileHandle.Records, Shape, Tables, Does, History, Placed;
      HistoryMore(txn.states, txn.writeSet, w, Tables());
      HistoryLength(txn.states, txn.writeSet);
      txn.states := txn.states + [Tables()];
      txn.writeSet := txn.writeSet + [w];
    }

    /** An insertion by a transaction. */
    method InsertTuple(txn: Transaction, tab: string, buf: seq<bv8>) returns (rid: Rid)
      requires Running(txn) && tab in fhs && |buf| == fhs[tab].l.size
      modifies repr, this`repr, txn`writeSet, txn`states
      ensures Running(txn) && fresh(repr - old(repr)) && txn.states[0] == old(txn.states[0])
      ensures txn.writeSet == old(txn.writeSet) + [WriteRecord.InsertTuple(tab, rid)]
      ensures rid !in old(Tables())[tab] && Tables() == old(Tables())[tab := old(Tables())[tab][rid := buf]]
      ensures Lowest(old(Tables())[tab], rid) && 1 <= rid.pageNo < fhs[tab].numPages && 0 <= rid.slotNo
      ensures fhs[tab].numPages == old(fhs[tab].numPages) + if old(fhs[tab].Roomy()) then 0 else 1
    {
      hide RmFileHandle.Valid, RmFileHandle.Records, Shape, History, Tables, RmFileHandle.Roomy, Lowest;
      FilesInside();
      rid := InsertInto(tab, buf);
      Append(txn, WriteRecord.InsertTuple(tab, rid));
    }

    /** A deletion by a transaction. */
    method DeleteTuple(txn: Transaction, tab: string, rid: Rid)
      requires Running(txn) && tab in fhs && rid in Tables()[tab]
      modifies repr, txn`writeSet, txn`states
      ensures Running(txn) && txn.states[0] == old(txn.states[0]) && repr == old(repr)
      ensures txn.writeSet == old(txn.writeSet) + [WriteRecord.DeleteTuple(tab, rid, old(Tables())[tab][rid])]
      ensures Tables() == old(Tables())[tab := old(Tables())[tab] - {rid}] && fhs[tab].numPages == old(fhs[tab].numPages)
    {
      hide RmFileHandle.Valid, RmFileHandle.Records, Shape, History, Tables;
      FilesInside();
      var rec := ReadFrom(tab, rid);
      DeleteFrom(tab, rid);
      Append(txn, WriteRecord.DeleteTuple(tab, rid, rec));
    }

    /** An update by a transaction. */
    method UpdateTuple(txn: Transaction, tab: string, rid: Rid, buf: seq<bv8>)
      requires Running(txn) && tab in fhs && rid in Tables()[tab] && |buf| == fhs[tab].l.size
      modifies repr, txn`writeSet, txn`states
      ensures Running(txn) && txn.states[0] == old(txn.states[0]) && repr == old(repr)
      ensures txn.writeSet == old(txn.writeSet) + [WriteRecord.UpdateTuple(tab, rid, old(Tables())[tab][rid])]
      ensures Tables() == old(Tables())[tab := old(Tables())[tab][rid := buf]]
    {
      hide RmFileHandle.Valid, RmFileHandle.Records, Shape, History, Tables;
      FilesInside();
      var rec := ReadFrom(tab, rid);
      UpdateIn(tab, rid, buf);
      Append(txn, WriteRecord.UpdateTuple(tab, rid, rec));
    }

    /** One write undone; `place` is where a deleted record is put. There is a new page only where no page has room. */
    method Undo(w: WriteRecord) returns (place: Rid)
      requires Valid() && Placed(w)
      modifies repr, this`repr
      ensures Valid() && fresh(repr - old(repr)) && Undoes(old(Tables()), w, place, Tables())
      ensures forall n :: n in fhs ==> fhs[n].numPages >= old(fhs[n].numPages)
      ensures forall n :: n in fhs && !(w.DeleteTuple? && n == w.tab) ==> fhs[n].numPages == old(fhs[n].numPages)
      ensures w.DeleteTuple? && old(fhs[w.tab].Roomy()) ==>
        fhs[w.tab].numPages == old(fhs[w.tab].numPages)
      ensures w.DeleteTuple? ==> Placed(WriteRecord.InsertTuple(w.tab, place))
    {
      hide RmFileHandle.Valid, RmFileHandle.Records, Shape, Tables, RmFileHandle.Roomy, Lowest, Undoes;
      ghost var S := Tables();
      FilesInside();
      place := w.rid;
      TablesAre();
      match w {
        case InsertTuple(tab, rid) =>
          DeleteFrom(tab, rid);
        case DeleteTuple(tab, rid, rec) =>
          place := InsertInto(tab, rec);
        case UpdateTuple(tab, rid, rec) =>
          UpdateIn(tab, rid, rec);
      }
      UndoesIs(S, w, place, Tables());
    }

    // The states on the way back, and the places where deleted records have been put, so far.
    ghost predicate Undoing(states: seq<State>, writes: seq<WriteRecord>, places: seq<Rid>, back: seq<State>, i: nat) {
      && i <= |writes| && |back| == |writes| - i + 1 && |places| == |writes| - i
      && |states| == |writes| + 1 && back[|writes| - i] == states[|writes|]
      && forall k :: i <= k < |writes| ==> Undoes(back[k - i + 1], writes[k], places[k - i], back[k - i])
    }

    lemma UndoneMore(states: seq<State>, writes: seq<WriteRecord>, places: seq<Rid>, back: seq<State>, i: nat, place: Rid, u: State)
      requires i > 0 && Undoing(states, writes, places, back, i) && Undoes(back[0], writes[i - 1], place, u)
      ensures Undoing(states, writes, [place] + places, [u] + back, i - 1)
    {
      var P, B := [place] + places, [u] + back;
      forall k | i - 1 <= k < |writes| ensures Undoes(B[k - i + 2], writes[k], P[k - i + 1], B[k - i + 1]) {
        assert k >= i ==> B[k - i + 2] == back[k - i + 1] && B[k - i + 1] == back[k - i] && P[k - i + 1] == places[k - i];
      }
    }

    lemma UndoneAll(states: seq<State>, writes: seq<WriteRecord>, places: seq<Rid>, back: seq<State>)
      requires Undoing(states, writes, places, back, 0)
      ensures Undone(states, writes, places, back)
    {
      forall k | 0 <= k < |writes| ensures Undid(writes, places, back, k) {
        assert Undoes(back[k - 0 + 1], writes[k], places[k - 0], back[k - 0]);
      }
    }

    /** Abort: the writes are undone, the last one first. The tables go back through the states of the history exactly
        if every deleted record comes back to its place; if at least those of the transaction's own do, every table
        holds the same values as before. */
    method Abort(txn: Transaction) returns (ghost places: seq<Rid>, ghost back: seq<State>)
      requires Running(txn)
      modifies repr, this`repr, txn`writeSet, txn`state
      ensures Valid() && fresh(repr - old(repr)) && txn.writeSet == [] && txn.state == ABORTED
      ensures Undone(txn.states, old(txn.writeSet), places, back) && back[0] == Tables()
      ensures back == txn.states <==> AllHome(old(txn.writeSet), places)
      ensures OwnHome(old(txn.writeSet), places) ==> SameValues(Tables(), txn.states[0])
      ensures (forall w :: w in old(txn.writeSet) ==> !w.DeleteTuple?) ==> Tables() == txn.states[0]
      ensures NoneOwn(old(txn.writeSet)) ==> SameValues(Tables(), txn.states[0])
      ensures forall k :: 0 <= k < |old(txn.writeSet)| && old(txn.writeSet)[k].DeleteTuple? ==>
        Placed(WriteRecord.InsertTuple(old(txn.writeSet)[k].tab, places[k]))
      ensures forall n :: n in fhs && RoomFor(old(txn.writeSet), back, 0, n, old(fhs[n].numPages)) ==> fhs[n].numPages == old(fhs[n].numPages)
    {
      hide SameValues, Undoes, Does, RmFileHandle.Valid, RmFileHandle.Records, Shape, Tables, Undoing, Undone, RoomFor, Placed, OwnHome, AllHome, NoneOwn;
      ghost var W, S, N := txn.writeSet, txn.states, map n | n in fhs :: fhs[n].numPages;
      places, back := [], [Tables()];
      UndoneNone(S, W);
      var i := |txn.writeSet|;
      while i > 0
        invariant 0 <= i <= |W| && Valid() && fresh(repr - old(repr)) && txn !in repr
        invariant txn.writeSet == W && txn.states == S
        invariant forall k :: 0 <= k < i ==> Placed(W[k])
        invariant |back| == |W| - i + 1 && |places| == |W| - i && back[0] == Tables() && Undoing(S, W, places, back, i)
        invariant PutBack(W, places, i) && Sized(W, back, i, N)
      {
        i := i - 1;
        places, back := UndoLast(txn.writeSet[i], S, W, places, back, i, N);
      }
      UndoneAll(S, W, places, back);
      UndoneSizes(S, W, places, back);
      AbortMeans(S, W, places, back);
      txn.writeSet := [];
      txn.state := ABORTED;
    }

    // One round of the loop of Abort.
    method UndoLast(w: WriteRecord, ghost S: seq<State>, ghost W: seq<WriteRecord>, ghost places: seq<Rid>, ghost back: seq<State>,
        ghost i: nat, ghost N: map<string, int>)
      returns (ghost places': seq<Rid>, ghost back': seq<State>)
      requires Valid() && i < |W| && w == W[i] && Placed(w)
      requires |back| == |W| - i && |places| == |W| - i - 1 && back[0] == Tables() && Undoing(S, W, places, back, i + 1)
      requires PutBack(W, places, i + 1) && Sized(W, back, i + 1, N)
      modifies repr, this`repr
      ensures Valid() && fresh(repr - old(repr)) && forall v :: old(Placed(v)) ==> Placed(v)
      ensures |back'| == |back| + 1 && |places'| == |places| + 1 && back'[0] == Tables() && Undoing(S, W, places', back', i)
      ensures PutBack(W, places', i) && Sized(W, back', i, N)
    {
      hide Undoes, RmFileHandle.Valid, RmFileHandle.Records, Shape, Tables, Undoing, RoomFor, HasRoom, RmFileHandle.Roomy;
      RoomyIs(w.tab);
      var place := Undo(w);
      UndoneMore(S, W, places, back, i + 1, place, Tables());
      RoomBefore(W, back, Tables(), i);
      places', back' := [place] + places, [Tables()] + back;
    }

    // Every record that has been put back is on a page of its file.
    ghost predicate PutBack(writes: seq<WriteRecord>, places: seq<Rid>, i: nat)
      requires i <= |writes| && |places| == |writes| - i
      reads `repr, fhs.Values
    {
      forall k :: i <= k < |writes| && writes[k].DeleteTuple? ==> Placed(WriteRecord.InsertTuple(writes[k].tab, places[k - i]))
    }

    // A file has new pages only if there was no room.
    ghost predicate Sized(writes: seq<WriteRecord>, back: seq<State>, i: nat, N: map<string, int>)
      requires i <= |writes| && |back| == |writes| - i + 1
      reads fhs.Values
    {
      fhs.Keys <= N.Keys && forall n :: n in fhs && RoomFor(writes, back, i, n, N[n]) ==> fhs[n].numPages == N[n]
    }

    // Whenever one of the writes from number i on that deleted a record of table n was undone, the first pages had room.
    ghost predicate RoomFor(writes: seq<WriteRecord>, back: seq<State>, i: nat, n: string, numPages: int)
      requires n in fhs && i <= |writes| && |back| == |writes| - i + 1
    {
      forall k :: i <= k < |writes| && writes[k].DeleteTuple? && writes[k].tab == n ==>
        n in back[k - i + 1] && HasRoom(back[k - i + 1][n], numPages, fhs[n].l.n)
    }

    lemma RoomyIs(n: string)
      requires Valid() && n in fhs
      ensures n in Tables() && (fhs[n].Roomy() <==> HasRoom(Tables()[n], fhs[n].numPages, fhs[n].l.n))
    {
      hide RmFileHandle.Valid, RmFileHandle.Records, HasRoom;
    }

    lemma RoomBefore(writes: seq<WriteRecord>, back: seq<State>, u: State, i: nat)
      requires i < |writes| && |back| == |writes| - i
      ensures forall n, p: int :: n in fhs && RoomFor(writes, [u] + back, i, n, p) ==>
        && RoomFor(writes, back, i + 1, n, p)
        && (writes[i].DeleteTuple? && writes[i].tab == n ==> n in back[0] && HasRoom(back[0][n], p, fhs[n].l.n))
    {
      hide HasRoom;
      forall n, p: int | n in fhs && RoomFor(writes, [u] + back, i, n, p)
        ensures RoomFor(writes, back, i + 1, n, p)
        ensures writes[i].DeleteTuple? && writes[i].tab == n ==> n in back[0] && HasRoom(back[0][n], p, fhs[n].l.n)
      {
        assert ([u] + back)[1] == back[0];
        forall k | i < k < |writes| && writes[k].DeleteTuple? && writes[k].tab == n
          ensures n in back[k - i] && HasRoom(back[k - i][n], p, fhs[n].l.n)
        {
          assert ([u] + back)[k - i + 1] == back[k - i];
        }
      }
    }

    lemma UndoneNone(states: seq<State>, writes: seq<WriteRecord>)
      requires |states| == |writes| + 1
      ensures Undoing(states, writes, [], [states[|writes|]], |writes|)
    {
    }

    lemma UndoneSizes(states: seq<State>, writes: seq<WriteRecord>, places: seq<Rid>, back: seq<State>)
      requires Undone(states, writes, places, back)
      ensures |states| == |back| == |writes| + 1 && |places| == |writes|
    {
    }
  }
}
