/** Writes of a transaction and their undoing, on tables as values. */
module TransactionLog {
  import opened Defs

  type Bytes = seq<bv8>

  type TableMap = map<Rid, Bytes>

  type State = map<string, TableMap>

  // A write record. `old` is the record before a deletion or an update.
  datatype WriteRecord =
    | InsertTuple(tab: string, rid: Rid)
    | DeleteTuple(tab: string, rid: Rid, old_: Bytes)
    | UpdateTuple(tab: string, rid: Rid, old_: Bytes)

  // ---- doing

  /** From s to t by the write that w records. */
  ghost predicate Does(s: State, w: WriteRecord, t: State) {
    && w.tab in s && w.tab in t && t == s[w.tab := t[w.tab]]
    && DoesTo(s[w.tab], w, t[w.tab])
  }

  ghost predicate DoesTo(s: TableMap, w: WriteRecord, t: TableMap) {
    && (w.InsertTuple? ==> w.rid !in s && w.rid in t && t == s[w.rid := t[w.rid]])
    && (w.DeleteTuple? ==> w.rid in s && s[w.rid] == w.old_ && t == s - {w.rid})
    && (w.UpdateTuple? ==> w.rid in s && s[w.rid] == w.old_ && w.rid in t && t == s[w.rid := t[w.rid]])
  }

  /** states[k] is the state after the first k writes. */
  ghost predicate History(states: seq<State>, writes: seq<WriteRecord>) {
    |states| == |writes| + 1 && forall k :: 0 <= k < |writes| ==> Did(states, writes, k)
  }

  ghost predicate Did(states: seq<State>, writes: seq<WriteRecord>, k: int)
    requires 0 <= k < |writes| && |states| == |writes| + 1
  {
    Does(states[k], writes[k], states[k + 1])
  }

  // ---- undoing

  // The slots before this one on its page hold records.
  ghost predicate Lowest(s: TableMap, place: Rid) {
    forall k :: 0 <= k < place.slotNo ==> Rid(place.pageNo, k) in s
  }

  /** From s to t by undoing w: an inserted record is deleted, an updated one gets its old bytes, and a deleted one is
      inserted at `place`, which was the lowest free slot of its page. */
  ghost predicate Undoes(s: State, w: WriteRecord, place: Rid, t: State) {
    && w.tab in s && w.tab in t && t == s[w.tab := t[w.tab]]
    && UndoesTo(s[w.tab], w, place, t[w.tab])
  }

  ghost predicate UndoesTo(s: TableMap, w: WriteRecord, place: Rid, t: TableMap) {
    && (w.InsertTuple? ==> t == s - {w.rid})
    && (w.DeleteTuple? ==> place !in s && Lowest(s, place) && t == s[place := w.old_])
    && (w.UpdateTuple? ==> t == if w.rid in s then s[w.rid := w.old_] else s)
  }

  lemma UndoesIs(s: State, w: WriteRecord, place: Rid, t: State)
    requires w.tab in s
    requires w.InsertTuple? ==> t == s[w.tab := s[w.tab] - {w.rid}]
    requires w.DeleteTuple? ==> place !in s[w.tab] && Lowest(s[w.tab], place) && t == s[w.tab := s[w.tab][place := w.old_]]
    requires w.UpdateTuple? ==> t == s[w.tab := if w.rid in s[w.tab] then s[w.tab][w.rid := w.old_] else s[w.tab]]
    ensures Undoes(s, w, place, t)
  {
  }

  /** back[k] is the state after the writes from number k on have been undone, the last one first; places[k] is where
      the record of write k was put if it had been deleted. */
  ghost predicate Undone(states: seq<State>, writes: seq<WriteRecord>, places: seq<Rid>, back: seq<State>) {
    && |states| == |back| == |writes| + 1 && |places| == |writes| && back[|writes|] == states[|writes|]
    && forall k :: 0 <= k < |writes| ==> Undid(writes, places, back, k)
  }

  ghost predicate Undid(writes: seq<WriteRecord>, places: seq<Rid>, back: seq<State>, k: int)
    requires 0 <= k < |writes| == |places| && |back| == |writes| + 1
  {
    Undoes(back[k + 1], writes[k], places[k], back[k])
  }

  /** Every deleted record is back at its own place. */
  ghost predicate AllHome(writes: seq<WriteRecord>, places: seq<Rid>)
    requires |places| == |writes|
  {
    forall k :: 0 <= k < |writes| && writes[k].DeleteTuple? ==> places[k] == writes[k].rid
  }

  // The transaction itself has inserted or updated the record before.
  predicate Own(w: WriteRecord, tab: string, r: Rid) {
    !w.DeleteTuple? && w.tab == tab && w.rid == r
  }

  /** Every deleted record that the transaction had inserted or updated itself is back at its own place. */
  ghost predicate OwnHome(writes: seq<WriteRecord>, places: seq<Rid>)
    requires |places| == |writes|
  {
    forall i, k :: 0 <= i < k < |writes| && writes[k].DeleteTuple? && Own(writes[i], writes[k].tab, writes[k].rid) ==>
      places[k] == writes[k].rid
  }

  /** Undoing a write leads back exactly if and only if a deleted record comes back to its place. */
  lemma UndoExact(s: State, w: WriteRecord, t: State, place: Rid, u: State)
    requires Does(s, w, t) && Undoes(t, w, place, u)
    ensures u == s <==> (w.DeleteTuple? ==> place == w.rid)
  {
    var n, r := w.tab, w.rid;
    if w.InsertTuple? {
      assert (s[n][r := t[n][r]]) - {r} == s[n];
    } else if w.UpdateTuple? {
      assert s[n][r := t[n][r]][r := w.old_] == s[n];
    } else {
      assert s[n] == t[n][r := w.old_];
      assert place in u[n] && (place != r ==> place !in s[n]);
    }
  }

  /** Abortion passes through the very states of the history exactly if every deleted record comes back to its place. */
  lemma RetracesExactly(states: seq<State>, writes: seq<WriteRecord>, places: seq<Rid>, back: seq<State>)
    requires History(states, writes) && Undone(states, writes, places, back)
    ensures back == states <==> AllHome(writes, places)
  {
    hide Does, Undoes;
    if back == states {
      forall k | 0 <= k < |writes| && writes[k].DeleteTuple? ensures places[k] == writes[k].rid {
        assert Did(states, writes, k) && Undid(writes, places, back, k);
        UndoExact(states[k], writes[k], states[k + 1], places[k], back[k]);
      }
    }
    if AllHome(writes, places) {
      Retraces(states, writes, places, back, 0);
    }
  }

  // No record is deleted that was inserted or updated before.
  ghost predicate NoneOwn(writes: seq<WriteRecord>) {
    forall i, k :: 0 <= i < k < |writes| && writes[k].DeleteTuple? && !writes[i].DeleteTuple? ==>
      writes[i].tab != writes[k].tab || writes[i].rid != writes[k].rid
  }

  // Where no record was deleted, or none of the own ones, nothing has to come back.
  lemma HomeWithout(states: seq<State>, writes: seq<WriteRecord>, places: seq<Rid>, back: seq<State>)
    requires History(states, writes) && Undone(states, writes, places, back)
    ensures (forall w :: w in writes ==> !w.DeleteTuple?) ==> back[0] == states[0]
    ensures NoneOwn(writes) ==> OwnHome(writes, places)
  {
    hide Does, Undoes;
    RetracesExactly(states, writes, places, back);
    if forall w :: w in writes ==> !w.DeleteTuple? {
      assert forall k :: 0 <= k < |writes| ==> writes[k] in writes;
    }
  }

  lemma {:induction false} Retraces(states: seq<State>, writes: seq<WriteRecord>, places: seq<Rid>, back: seq<State>, k: nat)
    requires History(states, writes) && Undone(states, writes, places, back) && AllHome(writes, places) && k <= |writes|
    ensures forall i :: k <= i <= |writes| ==> back[i] == states[i]
    decreases |writes| - k
  {
    if k < |writes| {
      Retraces(states, writes, places, back, k + 1);
      assert Did(states, writes, k) && Undid(writes, places, back, k);
      UndoExact(states[k], writes[k], states[k + 1], places[k], back[k]);
    }
  }

  // ---- the values of a table

  ghost function Without(m: TableMap, r: Rid): (n: TableMap)
    requires r in m
    ensures n.Keys == m.Keys - {r} && |n| < |m| && forall x :: x in n ==> n[x] == m[x]
  {
    assert (m - {r}).Keys == m.Keys - {r};
    m - {r}
  }

  ghost function AnyKey(m: TableMap): (r: Rid)
    requires m != map[]
    ensures r in m
  {
    var r :| r in m; r
  }

  ghost function Values(m: TableMap): multiset<Bytes>
    decreases |m|
  {
    if m == map[] then multiset{} else Values(Without(m, AnyKey(m))) + multiset{m[AnyKey(m)]}
  }

  lemma UnfoldValues(m: TableMap)
    requires m != map[]
    ensures Values(m) == Values(Without(m, AnyKey(m))) + multiset{m[AnyKey(m)]}
  {
  }

  /** Taking any record out of a table takes its value out of the multiset. */
  lemma {:induction false} ValuesWithout(m: TableMap, r: Rid)
    requires r in m
    ensures Values(m) == Values(m - {r}) + multiset{m[r]}
    decreases |m|
  {
    hide Values;
    var x := AnyKey(m);
    UnfoldValues(m);
    var a, b := Without(m, x), Without(m, r);
    assert a == m - {x} && b == m - {r};
    if x != r {
      ValuesWithout(a, r);
      ValuesWithout(b, x);
      assert a - {r} == b - {x};
    }
  }

  lemma ValuesWith(m: TableMap, r: Rid, v: Bytes)
    requires r !in m
    ensures Values(m[r := v]) == Values(m) + multiset{v}
  {
    hide Values;
    ValuesWithout(m[r := v], r);
    assert m[r := v] - {r} == m;
  }

  ghost predicate SameValues(s: State, t: State) {
    s.Keys == t.Keys && forall n :: n in s && n in t ==> Values(s[n]) == Values(t[n])
  }

  /** While the writes are undone: the tables hold the values of the state reached by the remaining writes, and agree
      with that state on its records that these have inserted or updated. */
  ghost predicate Tracks(u: State, s: State, writes: seq<WriteRecord>) {
    && SameValues(u, s)
    && forall k :: 0 <= k < |writes| && !writes[k].DeleteTuple? ==> Agrees(u, s, writes[k].tab, writes[k].rid)
  }

  ghost predicate Agrees(u: State, s: State, n: string, r: Rid) {
    n in s && r in s[n] ==> n in u && r in u[n] && u[n][r] == s[n][r]
  }

  lemma Cancel(A: multiset<Bytes>, B: multiset<Bytes>, x: Bytes)
    requires A + multiset{x} == B + multiset{x}
    ensures A == B
  {
    assert A == A + multiset{x} - multiset{x};
    assert B == B + multiset{x} - multiset{x};
  }

  lemma ValuesReplaced(m: TableMap, r: Rid, v: Bytes)
    requires r in m
    ensures Values(m[r := v]) + multiset{m[r]} == Values(m) + multiset{v}
  {
    hide Values;
    ValuesWithout(m, r);
    ValuesWithout(m[r := v], r);
    assert m[r := v] - {r} == m - {r};
  }

  lemma UndoUpdateValues(s: TableMap, r: Rid, t: TableMap, u: TableMap, v: TableMap)
    requires Values(u) == Values(t) && r in s && r in t && r in u && u[r] == t[r]
    requires t == s[r := t[r]] && v == u[r := s[r]]
    ensures Values(v) == Values(s)
  {
    hide Values;
    ValuesReplaced(s, r, t[r]);
    ValuesReplaced(u, r, s[r]);
    Cancel(Values(v), Values(s), t[r]);
  }

  lemma UndoInsertValues(s: TableMap, r: Rid, t: TableMap, u: TableMap)
    requires Values(u) == Values(t) && r !in s && r in t && r in u && u[r] == t[r] && t == s[r := t[r]]
    ensures Values(u - {r}) == Values(s)
  {
    hide Values;
    ValuesWithout(u, r);
    ValuesWithout(t, r);
    assert t - {r} == s;
    Cancel(Values(u - {r}), Values(s), u[r]);
  }

  // The values of one table after a step and after its undoing.
  lemma UndoValues(s: TableMap, w: WriteRecord, t: TableMap, u: TableMap, place: Rid, v: TableMap)
    requires Values(u) == Values(t)
    requires DoesTo(s, w, t) && UndoesTo(u, w, place, v)
    requires !w.DeleteTuple? ==> w.rid in u && w.rid in t && u[w.rid] == t[w.rid]
    ensures Values(v) == Values(s)
  {
    hide Values;
    var r := w.rid;
    if w.InsertTuple? {
      UndoInsertValues(s, r, t, u);
    } else if w.DeleteTuple? {
      ValuesWithout(s, r);
      ValuesWith(u, place, w.old_);
    } else {
      UndoUpdateValues(s, r, t, u, v);
    }
  }

  // A record of an earlier write after the undoing of a later one.
  lemma AgreesOn(s: State, w: WriteRecord, t: State, u: State, place: Rid, v: State, n: string, r: Rid)
    requires Does(s, w, t) && Undoes(u, w, place, v) && Agrees(u, t, n, r)
    requires w.DeleteTuple? && w.tab == n && w.rid == r ==> place == r
    requires !w.DeleteTuple? ==> Agrees(u, t, w.tab, w.rid)
    ensures Agrees(v, s, n, r)
  {
  }

  /** One step back. */
  lemma UndoTracks(states: seq<State>, writes: seq<WriteRecord>, places: seq<Rid>, k: nat, u: State, v: State)
    requires History(states, writes) && |places| == |writes| && OwnHome(writes, places) && k < |writes|
    requires Tracks(u, states[k + 1], writes[..k + 1]) && Undoes(u, writes[k], places[k], v)
    ensures Tracks(v, states[k], writes[..k])
  {
    hide Values, DoesTo, UndoesTo;
    var w, s, t := writes[k], states[k], states[k + 1];
    var n := w.tab;
    assert Did(states, writes, k);
    assert writes[..k + 1][k] == w;
    UndoTable(s, w, t, u, places[k], v);
    forall m | m in v && m in s ensures Values(v[m]) == Values(s[m]) {
      if m != n {
        assert s[m] == t[m] && v[m] == u[m];
      }
    }
    forall i | 0 <= i < k && !writes[i].DeleteTuple? ensures Agrees(v, s, writes[i].tab, writes[i].rid) {
      assert writes[..k + 1][i] == writes[i];
      assert w.DeleteTuple? && w.tab == writes[i].tab && w.rid == writes[i].rid ==> Own(writes[i], w.tab, w.rid);
      AgreesOn(s, w, t, u, places[k], v, writes[i].tab, writes[i].rid);
    }
  }

  lemma Present(s: State, w: WriteRecord, t: State)
    requires Does(s, w, t) && !w.DeleteTuple?
    ensures w.rid in t[w.tab]
  {
  }

  lemma UndoTable(s: State, w: WriteRecord, t: State, u: State, place: Rid, v: State)
    requires Does(s, w, t) && Undoes(u, w, place, v) && SameValues(u, t)
    requires !w.DeleteTuple? ==> Agrees(u, t, w.tab, w.rid)
    ensures s.Keys == t.Keys == u.Keys == v.Keys && Values(v[w.tab]) == Values(s[w.tab])
  {
    hide Values;
    if !w.DeleteTuple? {
      Present(s, w, t);
    }
    UndoValues(s[w.tab], w, t[w.tab], u[w.tab], place, v[w.tab]);
  }

  lemma TracksItself(u: State, writes: seq<WriteRecord>)
    ensures Tracks(u, u, writes)
  {
  }

  lemma {:induction false} BackTracks(states: seq<State>, writes: seq<WriteRecord>, places: seq<Rid>, back: seq<State>, k: nat)
    requires History(states, writes) && Undone(states, writes, places, back) && OwnHome(writes, places) && k <= |writes|
    ensures Tracks(back[k], states[k], writes[..k])
    decreases |writes| - k
  {
    hide Tracks, Undoes, Does, OwnHome;
    if k == |writes| {
      TracksItself(back[k], writes[..k]);
    } else {
      BackTracks(states, writes, places, back, k + 1);
      assert Undid(writes, places, back, k);
      UndoTracks(states, writes, places, k, back[k + 1], back[k]);
    }
  }

  /** If every deleted record of the transaction's own comes back to its place, every table holds in the end the values
      that it held before the transaction, wherever the other deleted records are put. */
  lemma ValuesRestored(states: seq<State>, writes: seq<WriteRecord>, places: seq<Rid>, back: seq<State>)
    requires History(states, writes) && Undone(states, writes, places, back) && OwnHome(writes, places)
    ensures SameValues(back[0], states[0])
  {
    hide Values;
    BackTracks(states, writes, places, back, 0);
  }

  /** What an abortion achieves, together. */
  lemma AbortMeans(states: seq<State>, writes: seq<WriteRecord>, places: seq<Rid>, back: seq<State>)
    requires History(states, writes) && Undone(states, writes, places, back)
    ensures back == states <==> AllHome(writes, places)
    ensures OwnHome(writes, places) ==> SameValues(back[0], states[0])
    ensures (forall w :: w in writes ==> !w.DeleteTuple?) ==> back[0] == states[0]
    ensures NoneOwn(writes) ==> SameValues(back[0], states[0])
  {
    hide SameValues, Undone, History, AllHome;
    UndoneLength(states, writes, places, back);
    RetracesExactly(states, writes, places, back);
    HomeWithout(states, writes, places, back);
    if OwnHome(writes, places) {
      ValuesRestored(states, writes, places, back);
    }
  }

  lemma UndoneLength(states: seq<State>, writes: seq<WriteRecord>, places: seq<Rid>, back: seq<State>)
    requires History(states, writes) && Undone(states, writes, places, back)
    ensures |states| == |back| == |writes| + 1 && |places| == |writes|
  {
  }

  lemma ValuesOne(r: Rid, v: Bytes)
    ensures Values(map[r := v]) == multiset{v}
  {
    var e: TableMap := map[];
    ValuesWith(e, r, v);
    assert e[r := v] == map[r := v];
  }

  // Two records, one of them the transaction's own, are deleted and come back each at the place of the other.
  lemma SwappedRun(x: Bytes, a: Bytes) returns (states: seq<State>, writes: seq<WriteRecord>, places: seq<Rid>, back: seq<State>)
    ensures writes == [InsertTuple("t", Rid(1, 1)), DeleteTuple("t", Rid(1, 0), x), DeleteTuple("t", Rid(1, 1), a)]
    ensures places == [Rid(1, 1), Rid(1, 1), Rid(1, 0)]
    ensures History(states, writes) && Undone(states, writes, places, back)
    ensures states[0] == map["t" := map[Rid(1, 0) := x]] && back[0] == map["t" := map[Rid(1, 0) := a]]
  {
    hide Values;
    var r0, r1 := Rid(1, 0), Rid(1, 1);
    var e: TableMap := map[];
    var t1: TableMap := map[r0 := x, r1 := a];
    writes, places := [InsertTuple("t", r1), DeleteTuple("t", r0, x), DeleteTuple("t", r1, a)], [r1, r1, r0];
    states := [map["t" := map[r0 := x]], map["t" := t1], map["t" := map[r1 := a]], map["t" := e]];
    assert t1 - {r0} == map[r1 := a];
    assert map[r1 := a] - {r1} == e;
    assert Did(states, writes, 0) && Did(states, writes, 1) && Did(states, writes, 2);
    var m1: TableMap, m2: TableMap := map[r0 := a], map[r0 := a, r1 := x];
    back := [map["t" := m1], map["t" := m2], map["t" := m1], states[3]];
    assert UndoesTo(e, writes[2], r0, m1) by { assert r0 !in e && Lowest(e, r0) && m1 == e[r0 := writes[2].old_]; }
    assert UndoesTo(m1, writes[1], r1, m2) by { assert r1 !in m1 && Lowest(m1, r1) && m2 == m1[r1 := writes[1].old_]; }
    assert UndoesTo(m2, writes[0], r1, m1) by { assert m2 - {r1} == m1; }
    assert Undid(writes, places, back, 2) && Undid(writes, places, back, 1) && Undid(writes, places, back, 0);
  }

  /** Where a deleted record of the transaction's own comes back elsewhere, undoing can leave it and take a record away
      that was there before, even when every insertion takes the lowest free place. */
  lemma OwnDeleteFails(x: Bytes, a: Bytes) returns (states: seq<State>, writes: seq<WriteRecord>, places: seq<Rid>, back: seq<State>)
    requires x != a
    ensures History(states, writes) && Undone(states, writes, places, back) && |back| > 0 && |states| > 0
    ensures !SameValues(back[0], states[0])
  {
    hide Values;
    states, writes, places, back := SwappedRun(x, a);
    ValuesOne(Rid(1, 0), a);
    ValuesOne(Rid(1, 0), x);
    assert multiset{a}[a] == 1 && multiset{x}[a] == 0;
    assert Values(back[0]["t"]) != Values(states[0]["t"]);
  }

  /** Whether it does depends on the bytes, so that no condition on the places alone is necessary: with equal bytes the
      same run restores the values. */
  lemma EqualBytesHide(x: Bytes) returns (states: seq<State>, writes: seq<WriteRecord>, places: seq<Rid>, back: seq<State>)
    ensures History(states, writes) && Undone(states, writes, places, back) && !OwnHome(writes, places)
    ensures |back| > 0 && |states| > 0 && back[0] == states[0]
  {
    states, writes, places, back := SwappedRun(x, x);
    assert Own(writes[0], writes[2].tab, writes[2].rid);
  }
}
