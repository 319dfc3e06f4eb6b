/** The index scan: a range of the index, filtered by the conditions. */
module IndexScanExecutor {
  import opened Defs
  import opened IxNode
  import opened IxLevels
  import opened IxTree
  import opened IxPositions
  import opened IxContents
  import opened IxOps
  import opened IxIndexHandle
  import opened IxScan
  import IxBytes
  import IxRuns
  import IxSpare
  import opened SelectQuery
  import opened Executors

  datatype Outcome = Failed | Rids(rids: seq<Rid>)

  // The condition that selects the range: the first one that compares the indexed column with a value, but for <>.
  predicate Ranges(c: Condition, col: TabCol) {
    c.isRhsVal && c.op != OP_NE && c.lhs.col == col.col
  }

  function RangeCondition(cs: seq<Condition>, col: TabCol): (k: nat)
    ensures k <= |cs| && (k < |cs| ==> Ranges(cs[k], col))
  {
    if cs == [] || Ranges(cs[0], col) then 0 else 1 + RangeCondition(cs[1..], col)
  }

  /** A map from the values of the column to the records that have them. */
  ghost predicate Indexes(m: map<int, Rid>, rows: map<Rid, Dict>, col: TabCol) {
    && (forall r :: r in rows ==> col in rows[r] && rows[r][col] in m && m[rows[r][col]] == r)
    && (forall k :: k in m ==> m[k] in rows && rows[m[k]][col] == k)
  }

  predicate Lower(op: CompOp) { op == OP_EQ || op == OP_GT || op == OP_GE }

  predicate Upper(op: CompOp) { op == OP_EQ || op == OP_LT || op == OP_LE }

  // Nothing is both before the lower bound and behind the upper one.
  lemma BoundsOrdered(E: seq<Slot>, lo: int, hi: int, key: int)
    requires 0 <= hi <= |E| && (lo == 0 || Splits(E, lo, key))
    requires hi == |E| || forall g :: hi <= g < |E| ==> E[g].key > key
    ensures lo <= hi
  {
    if lo != 0 && hi < |E| {
      assert E[hi].key > key;
    }
  }

  class IndexScanExecutor {
    const ih: IxIndexHandle
    // the records of the table, and the indexed column
    const rows: map<Rid, Dict>
    const col: TabCol
    // the conditions, turned so that their left columns are on the table
    const conds: seq<Condition>
    var fedConds: seq<Condition>

    constructor (ih: IxIndexHandle, rows: map<Rid, Dict>, col: TabCol, conds: seq<Condition>)
      requires forall k :: 0 <= k < |conds| ==>
        conds[k].lhs.tab == col.tab || (!conds[k].isRhsVal && conds[k].rhsCol.tab == col.tab)
      ensures this.ih == ih && this.rows == rows && this.col == col && |this.conds| == |conds| && fedConds == this.conds
      ensures forall k :: 0 <= k < |conds| ==> this.conds[k] == Oriented(conds[k], col.tab)
    {
      var turned := OrientAll(conds, col.tab);
      this.ih, this.rows, this.col, this.conds := ih, rows, col, turned;
      fedConds := turned;
    }

    // A condition is on columns of the table, or of the table and of the outer rows.
    ghost predicate Reaches(c: Condition, env: Dict) {
      forall r :: r in rows ==> c.lhs in rows[r] && (c.isRhsVal || c.rhsCol in rows[r] || (c.rhsCol in env && c.rhsCol.tab != col.tab))
    }

    /** The outer rows that feed the scan are of other tables and have the columns that the conditions name. */
    ghost predicate Feedable(env: Dict) {
      && (forall x :: x in env ==> x.tab != col.tab)
      && (forall r, x :: r in rows && x in rows[r] ==> x.tab == col.tab)
      && (forall k :: 0 <= k < |conds| ==> Reaches(conds[k], env))
      && (forall k :: 0 <= k < |conds| ==> conds[k].isRhsVal || conds[k].rhsCol.tab == col.tab || conds[k].rhsCol in env)
    }

    /** feed: afterwards the conditions mean on a record what the original ones mean on the outer rows and the record. */
    method Feed(feedDict: Dict)
      requires Feedable(feedDict)
      modifies this`fedConds
      ensures fedConds == FedAll(conds, col.tab, feedDict)
      ensures forall r :: r in rows ==> AllClosed(fedConds, rows[r]) && AllClosed(conds, feedDict + rows[r])
      ensures forall r :: r in rows ==> (AllHold(fedConds, rows[r]) <==> AllHold(conds, feedDict + rows[r]))
    {
      fedConds := FeedAll(conds, col.tab, feedDict);
      forall r | r in rows
        ensures AllClosed(fedConds, rows[r]) && AllClosed(conds, feedDict + rows[r])
        ensures AllHold(fedConds, rows[r]) <==> AllHold(conds, feedDict + rows[r])
      {
        FedRecord(r, feedDict);
      }
    }

    lemma FedRecord(r: Rid, env: Dict)
      requires Feedable(env) && r in rows && fedConds == FedAll(conds, col.tab, env)
      ensures AllClosed(fedConds, rows[r]) && AllClosed(conds, env + rows[r])
      ensures AllHold(fedConds, rows[r]) <==> AllHold(conds, env + rows[r])
    {
      forall k | 0 <= k < |conds|
        ensures Closed(fedConds[k], rows[r]) && Closed(conds[k], env + rows[r])
        ensures Holds(fedConds[k], rows[r]) <==> Holds(conds[k], env + rows[r])
      {
        assert Reaches(conds[k], env);
        FedOnRow(conds[k], col.tab, rows[r], env);
      }
      assert forall k :: 0 <= k < |conds| ==> Holds(fedConds[k], rows[r]) == Holds(conds[k], env + rows[r]);
    }

    /** The index maps each value of the column to the record that has it. */
    ghost predicate Indexed()
      reads this, ih
    {
      ih.Valid() && Indexes(ih.Contents(), rows, col)
    }

    // The conditions are closed and on this table, and the key that gives the range does not mislead the index.
    ghost predicate Runnable()
      reads this, ih
    {
      && Indexed()
      && (forall r :: r in rows ==> AllClosed(fedConds, rows[r]))
      && (forall k :: 0 <= k < |fedConds| ==> fedConds[k].lhs.tab == col.tab)
      && var k := RangeCondition(fedConds, col);
      (k < |fedConds| ==> ih.ClearRoute(fedConds[k].rhsVal))
    }

    ghost predicate Matches(r: Rid)
      requires Runnable()
      reads this, ih
    {
      r in rows && AllHold(fedConds, rows[r])
    }

    // The range search ends behind the keys of a leaf that is not the last: there a scan cannot begin.
    ghost predicate StartsOutside()
      requires Indexed()
      reads this, ih
    {
      var k := RangeCondition(fedConds, col);
      k < |fedConds| && Lower(fedConds[k].op) &&
      var leaf := ih.LeafOf(fedConds[k].rhsVal);
      leaf != ih.lastLeaf && LowerBound(SlotsOf(ih.pages, leaf), fedConds[k].rhsVal) == |SlotsOf(ih.pages, leaf)|
    }

    lemma EntriesAre()
      requires Indexed()
      ensures ih.lv != [] && ih.Entries() == Flat(ih.pages, ih.lv[0])
    {
    }

    // Records in the order of their keys, none twice.
    ghost predicate Ascending(rids: seq<Rid>) {
      forall a, b :: 0 <= a < b < |rids| ==>
        rids[a] in rows && rids[b] in rows && col in rows[rids[a]] && col in rows[rids[b]]
        && rows[rids[a]][col] < rows[rids[b]][col]
    }

    // Entry g of the index belongs to a record with that key.
    lemma EntryRow(g: nat)
      requires Indexed() && g < |ih.Entries()|
      ensures ih.Entries()[g].rid in rows && col in rows[ih.Entries()[g].rid]
      ensures rows[ih.Entries()[g].rid][col] == ih.Entries()[g].key
    {
      SortedEntries(ih.pages, ih.lv, ih.rootPage, ih.order);
      MapHas(ih.Entries());
      assert ih.Entries()[g].key in ih.Contents() && ih.Contents()[ih.Entries()[g].key] == ih.Entries()[g].rid;
    }

    // A record has an entry.
    lemma RowEntry(r: Rid) returns (g: nat)
      requires Indexed() && r in rows
      ensures g < |ih.Entries()| && ih.Entries()[g].rid == r && ih.Entries()[g].key == rows[r][col]
    {
      SortedEntries(ih.pages, ih.lv, ih.rootPage, ih.order);
      MapHas(ih.Entries());
      MapAt(ih.Entries(), rows[r][col]);
      g :| 0 <= g < |ih.Entries()| && ih.Entries()[g].key == rows[r][col];
    }

    // The entries of the matching records lie between two ranks.
    ghost predicate Encloses(lo: int, hi: int)
      requires Runnable()
      reads this, ih
    {
      0 <= lo <= hi <= |ih.Entries()| &&
      forall g :: 0 <= g < |ih.Entries()| && Matches(ih.Entries()[g].rid) ==> lo <= g < hi
    }

    // A matching record meets the range condition.
    lemma MatchKey(g: nat, k: nat)
      requires Runnable() && g < |ih.Entries()| && k < |fedConds| && Ranges(fedConds[k], col)
      requires Matches(ih.Entries()[g].rid)
      ensures Compare(fedConds[k].op, ih.Entries()[g].key, fedConds[k].rhsVal)
    {
      EntryRow(g);
      assert Holds(fedConds[k], rows[ih.Entries()[g].rid]);
    }

    /** The range selection of beginTuple: no matching record is outside of it. */
    method SelectRange() returns (lower: Iid, upper: Iid, ghost j: nat, ghost k: nat)
      requires Runnable()
      ensures Runnable() && OnLeaf(ih.pages, ih.lv[0], j, lower) && Proper(ih.pages, ih.lv[0], k, upper)
      ensures Proper(ih.pages, ih.lv[0], j, lower) <==> !StartsOutside()
      ensures Encloses(Rank(ih.pages, ih.lv[0], j, lower), Rank(ih.pages, ih.lv[0], k, upper))
    {
      hide IxIndexHandle.Valid, IxIndexHandle.Contents, IxIndexHandle.Entries, Indexed, Matches, Splits, StartsOutside;
      var c := FindRangeCondition();
      lower, j := SelectLower(c);
      upper, k := SelectUpper(c);
      EntriesAre();
      RankBound(ih.pages, ih.lv[0], k, upper);
      if c < |fedConds| {
        RangeEncloses(c, Rank(ih.pages, ih.lv[0], j, lower), Rank(ih.pages, ih.lv[0], k, upper));
      }
    }

    method SelectLower(c: nat) returns (lower: Iid, ghost j: nat)
      requires Runnable() && c == RangeCondition(fedConds, col)
      ensures Runnable() && OnLeaf(ih.pages, ih.lv[0], j, lower)
      ensures Proper(ih.pages, ih.lv[0], j, lower) <==> !StartsOutside()
      ensures var r := Rank(ih.pages, ih.lv[0], j, lower);
        if c < |fedConds| && Lower(fedConds[c].op) then Splits(ih.Entries(), r, fedConds[c].rhsVal) else r == 0
    {
      hide IxIndexHandle.Contents, IxIndexHandle.Entries, Splits, TreeBut;
      if c < |fedConds| && Lower(fedConds[c].op) {
        var key := fedConds[c].rhsVal;
        lower, j := ih.LowerBoundPlace(key);
      } else {
        lower, j := ih.LeafBegin();
      }
    }

    method SelectUpper(c: nat) returns (upper: Iid, ghost k: nat)
      requires Runnable() && c == RangeCondition(fedConds, col)
      ensures Runnable() && Proper(ih.pages, ih.lv[0], k, upper)
      ensures var r := Rank(ih.pages, ih.lv[0], k, upper);
        if c < |fedConds| && Upper(fedConds[c].op) then
          forall g :: r <= g < |ih.Entries()| ==> ih.Entries()[g].key > fedConds[c].rhsVal
        else r == |ih.Entries()|
    {
      hide IxIndexHandle.Contents, IxIndexHandle.Entries, TreeBut;
      if c < |fedConds| && Upper(fedConds[c].op) {
        upper, k := ih.UpperBoundPlace(fedConds[c].rhsVal);
      } else {
        upper, k := ih.LeafEnd();
      }
    }

    // The loop that looks for the condition.
    method FindRangeCondition() returns (c: nat)
      ensures c == RangeCondition(fedConds, col)
    {
      c := 0;
      while c < |fedConds|
        invariant c <= |fedConds|
        invariant RangeCondition(fedConds, col) == c + RangeCondition(fedConds[c..], col)
      {
        if Ranges(fedConds[c], col) {
          return;
        }
        c := c + 1;
      }
    }

    lemma RangeEncloses(c: nat, lo: int, hi: int)
      requires Runnable() && c < |fedConds| && Ranges(fedConds[c], col) && 0 <= hi <= |ih.Entries()|
      requires if Lower(fedConds[c].op) then Splits(ih.Entries(), lo, fedConds[c].rhsVal) else lo == 0
      requires if Upper(fedConds[c].op) then forall g :: hi <= g < |ih.Entries()| ==> ih.Entries()[g].key > fedConds[c].rhsVal
               else hi == |ih.Entries()|
      ensures Encloses(lo, hi)
    {
      BoundsOrdered(ih.Entries(), lo, hi, fedConds[c].rhsVal);
      forall g | 0 <= g < |ih.Entries()| && Matches(ih.Entries()[g].rid) ensures lo <= g < hi {
        MatchKey(g, c);
      }
    }

    /** beginTuple and nextTuple until the end: the matching records, each once, by ascending keys of the index.
        The scan fails exactly when its range begins behind the keys of a leaf other than the last. */
    method Collect() returns (r: Outcome)
      requires Runnable()
      ensures Runnable()
      ensures r.Failed? <==> StartsOutside()
      ensures r.Rids? ==> forall x :: x in r.rids <==> Matches(x)
      ensures r.Rids? ==> Ascending(r.rids)
    {
      hide IxIndexHandle.Valid, IxIndexHandle.Contents, IxIndexHandle.Entries, Matches;
      var lower, upper;
      ghost var j, k;
      lower, upper, j, k := SelectRange();
      StartExact(lower, upper, j, k);
      if upper != lower {
        // the first call of get_rid
        var first := ih.GetRid(lower);
        if first.IndexEntryNotFound? {
          return Failed;
        }
      }
      var scan := new IxScan(ih, lower, upper, j, k);
      var rids := CollectFrom(scan);
      r := Rids(rids);
    }

    // Where the first get_rid fails.
    lemma StartExact(lower: Iid, upper: Iid, j: nat, k: nat)
      requires Runnable() && OnLeaf(ih.pages, ih.lv[0], j, lower) && Proper(ih.pages, ih.lv[0], k, upper)
      requires Rank(ih.pages, ih.lv[0], j, lower) <= Rank(ih.pages, ih.lv[0], k, upper)
      ensures lower.pageNo in ih.pages
      ensures Proper(ih.pages, ih.lv[0], j, lower) <==> lower == upper || lower.slotNo < |ih.pages[lower.pageNo].slots|
    {
      var P, lo := ih.pages, ih.lv[0];
      LeafSize(P, ih.lv, ih.rootPage, ih.order, j);
      LeavesDistinct(P, ih.lv, ih.rootPage, ih.order, -1, true);
      RankBound(P, lo, j, lower);
      RankBound(P, lo, k, upper);
      if Proper(P, lo, j, lower) {
        RankUnique(P, lo, j, lower, k, upper);
      }
    }

    // The loops over the range.
    method CollectFrom(scan: IxScan) returns (rids: seq<Rid>)
      requires Runnable() && scan.ih == ih && scan.Valid() && Encloses(scan.At(), scan.Until())
      modifies scan
      ensures Runnable()
      ensures forall x :: x in rids <==> Matches(x)
      ensures Ascending(rids)
    {
      hide IxIndexHandle.Valid, IxIndexHandle.Contents, IxIndexHandle.Entries, IxIndexHandle.ClearRoute, Gathering, Encloses, Indexes, Flat, Ascending;
      ghost var E, lo, hi := ih.Entries(), scan.At(), scan.Until();
      ghost var at: seq<int> := [];
      rids := [];
      scan.EndExact();
      NothingGathered(E, lo);
      while !scan.IsEnd()
        invariant Runnable() && scan.ih == ih && scan.Valid() && ih.Entries() == E
        invariant 0 <= lo <= scan.At() <= scan.Until() == hi <= |E|
        invariant Gathering(E, lo, scan.At(), at, rids)
        decreases hi - scan.At()
      {
        var r := scan.GetRid();
        ghost var g := scan.At();
        EntryRow(g);
        var hit := AllHold(fedConds, rows[r.rid]);
        GatherOne(E, lo, g, at, rids, hit);
        if hit {
          rids := rids + [r.rid];
          at := at + [g];
        }
        scan.Next();
        scan.EndExact();
      }
      scan.EndExact();
      Gathered(E, lo, hi, at, rids);
    }

    // What has been collected from the entries before `upto`.
    ghost predicate Gathering(E: seq<Slot>, lo: int, upto: int, at: seq<int>, rids: seq<Rid>)
      requires Runnable() && 0 <= lo && upto <= |E|
      reads this, ih
    {
      && |at| == |rids| && (forall i :: 0 <= i < |at| ==> InRange(E, lo, upto, at[i], rids[i]))
      && (forall a, b :: 0 <= a < b < |at| ==> at[a] < at[b])
      && (forall g :: lo <= g < upto && Matches(E[g].rid) ==> E[g].rid in rids)
    }

    lemma NothingGathered(E: seq<Slot>, lo: int)
      requires Runnable() && 0 <= lo <= |E|
      ensures Gathering(E, lo, lo, [], [])
    {
    }

    lemma GatherOne(E: seq<Slot>, lo: int, g: int, at: seq<int>, rids: seq<Rid>, hit: bool)
      requires Runnable() && 0 <= lo <= g < |E| && Gathering(E, lo, g, at, rids) && (hit <==> Matches(E[g].rid))
      ensures if hit then Gathering(E, lo, g + 1, at + [g], rids + [E[g].rid]) else Gathering(E, lo, g + 1, at, rids)
    {
      hide Runnable, Matches;
      var at', rids' := if hit then at + [g] else at, if hit then rids + [E[g].rid] else rids;
      forall i | 0 <= i < |at'| ensures InRange(E, lo, g + 1, at'[i], rids'[i]) {
        if i < |at| {
          assert InRange(E, lo, g, at[i], rids[i]);
        }
      }
      forall x | lo <= x < g + 1 && Matches(E[x].rid) ensures E[x].rid in rids' {
        if x < g {
          assert E[x].rid in rids;
        }
      }
    }

    ghost predicate InRange(E: seq<Slot>, lo: int, hi: int, g: int, r: Rid)
      requires Runnable() && 0 <= lo && hi <= |E|
      reads this, ih
    {
      lo <= g < hi && E[g].rid == r && Matches(r)
    }

    lemma Gathered(E: seq<Slot>, lo: int, hi: int, at: seq<int>, rids: seq<Rid>)
      requires Runnable() && E == ih.Entries() && Encloses(lo, hi)
      requires Gathering(E, lo, hi, at, rids)
      ensures forall x :: x in rids <==> Matches(x)
      ensures Ascending(rids)
    {
      forall x | Matches(x) ensures x in rids {
        var g := RowEntry(x);
      }
      SortedEntries(ih.pages, ih.lv, ih.rootPage, ih.order);
      forall a, b | 0 <= a < b < |rids|
        ensures rids[a] in rows && rids[b] in rows && col in rows[rids[a]] && col in rows[rids[b]]
        ensures rows[rids[a]][col] < rows[rids[b]][col]
      {
        assert InRange(E, lo, hi, at[a], rids[a]) && InRange(E, lo, hi, at[b], rids[b]);
        EntryRow(at[a]);
        EntryRow(at[b]);
      }
    }
  }

  /** After the greatest key of a leaf has been deleted, a scan for values from that key on fails unless the leaf is
      the last one. */
  method ScanDropped(t: IxIndexHandle, rows: map<Rid, Dict>, col: TabCol, op: CompOp, key: int) returns (r: Outcome)
    requires t.Valid() && t.ClearRoute(key) && IxRuns.Greatest(t, key) && t.LeafOf(key) != t.lastLeaf
    requires Lower(op) && Indexes(t.Contents() - {key}, rows, col)
    modifies t
    ensures r.Failed?
  {
    hide IxIndexHandle.Valid, IxIndexHandle.Contents, IxIndexHandle.ClearRoute, IxIndexHandle.LeafOf, IxRuns.Greatest, Indexes;
    var ok := IxRuns.DropGreatest(t, key);
    var conds := [Condition(col, op, true, col, key)];
    var scan := new IndexScanExecutor(t, rows, col, conds);
    assert scan.Runnable() by {
      RowsHave(t.Contents(), rows, col);
    }
    r := scan.Collect();
  }

  lemma RowsHave(m: map<int, Rid>, rows: map<Rid, Dict>, col: TabCol)
    requires Indexes(m, rows, col)
    ensures forall r :: r in rows ==> col in rows[r]
  {
  }

  lemma GapContents(s: seq<Slot>, col: TabCol)
    requires s == [Slot(11, Rid(2, 0)), Slot(12, Rid(2, 1)), Slot(13, Rid(2, 2)), Slot(14, Rid(2, 3))]
    ensures Indexes(ToMap(s) - {12},
                    map[Rid(2, 0) := map[col := 11], Rid(2, 2) := map[col := 13], Rid(2, 3) := map[col := 14]], col)
  {
    assert s[1..][1..] == [s[2], s[3]] && s[1..][1..][1..] == [s[3]];
    assert ToMap([s[3]]) == map[14 := Rid(2, 3)];
    assert ToMap([s[2], s[3]]) == ToMap([s[3]])[13 := Rid(2, 2)];
    assert ToMap(s) - {12} == map[11 := Rid(2, 0), 13 := Rid(2, 2), 14 := Rid(2, 3)];
  }

  /** 11 to 14 are inserted at order 4 and 12 is deleted: a scan for values from 12 on fails. */
  method ScanBehindGap(firstByte: int -> int, buffer: seq<Slot>, col: TabCol) returns (r: Outcome)
    requires |buffer| == 5
    ensures r.Failed?
  {
    hide IxIndexHandle.Valid, IxIndexHandle.Contents, IxIndexHandle.ClearRoute, IxIndexHandle.LeafOf, Indexes, ToMap, Clean;
    var s := [Slot(11, Rid(2, 0)), Slot(12, Rid(2, 1)), Slot(13, Rid(2, 2)), Slot(14, Rid(2, 3))];
    IxBytes.PlainClean(Keys(s[2..]));
    var t := IxRuns.Fill(4, firstByte, IxBytes.SameInt, buffer, s);
    var rows := map[Rid(2, 0) := map[col := 11], Rid(2, 2) := map[col := 13], Rid(2, 3) := map[col := 14]];
    GapContents(s, col);
    GapLeaf(t, s);
    r := ScanDropped(t, rows, col, OP_GE, 12);
  }

  // The first of two leaves ends with 12.
  lemma GapLeaf(t: IxIndexHandle, s: seq<Slot>)
    requires s == [Slot(11, Rid(2, 0)), Slot(12, Rid(2, 1)), Slot(13, Rid(2, 2)), Slot(14, Rid(2, 3))]
    requires t.Valid() && t.order == 4 && t.Leaves() == IxRuns.FirstLeaves(4, s) && |t.lv| > 1
    requires t.stale.inner == {IxSpare.ZERO}
    ensures t.ClearRoute(12) && IxRuns.Greatest(t, 12) && t.LeafOf(12) != t.lastLeaf
  {
    hide TreeBut;
    t.KeyClear(12);
    LeavesDistinct(t.pages, t.lv, t.rootPage, t.order, -1, true);
    assert SlotsOf(t.pages, t.lv[0][0]) == t.Leaves()[0] == s[..2];
    IxRuns.LeafWith(t, 0, 1);
  }
}
