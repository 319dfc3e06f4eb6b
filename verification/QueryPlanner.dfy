/** The planning of a SELECT: conditions are popped for the scan on each table, the executor tree is built from the
    last table to the first, and its results are collected. */
module QueryPlanner {
  import opened SelectQuery
  import opened Executors

  // The tables of a condition are among the given ones.
  predicate InTabs(c: Condition, tabs: seq<string>) {
    c.lhs.tab in tabs && (c.isRhsVal || c.rhsCol.tab in tabs)
  }

  function Solved(cs: seq<Condition>, tabs: seq<string>): seq<Condition> {
    if cs == [] then [] else (if InTabs(cs[0], tabs) then [cs[0]] else []) + Solved(cs[1..], tabs)
  }

  function Unsolved(cs: seq<Condition>, tabs: seq<string>): seq<Condition> {
    if cs == [] then [] else (if InTabs(cs[0], tabs) then [] else [cs[0]]) + Unsolved(cs[1..], tabs)
  }

  lemma {:induction false} SolvedExact(cs: seq<Condition>, tabs: seq<string>)
    ensures forall c :: c in Solved(cs, tabs) <==> c in cs && InTabs(c, tabs)
    ensures forall c :: c in Unsolved(cs, tabs) <==> c in cs && !InTabs(c, tabs)
    ensures multiset(Solved(cs, tabs)) + multiset(Unsolved(cs, tabs)) == multiset(cs)
  {
    if cs != [] {
      SolvedExact(cs[1..], tabs);
      assert cs == [cs[0]] + cs[1..];
    }
  }

  lemma {:induction false} SolvedAppend(a: seq<Condition>, c: Condition, tabs: seq<string>)
    ensures Solved(a + [c], tabs) == Solved(a, tabs) + (if InTabs(c, tabs) then [c] else [])
    ensures Unsolved(a + [c], tabs) == Unsolved(a, tabs) + (if InTabs(c, tabs) then [] else [c])
  {
    if a == [] {
      assert [] + [c] == [c];
    } else {
      assert (a + [c])[1..] == a[1..] + [c];
      SolvedAppend(a[1..], c, tabs);
    }
  }

  /** pop_conds: takes the conditions whose tables are all known out of `conds`. */
  method PopConds(conds: seq<Condition>, tabs: seq<string>) returns (solved: seq<Condition>, rest: seq<Condition>)
    ensures solved == Solved(conds, tabs) && rest == Unsolved(conds, tabs)
  {
    solved, rest := [], conds;
    var it := 0;
    ghost var done := 0;
    while it < |rest|
      invariant 0 <= it <= |rest| && 0 <= done <= |conds| && rest[it..] == conds[done..]
      invariant solved == Solved(conds[..done], tabs) && rest[..it] == Unsolved(conds[..done], tabs)
      decreases |rest| - it
    {
      assert rest[it] == rest[it..][0] == conds[done];
      assert conds[..done + 1] == conds[..done] + [conds[done]];
      SolvedAppend(conds[..done], conds[done], tabs);
      if InTabs(rest[it], tabs) {
        solved := solved + [rest[it]];
        ghost var was := rest;
        rest := rest[..it] + rest[it + 1..];
        assert rest[..it] == was[..it] && rest[it..] == was[it..][1..];
      } else {
        assert rest[..it + 1] == rest[..it] + [rest[it]];
        assert rest[it + 1..] == rest[it..][1..];
        it := it + 1;
      }
      done := done + 1;
    }
    assert conds[..done] == conds && rest[..it] == rest;
  }

  // ---- the conditions of all scans

  // The conditions popped for the tables from number i on, as they were written.
  ghost function Popped(cs: seq<Condition>, names: seq<string>, i: nat): seq<seq<Condition>>
    requires i <= |names|
    decreases |names| - i
  {
    if i == |names| then []
    else [Solved(cs, names[..i + 1])] + Popped(Unsolved(cs, names[..i + 1]), names, i + 1)
  }

  ghost function LeftOver(cs: seq<Condition>, names: seq<string>, i: nat): seq<Condition>
    requires i <= |names|
    decreases |names| - i
  {
    if i == |names| then cs else LeftOver(Unsolved(cs, names[..i + 1]), names, i + 1)
  }

  ghost function Union(css: seq<seq<Condition>>): multiset<Condition> {
    if css == [] then multiset{} else multiset(css[0]) + Union(css[1..])
  }

  /** Every condition goes to exactly one scan, or is left over. */
  lemma {:induction false} PoppedOnce(cs: seq<Condition>, names: seq<string>, i: nat)
    requires i <= |names|
    ensures Union(Popped(cs, names, i)) + multiset(LeftOver(cs, names, i)) == multiset(cs)
    decreases |names| - i
  {
    if i < |names| {
      SolvedExact(cs, names[..i + 1]);
      PoppedOnce(Unsolved(cs, names[..i + 1]), names, i + 1);
    }
  }

  lemma InMore(c: Condition, names: seq<string>, i: nat, j: nat)
    requires i <= j <= |names| && InTabs(c, names[..i])
    ensures InTabs(c, names[..j])
  {
    assert names[..j] == names[..i] + names[i..j];
  }

  /** A scan gets exactly the conditions whose tables become complete with its own. */
  lemma {:induction false} PoppedExact(cs: seq<Condition>, names: seq<string>, i: nat, k: nat)
    requires i <= k < |names| && forall c :: c in cs ==> !InTabs(c, names[..i])
    ensures |Popped(cs, names, i)| == |names| - i
    ensures forall c :: c in Popped(cs, names, i)[k - i] <==>
      c in cs && InTabs(c, names[..k + 1]) && !InTabs(c, names[..k])
    decreases |names| - i
  {
    SolvedExact(cs, names[..i + 1]);
    var rest := Unsolved(cs, names[..i + 1]);
    if i < k {
      PoppedExact(rest, names, i + 1, k);
      forall c | c in cs && !InTabs(c, names[..k]) ensures c in rest {
        if InTabs(c, names[..i + 1]) {
          InMore(c, names, i + 1, k);
        }
      }
    } else {
      PoppedLength(rest, names, i + 1);
    }
  }

  lemma {:induction false} PoppedLength(cs: seq<Condition>, names: seq<string>, i: nat)
    requires i <= |names|
    ensures |Popped(cs, names, i)| == |names| - i
    decreases |names| - i
  {
    if i < |names| {
      PoppedLength(Unsolved(cs, names[..i + 1]), names, i + 1);
    }
  }

  /** The assertion that no condition is left fails exactly if one names a table that is not selected from. */
  lemma {:induction false} LeftExact(cs: seq<Condition>, names: seq<string>, i: nat)
    requires i <= |names| && forall c :: c in cs ==> !InTabs(c, names[..i])
    ensures forall c :: c in LeftOver(cs, names, i) <==> c in cs && !InTabs(c, names)
    decreases |names| - i
  {
    assert names[..|names|] == names;
    if i < |names| {
      SolvedExact(cs, names[..i + 1]);
      LeftExact(Unsolved(cs, names[..i + 1]), names, i + 1);
      forall c | InTabs(c, names[..i + 1]) ensures InTabs(c, names) {
        InMore(c, names, i + 1, |names|);
      }
    }
  }

  // ---- the plan

  ghost function Names(ts: seq<Table>): (s: seq<string>)
    ensures |s| == |ts| && forall k :: 0 <= k < |s| ==> s[k] == ts[k].name
  {
    seq(|ts|, k requires 0 <= k < |ts| => ts[k].name)
  }

  // The where clause is checked: every column exists in its table.
  ghost predicate Checked(cs: seq<Condition>, ts: seq<Table>) {
    forall c, k :: c in cs && 0 <= k < |ts| ==>
      && (c.lhs.tab == ts[k].name ==> c.lhs in ts[k].cols)
      && (!c.isRhsVal && c.rhsCol.tab == ts[k].name ==> c.rhsCol in ts[k].cols)
  }

  ghost predicate Selectable(ts: seq<Table>) {
    && ts != []
    && (forall k :: 0 <= k < |ts| ==> ts[k].Valid())
    && (forall j, k :: 0 <= j < k < |ts| ==> ts[j].name != ts[k].name)
  }

  ghost function Columns(ts: seq<Table>, i: nat): set<TabCol>
    requires i <= |ts|
  {
    if i == 0 then {} else Columns(ts, i - 1) + ts[i - 1].cols
  }

  lemma {:induction false} ColumnsExact(ts: seq<Table>, i: nat, c: TabCol)
    requires i <= |ts| && forall k :: 0 <= k < |ts| ==> ts[k].Valid()
    ensures c in Columns(ts, i) <==> exists k :: 0 <= k < i && c in ts[k].cols
  {
    if i > 0 {
      ColumnsExact(ts, i - 1, c);
    }
  }

  // The conditions as the scans hold them.
  ghost function Turned(css: seq<seq<Condition>>, ts: seq<Table>): (r: seq<seq<Condition>>)
    requires |css| == |ts|
    ensures |r| == |ts| && forall k :: 0 <= k < |r| ==> r[k] == TurnedOne(css[k], ts[k].name)
  {
    seq(|ts|, k requires 0 <= k < |ts| => TurnedOne(css[k], ts[k].name))
  }

  ghost function TurnedOne(cs: seq<Condition>, tab: string): (r: seq<Condition>)
    ensures |r| == |cs| && forall k :: 0 <= k < |r| ==> r[k] == Oriented(cs[k], tab)
  {
    seq(|cs|, k requires 0 <= k < |cs| => Oriented(cs[k], tab))
  }

  // A condition popped for table i concerns that table and otherwise only earlier ones.
  lemma PoppedScoped(c: Condition, ts: seq<Table>, i: nat)
    requires Selectable(ts) && i < |ts| && Checked([c], ts)
    requires InTabs(c, Names(ts)[..i + 1]) && !InTabs(c, Names(ts)[..i])
    ensures c.lhs.tab == ts[i].name || (!c.isRhsVal && c.rhsCol.tab == ts[i].name)
    ensures Scoped(Oriented(c, ts[i].name), ts[i], Columns(ts, i))
  {
    var names := Names(ts);
    assert names[..i + 1] == names[..i] + [names[i]];
    assert c in [c];
    if c.lhs.tab != ts[i].name {
      ColumnKnown(c.lhs, ts, i);
    } else if !c.isRhsVal && c.rhsCol.tab != ts[i].name {
      ColumnKnown(c.rhsCol, ts, i);
    }
  }

  lemma ColumnKnown(c: TabCol, ts: seq<Table>, i: nat)
    requires Selectable(ts) && i < |ts| && c.tab in Names(ts)[..i]
    requires forall k :: 0 <= k < |ts| && c.tab == ts[k].name ==> c in ts[k].cols
    ensures c in Columns(ts, i)
  {
    var k :| 0 <= k < i && Names(ts)[..i][k] == c.tab;
    assert c in ts[k].cols;
    ColumnsExact(ts, i, c);
  }

  lemma {:induction false} PlanFrom(ts: seq<Table>, css: seq<seq<Condition>>, i: nat)
    requires Selectable(ts) && |css| == |ts| && i <= |ts|
    requires forall k, m :: 0 <= k < |ts| && 0 <= m < |css[k]| ==> Scoped(css[k][m], ts[k], Columns(ts, k))
    ensures Plan(ts[i..], css[i..]).Valid(Columns(ts, i))
    decreases |ts| - i
  {
    if i < |ts| {
      PlanFrom(ts, css, i + 1);
      var p := Plan(ts[i..], css[i..]);
      assert p.Rest() == Plan(ts[i + 1..], css[i + 1..]);
      forall c | c in Columns(ts, i) ensures c.tab != ts[i].name {
        ColumnsExact(ts, i, c);
      }
    }
  }

  // Popping and turning yields a valid plan.
  lemma PlanValid(ts: seq<Table>, cs: seq<Condition>)
    requires Selectable(ts) && Checked(cs, ts)
    ensures |Popped(cs, Names(ts), 0)| == |ts|
    ensures Plan(ts, Turned(Popped(cs, Names(ts), 0), ts)).Valid({})
    ensures forall k, m :: 0 <= k < |ts| && 0 <= m < |Popped(cs, Names(ts), 0)[k]| ==>
      PoppedFor(Popped(cs, Names(ts), 0)[k][m], ts[k].name)
  {
    var names := Names(ts);
    PoppedLength(cs, names, 0);
    var css := Popped(cs, names, 0);
    var turned := Turned(css, ts);
    forall k, m | 0 <= k < |ts| && 0 <= m < |css[k]|
      ensures Scoped(turned[k][m], ts[k], Columns(ts, k)) && PoppedFor(css[k][m], ts[k].name)
    {
      PoppedExact(cs, names, 0, k);
      assert css[k][m] in css[k];
      PoppedScoped(css[k][m], ts, k);
    }
    PlanFrom(ts, turned, 0);
    assert ts[0..] == ts && turned[0..] == turned;
  }

  // What the constructor of a scan asserts about its conditions.
  predicate PoppedFor(c: Condition, tab: string) {
    c.lhs.tab == tab || (!c.isRhsVal && c.rhsCol.tab == tab)
  }

  // ---- the meaning of the whole query

  ghost function Matching(s: seq<Dict>, cs: seq<Condition>): seq<Dict> {
    if s == [] then [] else (if Meets(cs, s[0]) then [s[0]] else []) + Matching(s[1..], cs)
  }

  /** The conditions of all scans hold exactly when the where clause does. */
  lemma AllScansMeet(ts: seq<Table>, cs: seq<Condition>, d: Dict)
    requires Selectable(ts) && Checked(cs, ts) && (forall c :: c in cs ==> InTabs(c, Names(ts)))
    requires |Popped(cs, Names(ts), 0)| == |ts|
    requires forall c, k :: 0 <= k < |ts| && c in ts[k].cols ==> c in d
    ensures MeetsAll(Turned(Popped(cs, Names(ts), 0), ts), d) <==> Meets(cs, d)
  {
    hide Names;
    var names := Names(ts);
    var css := Popped(cs, names, 0);
    var turned := Turned(css, ts);
    PlanValid(ts, cs);
    forall c | c in cs ensures Closed(c, d) {
      ConditionClosed(c, cs, ts, d);
    }
    if Meets(cs, d) {
      forall k, m | 0 <= k < |ts| && 0 <= m < |turned[k]| ensures Closed(turned[k][m], d) && Holds(turned[k][m], d) {
        PoppedExact(cs, names, 0, k);
        assert css[k][m] in css[k] && css[k][m] in cs && PoppedFor(css[k][m], ts[k].name);
        OrientedSame(css[k][m], ts[k].name, d);
      }
    }
    if MeetsAll(turned, d) {
      forall c | c in cs ensures Holds(c, d) {
        var k := ScanOf(c, cs, names);
        PoppedExact(cs, names, 0, k);
        assert c in css[k];
        var m :| 0 <= m < |css[k]| && css[k][m] == c;
        assert Meets(turned[k], d) && PoppedFor(c, ts[k].name);
        assert turned[k][m] == Oriented(c, ts[k].name);
        OrientedSame(c, ts[k].name, d);
      }
    }
  }

  lemma ConditionClosed(c: Condition, cs: seq<Condition>, ts: seq<Table>, d: Dict)
    requires Checked(cs, ts) && c in cs && InTabs(c, Names(ts))
    requires forall c, k :: 0 <= k < |ts| && c in ts[k].cols ==> c in d
    ensures Closed(c, d)
  {
    var names := Names(ts);
    var k :| 0 <= k < |names| && names[k] == c.lhs.tab;
    assert c.lhs in ts[k].cols;
    if !c.isRhsVal {
      var m :| 0 <= m < |names| && names[m] == c.rhsCol.tab;
      assert c.rhsCol in ts[m].cols;
    }
  }

  // The scan to which a condition goes.
  lemma ScanOf(c: Condition, cs: seq<Condition>, names: seq<string>) returns (k: nat)
    requires c in cs && InTabs(c, names)
    ensures k < |names| && InTabs(c, names[..k + 1]) && !InTabs(c, names[..k])
  {
    assert names[..|names|] == names;
    k := 0;
    while !InTabs(c, names[..k + 1])
      invariant k < |names| && !InTabs(c, names[..k])
      decreases |names| - k
    {
      k := k + 1;
    }
  }

  lemma {:induction false} SelectIsMatching(s: seq<Dict>, ts: seq<Table>, cs: seq<Condition>)
    requires Selectable(ts) && Checked(cs, ts) && (forall c :: c in cs ==> InTabs(c, Names(ts)))
    requires |Popped(cs, Names(ts), 0)| == |ts|
    requires forall i, c, k :: 0 <= i < |s| && 0 <= k < |ts| && c in ts[k].cols ==> c in s[i]
    ensures Select(s, Turned(Popped(cs, Names(ts), 0), ts), map[]) == Matching(s, cs)
  {
    if s != [] {
      var e: Dict := map[];
      assert e + s[0] == s[0];
      AllScansMeet(ts, cs, s[0]);
      forall i, c, k | 0 <= i < |s[1..]| && 0 <= k < |ts| && c in ts[k].cols ensures c in s[1..][i] {
        assert s[1..][i] == s[i + 1];
      }
      SelectIsMatching(s[1..], ts, cs);
    }
  }

  // The rows of the cross product have all columns.
  lemma {:induction false} CrossColumns(p: Plan, outer: set<TabCol>, i: nat, c: TabCol, k: nat)
    requires p.Valid(outer) && i < |Cross(p.tables)| && k < |p.tables| && c in p.tables[k].cols
    ensures c in Cross(p.tables)[i]
    decreases |p.tables|, 0
  {
    CrossColumnsFrom(p, outer, 0, i, c, k);
  }

  lemma {:induction false} CrossColumnsFrom(p: Plan, outer: set<TabCol>, from: nat, i: nat, c: TabCol, k: nat)
    requires p.Valid(outer) && p.tables != [] && from <= |p.tables[0].rows|
    requires i < |CrossFrom(p.tables, from)| && k < |p.tables| && c in p.tables[k].cols
    ensures c in CrossFrom(p.tables, from)[i]
    decreases |p.tables|, 0, |p.tables[0].rows| - from
  {
    var t := p.tables[0];
    var below := Cross(p.tables[1..]);
    if i < |below| {
      assert t.rows[from].Keys == t.cols;
      if k > 0 {
        CrossColumns(p.Rest(), outer + t.cols, i, c, k - 1);
      }
    } else {
      CrossColumnsFrom(p, outer, from + 1, i - |below|, c, k);
    }
  }

  lemma FedNothing(cs: seq<Condition>, t: Table)
    requires Feedable(cs, t, map[])
    ensures FedAll(cs, t.name, map[]) == cs
  {
    forall k | 0 <= k < |cs| ensures Fed(cs[k], t.name, map[]) == cs[k] {
      assert Scoped(cs[k], t, {});
    }
  }

  datatype Outcome = AssertionFailed | Rows(rows: seq<Dict>)

  ghost predicate Built(scans: seq<SeqScanExecutor>, ts: seq<Table>, done: seq<seq<Condition>>)
    reads scans
  {
    && |scans| == |done| <= |ts|
    && (forall j, k :: 0 <= j < k < |scans| ==> scans[j] != scans[k])
    && (forall k :: 0 <= k < |scans| ==> BuiltOne(scans[k], ts[k], done[k]))
  }

  ghost predicate BuiltOne(s: SeqScanExecutor, t: Table, cs: seq<Condition>)
    reads s
  {
    s.table == t && s.conds == TurnedOne(cs, t.name) && s.fedConds == s.conds
  }

  method MakeScan(t: Table, cs: seq<Condition>) returns (s: SeqScanExecutor)
    requires forall m :: 0 <= m < |cs| ==> PoppedFor(cs[m], t.name)
    ensures fresh(s) && BuiltOne(s, t, cs)
  {
    s := new SeqScanExecutor(t, cs);
    assert s.conds == TurnedOne(cs, t.name);
  }

  lemma PoppedStep(css: seq<seq<Condition>>, cs: seq<Condition>, names: seq<string>, i: nat)
    requires i < |names| == |css| && css[i..] == Popped(cs, names, i)
    ensures css[i] == Solved(cs, names[..i + 1])
    ensures css[i + 1..] == Popped(Unsolved(cs, names[..i + 1]), names, i + 1)
    ensures LeftOver(cs, names, i) == LeftOver(Unsolved(cs, names[..i + 1]), names, i + 1)
  {
    assert css[i] == css[i..][0] && css[i + 1..] == css[i..][1..];
  }

  // select_from, first loop: a scan on each table with the conditions popped for it.
  method MakeScans(ts: seq<Table>, conds: seq<Condition>)
    returns (scans: seq<SeqScanExecutor>, rest: seq<Condition>)
    requires Selectable(ts) && Checked(conds, ts)
    ensures fresh(scans) && Built(scans, ts, Popped(conds, Names(ts), 0)) && |scans| == |ts|
    ensures rest == LeftOver(conds, Names(ts), 0)
  {
    hide Popped, LeftOver, PoppedFor, BuiltOne, Checked, Table.Valid, Names, TurnedOne;
    ghost var all := Names(ts);
    ghost var css := Popped(conds, all, 0);
    PlanValid(ts, conds);
    scans, rest := [], conds;
    var names := [];
    var i := 0;
    assert css[0..] == css;
    while i < |ts|
      invariant 0 <= i <= |ts| && names == all[..i] && fresh(scans)
      invariant |scans| == i && forall j, k :: 0 <= j < k < i ==> scans[j] != scans[k]
      invariant forall k :: 0 <= k < i ==> BuiltOne(scans[k], ts[k], css[k])
      invariant css[i..] == Popped(rest, all, i) && LeftOver(conds, all, 0) == LeftOver(rest, all, i)
    {
      names := names + [ts[i].name];
      assert names == all[..i + 1];
      PoppedStep(css, rest, all, i);
      var curr;
      curr, rest := PopConds(rest, names);
      var scan := MakeScan(ts[i], curr);
      scans := scans + [scan];
      i := i + 1;
    }
    AllPopped(rest, all);
  }

  lemma FromCons<T>(s: seq<T>, i: nat)
    requires i < |s|
    ensures s[i..] == [s[i]] + s[i + 1..]
  {
  }

  lemma AllPopped(cs: seq<Condition>, names: seq<string>)
    ensures LeftOver(cs, names, |names|) == cs
  {
  }

  // select_from, second loop: the joins, from the last table to the first.
  method MakeTree(ts: seq<Table>, scans: seq<SeqScanExecutor>, ghost css: seq<seq<Condition>>) returns (root: Executor)
    requires Selectable(ts) && Built(scans, ts, css) && |scans| == |ts| == |css|
    ensures root.Shape() && root.ThePlan() == Plan(ts, Turned(css, ts))
    ensures fresh(root.Repr() - (set s | s in scans))
    ensures Outermost(root, scans[0])
    ensures Built(scans, ts, css)
  {
    hide Table.Valid, Built, BuiltOne;
    ghost var turned := Turned(css, ts);
    BuiltParts(scans, ts, css);
    var i := |ts| - 1;
    root := Scan(scans[i]);
    assert ts[i..] == [ts[i]] && turned[i..] == [turned[i]];
    while i > 0
      invariant 0 <= i < |ts| && root.Shape() && root.ThePlan() == Plan(ts[i..], turned[i..])
      invariant fresh(root.Repr() - (set s | s in scans))
      invariant forall k :: 0 <= k < i ==> scans[k] !in root.Repr()
      invariant Outermost(root, scans[i])
    {
      i := i - 1;
      root := MakeJoin(scans[i], root);
      FromCons(ts, i);
      FromCons(turned, i);
    }
    assert ts[0..] == ts && turned[0..] == turned;
  }

  lemma BuiltParts(scans: seq<SeqScanExecutor>, ts: seq<Table>, css: seq<seq<Condition>>)
    requires Built(scans, ts, css) && |scans| == |ts|
    ensures forall j, k :: 0 <= j < k < |scans| ==> scans[j] != scans[k]
    ensures forall k :: 0 <= k < |scans| ==> scans[k].table == ts[k] && scans[k].conds == Turned(css, ts)[k]
  {
    forall k | 0 <= k < |scans| ensures scans[k].table == ts[k] && scans[k].conds == Turned(css, ts)[k] {
      assert BuiltOne(scans[k], ts[k], css[k]);
    }
  }

  // The outermost scan of an executor that no one has fed.
  ghost predicate Outermost(root: Executor, s: SeqScanExecutor)
    reads match root case Scan(_) => {} case Join(j) => {j}
  {
    match root case Scan(scan) => scan == s case Join(j) => j.left == s && j.prevFeedDict == map[]
  }

  method MakeJoin(left: SeqScanExecutor, right: Executor) returns (root: Executor)
    requires right.Shape() && left !in right.Repr()
    ensures root.Shape() && Outermost(root, left) && root.Join? && fresh(root.join)
    ensures root.Repr() == {root.join, left} + right.Repr()
    ensures root.ThePlan() == Plan([left.table] + right.ThePlan().tables, [left.conds] + right.ThePlan().conds)
  {
    var join := new NestedLoopJoinExecutor(left, right);
    root := Join(join);
  }

  /** select_from, up to the projection: the combinations of rows that meet the where clause, once each, in
      lexicographic order of the scans. The assertion that all conditions are popped fails exactly when one of them
      names a table that is not selected from. */
  method SelectFrom(ts: seq<Table>, conds: seq<Condition>) returns (r: Outcome)
    requires Selectable(ts) && Checked(conds, ts)
    ensures r.AssertionFailed? <==> exists c :: c in conds && !InTabs(c, Names(ts))
    ensures r.Rows? ==> r.rows == Matching(Cross(ts), conds)
  {
    LeftExact(conds, Names(ts), 0);
    var scans, rest := MakeScans(ts, conds);
    if rest != [] {
      assert rest[0] in rest;
      return AssertionFailed;
    }
    ghost var css := Popped(conds, Names(ts), 0);
    ghost var p := Plan(ts, Turned(css, ts));
    PlanValid(ts, conds);
    var root := MakeTree(ts, scans, css);
    assert BuiltOne(scans[0], ts[0], css[0]);
    RootFed(root, p);
    var rows := Collect(root);
    PushDown(p, map[]);
    forall i, c, k | 0 <= i < |Cross(ts)| && 0 <= k < |ts| && c in ts[k].cols ensures c in Cross(ts)[i] {
      CrossColumns(p, {}, i, c, k);
    }
    SelectIsMatching(Cross(ts), ts, conds);
    r := Rows(rows);
  }

  // The root is not fed by anyone; its conditions need no feeding.
  lemma RootFed(root: Executor, p: Plan)
    requires root.Shape() && root.ThePlan() == p && p.Valid({}) && p.tables != []
    requires match root
             case Scan(s) => s.fedConds == s.conds
             case Join(j) => j.left.fedConds == j.left.conds && j.prevFeedDict == map[]
    ensures root.FedWith(map[])
  {
    var e: Dict := map[];
    assert e.Keys == {};
    FeedableFirst(p, e);
    match root
    case Scan(s) =>
      FedNothing(s.conds, s.table);
    case Join(j) =>
      assert j.Shape();
      FedNothing(j.left.conds, j.left.table);
  }

  // The loop of the client over the root's results.
  method Collect(root: Executor) returns (rows: seq<Dict>)
    requires root.Shape() && root.FedWith(map[])
    modifies root.Repr()
    ensures rows == Yield(root.ThePlan(), map[])
  {
    hide Executor.Positioned, Executor.Remaining, Executor.ThePlan, Executor.IsEnd, Yield, Compare;
    ghost var all := Yield(root.ThePlan(), map[]);
    root.BeginTuple(map[]);
    rows := [];
    root.EndExact(map[]);
    while !root.IsEnd()
      invariant root.Positioned(map[]) && rows + root.Remaining(map[]) == all
      invariant root.IsEnd() <==> root.Remaining(map[]) == []
      decreases |root.Remaining(map[])|
    {
      var row := root.Next(map[]);
      root.NextTuple(map[]);
      rows := rows + [row];
      root.EndExact(map[]);
    }
  }
}
