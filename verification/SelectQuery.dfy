/** What a SELECT means: conditions, rows, cross products, and the rows that a right-deep plan with pushed-down
    conditions yields, all as values. */
module SelectQuery {

  datatype TabCol = TabCol(tab: string, col: string)

  datatype CompOp = OP_EQ | OP_NE | OP_LT | OP_GT | OP_LE | OP_GE

  // A row, or several rows of different tables put together: the values of their columns. Only the order that
  // ix_compare gives to the values of a column matters; they are integers here.
  type Dict = map<TabCol, int>

  datatype Condition = Condition(lhs: TabCol, op: CompOp, isRhsVal: bool, rhsCol: TabCol, rhsVal: int)
  {
    // What the left column is compared with.
    function Right(d: Dict): int
      requires isRhsVal || rhsCol in d
    {
      if isRhsVal then rhsVal else d[rhsCol]
    }
  }

  datatype Table = Table(name: string, cols: set<TabCol>, rows: seq<Dict>)
  {
    ghost predicate Valid() {
      && rows != []
      && (forall c :: c in cols ==> c.tab == name)
      && (forall k :: 0 <= k < |rows| ==> rows[k].Keys == cols)
    }
  }

  // ix_compare on the values of an int column.
  function IxCompare(a: int, b: int): int {
    if a < b then -1 else if a > b then 1 else 0
  }

  predicate Compare(op: CompOp, a: int, b: int) {
    var cmp := IxCompare(a, b);
    match op
    case OP_EQ => cmp == 0
    case OP_NE => cmp != 0
    case OP_LT => cmp < 0
    case OP_GT => cmp > 0
    case OP_LE => cmp <= 0
    case OP_GE => cmp >= 0
  }

  function SwapOp(op: CompOp): CompOp {
    match op
    case OP_EQ => OP_EQ
    case OP_NE => OP_NE
    case OP_LT => OP_GT
    case OP_GT => OP_LT
    case OP_LE => OP_GE
    case OP_GE => OP_LE
  }

  // The columns of a condition have values in d.
  predicate Closed(c: Condition, d: Dict) {
    c.lhs in d && (c.isRhsVal || c.rhsCol in d)
  }

  /** A condition on a row. */
  predicate Holds(c: Condition, d: Dict)
    requires Closed(c, d)
  {
    Compare(c.op, d[c.lhs], c.Right(d))
  }

  // ---- the operators

  /** `=` holds of equal values only, `<` is their order, and exactly one of `<`, `=` and `>` holds. */
  lemma OrderOfValues(c: Condition, d: Dict)
    requires Closed(c, d)
    ensures Holds(c.(op := OP_EQ), d) <==> d[c.lhs] == c.Right(d)
    ensures Holds(c.(op := OP_LT), d) <==> d[c.lhs] < c.Right(d)
    ensures Holds(c.(op := OP_LT), d) || Holds(c.(op := OP_EQ), d) || Holds(c.(op := OP_GT), d)
    ensures !(Holds(c.(op := OP_LT), d) && Holds(c.(op := OP_EQ), d))
    ensures !(Holds(c.(op := OP_LT), d) && Holds(c.(op := OP_GT), d))
    ensures !(Holds(c.(op := OP_EQ), d) && Holds(c.(op := OP_GT), d))
  {
  }

  function Opposite(op: CompOp): CompOp {
    match op
    case OP_EQ => OP_NE
    case OP_NE => OP_EQ
    case OP_LT => OP_GE
    case OP_GE => OP_LT
    case OP_GT => OP_LE
    case OP_LE => OP_GT
  }

  /** A condition holds on a row exactly if the one with the opposite operator does not. */
  lemma OppositeExact(c: Condition, d: Dict)
    requires Closed(c, d)
    ensures Holds(c, d) <==> !Holds(c.(op := Opposite(c.op)), d)
  {
  }

  /** Rows of one column with a value below, at and above that of the condition: what each operator lets through. */
  lemma EachOperator(x: TabCol, v: int, below: int, above: int)
    requires below < v < above
    ensures var on := (op, a: int) => Holds(Condition(x, op, true, x, v), map[x := a]);
      && (on(OP_EQ, below), on(OP_EQ, v), on(OP_EQ, above)) == (false, true, false)
      && (on(OP_NE, below), on(OP_NE, v), on(OP_NE, above)) == (true, false, true)
      && (on(OP_LT, below), on(OP_LT, v), on(OP_LT, above)) == (true, false, false)
      && (on(OP_GT, below), on(OP_GT, v), on(OP_GT, above)) == (false, false, true)
      && (on(OP_LE, below), on(OP_LE, v), on(OP_LE, above)) == (true, true, false)
      && (on(OP_GE, below), on(OP_GE, v), on(OP_GE, above)) == (false, true, true)
  {
  }

  predicate AllClosed(cs: seq<Condition>, d: Dict) {
    forall k :: 0 <= k < |cs| ==> Closed(cs[k], d)
  }

  predicate AllHold(cs: seq<Condition>, d: Dict)
    requires AllClosed(cs, d)
  {
    forall k :: 0 <= k < |cs| ==> Holds(cs[k], d)
  }

  // ---- swapping operands, and feeding values of outer rows

  /** The constructor of a scan turns a condition around when its left column is on another table. */
  function Oriented(c: Condition, tab: string): Condition {
    if c.lhs.tab == tab then c else Condition(c.rhsCol, SwapOp(c.op), c.isRhsVal, c.lhs, c.rhsVal)
  }

  /** Turning a condition around does not change its meaning. */
  lemma OrientedSame(c: Condition, tab: string, d: Dict)
    requires Closed(c, d) && (c.lhs.tab == tab || !c.isRhsVal)
    ensures Closed(Oriented(c, tab), d) && (Holds(Oriented(c, tab), d) <==> Holds(c, d))
  {
  }

  /** feed: a column of another table gives way to its value in the outer rows. */
  function Fed(c: Condition, tab: string, env: Dict): Condition
    requires c.isRhsVal || c.rhsCol.tab == tab || c.rhsCol in env
  {
    if !c.isRhsVal && c.rhsCol.tab != tab then c.(isRhsVal := true, rhsVal := env[c.rhsCol]) else c
  }

  // A condition of the scan on a table can be closed by the outer rows and a row of the table.
  ghost predicate Scoped(c: Condition, t: Table, outer: set<TabCol>) {
    c.lhs in t.cols && (c.isRhsVal || c.rhsCol in t.cols || (c.rhsCol in outer && c.rhsCol.tab != t.name))
  }

  ghost predicate Foreign(t: Table, outer: set<TabCol>) {
    forall c :: c in outer ==> c.tab != t.name
  }

  /** A fed condition on a row of the table means what the condition means on the outer rows and that row. */
  lemma FedSame(c: Condition, t: Table, env: Dict, k: nat)
    requires t.Valid() && k < |t.rows| && Scoped(c, t, env.Keys) && Foreign(t, env.Keys)
    ensures Closed(Fed(c, t.name, env), t.rows[k]) && Closed(c, env + t.rows[k])
    ensures Holds(Fed(c, t.name, env), t.rows[k]) <==> Holds(c, env + t.rows[k])
  {
    assert t.rows[k].Keys == t.cols;
    FedOnRow(c, t.name, t.rows[k], env);
  }

  /** The same for a single row of table `tab`. */
  lemma FedOnRow(c: Condition, tab: string, row: Dict, env: Dict)
    requires (forall x :: x in row ==> x.tab == tab) && (forall x :: x in env ==> x.tab != tab)
    requires c.lhs in row && (c.isRhsVal || c.rhsCol in row || c.rhsCol in env)
    ensures Closed(Fed(c, tab, env), row) && Closed(c, env + row)
    ensures Holds(Fed(c, tab, env), row) <==> Holds(c, env + row)
  {
    assert c.rhsCol in row ==> c.rhsCol !in env;
  }

  // ---- plans

  // Tables from the outermost to the innermost, and the conditions of the scan on each.
  datatype Plan = Plan(tables: seq<Table>, conds: seq<seq<Condition>>)
  {
    ghost predicate Valid(outer: set<TabCol>)
      decreases |tables|
    {
      && |conds| == |tables|
      && (tables != [] ==>
            && tables[0].Valid() && Foreign(tables[0], outer)
            && (forall k :: 0 <= k < |conds[0]| ==> Scoped(conds[0][k], tables[0], outer))
            && Rest().Valid(outer + tables[0].cols))
    }

    // The plan below the outermost scan.
    function Rest(): Plan
      requires tables != [] && conds != []
    {
      Plan(tables[1..], conds[1..])
    }
  }

  lemma ScopedClosed(p: Plan, env: Dict, k: nat)
    requires p.Valid(env.Keys) && p.tables != [] && k < |p.tables[0].rows|
    ensures AllClosed(p.conds[0], env + p.tables[0].rows[k])
    ensures (env + p.tables[0].rows[k]).Keys == env.Keys + p.tables[0].cols
  {
    var t := p.tables[0];
    assert t.rows[k].Keys == t.cols;
    forall i | 0 <= i < |p.conds[0]| ensures Closed(p.conds[0][i], env + t.rows[k]) {
      assert Scoped(p.conds[0][i], t, env.Keys);
    }
  }

  // Row r in front of each of the rows ts.
  ghost function Prefixed(r: Dict, ts: seq<Dict>): (s: seq<Dict>)
    ensures |s| == |ts| && forall k :: 0 <= k < |s| ==> s[k] == r + ts[k]
  {
    seq(|ts|, k requires 0 <= k < |ts| => r + ts[k])
  }

  /** The rows that a plan yields under given outer rows: for each row of the outermost table that meets its
      conditions, in scan order, what the rest of the plan yields under that row as well. */
  ghost function Yield(p: Plan, env: Dict): seq<Dict>
    requires p.Valid(env.Keys)
    decreases |p.tables|, 0
  {
    if p.tables == [] then [map[]] else YieldFrom(p, env, 0)
  }

  ghost function YieldFrom(p: Plan, env: Dict, k: nat): seq<Dict>
    requires p.Valid(env.Keys) && p.tables != [] && k <= |p.tables[0].rows|
    decreases |p.tables|, 0, |p.tables[0].rows| - k
  {
    if k == |p.tables[0].rows| then [] else YieldAt(p, env, k) + YieldFrom(p, env, k + 1)
  }

  // What row k of the outermost table contributes.
  ghost function YieldAt(p: Plan, env: Dict, k: nat): seq<Dict>
    requires p.Valid(env.Keys) && p.tables != [] && k < |p.tables[0].rows|
    decreases |p.tables|, 0, |p.tables[0].rows| - k, 0
  {
    ScopedClosed(p, env, k);
    var r := p.tables[0].rows[k];
    if AllHold(p.conds[0], env + r) then Prefixed(r, Yield(p.Rest(), env + r)) else []
  }

  // ---- the meaning of the query

  /** All combinations of one row of each table, in lexicographic order. */
  ghost function Cross(ts: seq<Table>): seq<Dict>
    decreases |ts|, 0
  {
    if ts == [] then [map[]] else CrossFrom(ts, 0)
  }

  ghost function CrossFrom(ts: seq<Table>, k: nat): seq<Dict>
    requires ts != [] && k <= |ts[0].rows|
    decreases |ts|, 0, |ts[0].rows| - k
  {
    if k == |ts[0].rows| then [] else Prefixed(ts[0].rows[k], Cross(ts[1..])) + CrossFrom(ts, k + 1)
  }

  // Every scan's conditions hold.
  ghost predicate Meets(cs: seq<Condition>, d: Dict) {
    forall k :: 0 <= k < |cs| ==> Closed(cs[k], d) && Holds(cs[k], d)
  }

  ghost predicate MeetsAll(css: seq<seq<Condition>>, d: Dict) {
    forall i :: 0 <= i < |css| ==> Meets(css[i], d)
  }

  ghost function Select(s: seq<Dict>, css: seq<seq<Condition>>, env: Dict): seq<Dict> {
    if s == [] then []
    else (if MeetsAll(css, env + s[0]) then [s[0]] else []) + Select(s[1..], css, env)
  }

  lemma {:induction false} SelectAppend(a: seq<Dict>, b: seq<Dict>, css: seq<seq<Condition>>, env: Dict)
    ensures Select(a + b, css, env) == Select(a, css, env) + Select(b, css, env)
  {
    if a == [] {
      assert a + b == b;
    } else {
      assert (a + b)[1..] == a[1..] + b;
      SelectAppend(a[1..], b, css, env);
    }
  }

  // Conditions that are closed already do not depend on rows of further tables.
  lemma MeetsEarly(cs: seq<Condition>, d: Dict, t: Dict)
    requires AllClosed(cs, d) && d.Keys !! t.Keys
    ensures Meets(cs, d + t) <==> AllHold(cs, d)
  {
    if Meets(cs, d + t) {
      forall k | 0 <= k < |cs| ensures Holds(cs[k], d) {
        assert Closed(cs[k], d) && Holds(cs[k], d + t);
      }
    }
    if AllHold(cs, d) {
      forall k | 0 <= k < |cs| ensures Closed(cs[k], d + t) && Holds(cs[k], d + t) {
        assert Closed(cs[k], d) && Holds(cs[k], d);
      }
    }
  }

  // The columns of the rows of the given tables.
  ghost predicate Apart(s: seq<Dict>, keys: set<TabCol>) {
    forall k :: 0 <= k < |s| ==> s[k].Keys !! keys
  }

  lemma MeetsPrefixed(r: Dict, t: Dict, cs: seq<Condition>, css: seq<seq<Condition>>, env: Dict)
    requires AllClosed(cs, env + r) && t.Keys !! (env + r).Keys
    ensures MeetsAll([cs] + css, env + (r + t)) <==> AllHold(cs, env + r) && MeetsAll(css, (env + r) + t)
  {
    assert env + (r + t) == (env + r) + t;
    MeetsEarly(cs, env + r, t);
    MeetsFirst(cs, css, (env + r) + t);
  }

  lemma PrefixedCons(r: Dict, t: Dict, s: seq<Dict>)
    ensures Prefixed(r, [t] + s) == [r + t] + Prefixed(r, s)
  {
  }

  lemma {:induction false} SelectPrefixed(r: Dict, s: seq<Dict>, cs: seq<Condition>, css: seq<seq<Condition>>, env: Dict)
    requires AllClosed(cs, env + r) && Apart(s, (env + r).Keys)
    ensures Select(Prefixed(r, s), [cs] + css, env)
         == if AllHold(cs, env + r) then Prefixed(r, Select(s, css, env + r)) else []
  {
    hide MeetsAll, Meets, AllHold, Prefixed;
    if s != [] {
      var t, rest := s[0], s[1..];
      assert s == [t] + rest;
      PrefixedCons(r, t, rest);
      assert Apart(rest, (env + r).Keys) by {
        forall k | 0 <= k < |rest| ensures rest[k].Keys !! (env + r).Keys {
          assert rest[k] == s[k + 1];
        }
      }
      SelectPrefixed(r, rest, cs, css, env);
      MeetsPrefixed(r, t, cs, css, env);
      PrefixedCons(r, t, Select(rest, css, env + r));
      var P := [r + t] + Prefixed(r, rest);
      assert P[0] == r + t && P[1..] == Prefixed(r, rest);
    }
  }

  lemma MeetsFirst(cs: seq<Condition>, css: seq<seq<Condition>>, d: Dict)
    ensures MeetsAll([cs] + css, d) <==> Meets(cs, d) && MeetsAll(css, d)
  {
    var a := [cs] + css;
    if MeetsAll(a, d) {
      assert a[0] == cs;
      forall i | 0 <= i < |css| ensures Meets(css[i], d) {
        assert a[i + 1] == css[i];
      }
    }
  }

  // Rows of tables that are foreign to `outer` have no column in it.
  lemma {:induction false} CrossApart(p: Plan, outer: set<TabCol>)
    requires p.Valid(outer)
    ensures Apart(Cross(p.tables), outer)
    decreases |p.tables|, 0
  {
    if p.tables != [] {
      CrossApartFrom(p, outer, 0);
    }
  }

  lemma {:induction false} CrossApartFrom(p: Plan, outer: set<TabCol>, k: nat)
    requires p.Valid(outer) && p.tables != [] && k <= |p.tables[0].rows|
    ensures Apart(CrossFrom(p.tables, k), outer)
    decreases |p.tables|, 0, |p.tables[0].rows| - k
  {
    var t := p.tables[0];
    if k < |t.rows| {
      CrossApart(p.Rest(), outer + t.cols);
      CrossApartFrom(p, outer, k + 1);
      var a, b := Prefixed(t.rows[k], Cross(p.tables[1..])), CrossFrom(p.tables, k + 1);
      assert t.rows[k].Keys == t.cols;
      var ab: seq<Dict> := a + b;
      forall i | 0 <= i < |ab| ensures ab[i].Keys !! outer {
        if i < |a| {
          assert a[i] == t.rows[k] + Cross(p.tables[1..])[i];
        } else {
          assert ab[i] == b[i - |a|];
        }
      }
    }
  }

  /** Pushing conditions down to the scans does not change what a query yields: the plan yields the combinations
      that meet all conditions, once each, in lexicographic order. */
  lemma {:induction false} PushDown(p: Plan, env: Dict)
    requires p.Valid(env.Keys)
    ensures Yield(p, env) == Select(Cross(p.tables), p.conds, env)
    decreases |p.tables|, 0
  {
    if p.tables == [] {
      assert Select([map[]], [], env) == [map[]] + Select([], [], env);
    } else {
      PushDownFrom(p, env, 0);
    }
  }

  lemma {:induction false} PushDownFrom(p: Plan, env: Dict, k: nat)
    requires p.Valid(env.Keys) && p.tables != [] && k <= |p.tables[0].rows|
    ensures YieldFrom(p, env, k) == Select(CrossFrom(p.tables, k), p.conds, env)
    decreases |p.tables|, 0, |p.tables[0].rows| - k
  {
    var t := p.tables[0];
    if k < |t.rows| {
      PushDownFrom(p, env, k + 1);
      ScopedClosed(p, env, k);
      var r, below := t.rows[k], Cross(p.tables[1..]);
      PushDown(p.Rest(), env + r);
      CrossApart(p.Rest(), (env + r).Keys);
      assert p.conds == [p.conds[0]] + p.conds[1..];
      SelectPrefixed(r, below, p.conds[0], p.conds[1..], env);
      SelectAppend(Prefixed(r, below), CrossFrom(p.tables, k + 1), p.conds, env);
    }
  }
}
