/** The executors of a SELECT: sequential scans and the right-deep tree of nested-loop joins, with the feeding of
    outer values into the inner scans. */
module Executors {
  import opened SelectQuery

  // ---- a scan as positions in its table

  // eval_conds on a row of the table.
  predicate RowMatches(cs: seq<Condition>, t: Table, k: nat)
    requires k < |t.rows| && AllClosed(cs, t.rows[k])
  {
    AllHold(cs, t.rows[k])
  }

  ghost predicate ClosedOn(cs: seq<Condition>, t: Table) {
    forall k :: 0 <= k < |t.rows| ==> AllClosed(cs, t.rows[k])
  }

  /** The first row from `from` on that meets the conditions, or the end. */
  ghost function NextMatch(cs: seq<Condition>, t: Table, from: nat): (k: nat)
    requires ClosedOn(cs, t) && from <= |t.rows|
    ensures from <= k <= |t.rows| && (k < |t.rows| ==> RowMatches(cs, t, k))
    ensures forall i :: from <= i < k ==> !RowMatches(cs, t, i)
    decreases |t.rows| - from
  {
    if from == |t.rows| || RowMatches(cs, t, from) then from else NextMatch(cs, t, from + 1)
  }

  function FedAll(cs: seq<Condition>, tab: string, env: Dict): (r: seq<Condition>)
    requires forall k :: 0 <= k < |cs| ==> cs[k].isRhsVal || cs[k].rhsCol.tab == tab || cs[k].rhsCol in env
    ensures |r| == |cs| && forall k :: 0 <= k < |r| ==> r[k] == Fed(cs[k], tab, env)
  {
    seq(|cs|, k requires 0 <= k < |cs| => Fed(cs[k], tab, env))
  }

  /** The loop of the constructors of both kinds of scan. */
  method OrientAll(conds: seq<Condition>, tab: string) returns (turned: seq<Condition>)
    ensures |turned| == |conds| && forall k :: 0 <= k < |conds| ==> turned[k] == Oriented(conds[k], tab)
  {
    turned := conds;
    var i := 0;
    while i < |turned|
      invariant i <= |turned| == |conds|
      invariant forall k :: 0 <= k < |conds| ==> turned[k] == if k < i then Oriented(conds[k], tab) else conds[k]
    {
      var cond := turned[i];
      if cond.lhs.tab != tab {
        turned := turned[i := cond.(lhs := cond.rhsCol, rhsCol := cond.lhs, op := SwapOp(cond.op))];
      }
      i := i + 1;
    }
  }

  /** The loop of feed in both kinds of scan. */
  method FeedAll(conds: seq<Condition>, tab: string, feedDict: Dict) returns (fed: seq<Condition>)
    requires forall k :: 0 <= k < |conds| ==> conds[k].isRhsVal || conds[k].rhsCol.tab == tab || conds[k].rhsCol in feedDict
    ensures fed == FedAll(conds, tab, feedDict)
  {
    fed := conds;
    var i := 0;
    while i < |fed|
      invariant i <= |fed| == |conds|
      invariant forall k :: 0 <= k < |conds| ==> fed[k] == if k < i then Fed(conds[k], tab, feedDict) else conds[k]
    {
      var cond := fed[i];
      if !cond.isRhsVal && cond.rhsCol.tab != tab {
        fed := fed[i := cond.(isRhsVal := true, rhsVal := feedDict[cond.rhsCol])];
      }
      i := i + 1;
    }
  }

  // A plan of which only the outermost scan matters.
  ghost predicate Feedable(cs: seq<Condition>, t: Table, env: Dict) {
    t.Valid() && Foreign(t, env.Keys) && forall k :: 0 <= k < |cs| ==> Scoped(cs[k], t, env.Keys)
  }

  /** After feeding, the conditions of a scan are closed on every row of its table, and mean on it what the original
      conditions mean on the outer rows and that row. */
  lemma FedScan(cs: seq<Condition>, t: Table, env: Dict)
    requires Feedable(cs, t, env)
    ensures ClosedOn(FedAll(cs, t.name, env), t)
    ensures forall k :: 0 <= k < |t.rows| ==>
      AllClosed(cs, env + t.rows[k]) && (RowMatches(FedAll(cs, t.name, env), t, k) <==> AllHold(cs, env + t.rows[k]))
  {
    var fed := FedAll(cs, t.name, env);
    forall k, i | 0 <= k < |t.rows| && 0 <= i < |cs|
      ensures Closed(fed[i], t.rows[k]) && Closed(cs[i], env + t.rows[k])
      ensures Holds(fed[i], t.rows[k]) <==> Holds(cs[i], env + t.rows[k])
    {
      FedSame(cs[i], t, env, k);
    }
    forall k | 0 <= k < |t.rows|
      ensures AllClosed(cs, env + t.rows[k]) && (RowMatches(fed, t, k) <==> AllHold(cs, env + t.rows[k]))
    {
      assert forall i :: 0 <= i < |cs| ==> Holds(fed[i], t.rows[k]) == Holds(cs[i], env + t.rows[k]);
    }
  }

  class SeqScanExecutor {
    const table: Table
    // the conditions, turned so that their left columns are on the table
    const conds: seq<Condition>
    var fedConds: seq<Condition>
    // the table iterator, as the number of the record it stands on, and the record last looked at
    var scan: nat
    var rid: nat

    constructor (table: Table, conds: seq<Condition>)
      requires forall k :: 0 <= k < |conds| ==>
        conds[k].lhs.tab == table.name || (!conds[k].isRhsVal && conds[k].rhsCol.tab == table.name)
      ensures this.table == table && |this.conds| == |conds| && fedConds == this.conds
      ensures forall k :: 0 <= k < |conds| ==> this.conds[k] == Oriented(conds[k], table.name)
    {
      var turned := OrientAll(conds, table.name);
      this.table := table;
      this.conds := turned;
      fedConds := turned;
      scan, rid := 0, 0;
    }

    // The conditions are fed with the outer rows.
    ghost predicate FedWith(env: Dict)
      reads this
    {
      Feedable(conds, table, env) && fedConds == FedAll(conds, table.name, env)
    }

    // Fed, and standing on a row that meets the conditions or at the end.
    ghost predicate Positioned(env: Dict)
      reads this
    {
      && FedWith(env) && scan <= |table.rows| && rid < |table.rows|
      && (scan < |table.rows| ==> rid == scan && AllClosed(conds, env + table.rows[scan])
                                  && AllHold(conds, env + table.rows[scan]))
    }

    // check_runtime_conds: what the assertions demand.
    predicate RuntimeConds()
      reads this
    {
      forall k :: 0 <= k < |fedConds| ==>
        fedConds[k].lhs.tab == table.name && (fedConds[k].isRhsVal || fedConds[k].rhsCol.tab == table.name)
    }

    lemma RuntimeOK(env: Dict)
      requires FedWith(env)
      ensures RuntimeConds()
    {
      forall k | 0 <= k < |fedConds|
        ensures fedConds[k].lhs.tab == table.name && (fedConds[k].isRhsVal || fedConds[k].rhsCol.tab == table.name)
      {
        assert Scoped(conds[k], table, env.Keys);
      }
    }

    /** beginTuple: to the first row that meets the conditions. */
    method BeginTuple(ghost env: Dict)
      requires FedWith(env)
      modifies this`scan, this`rid
      ensures Positioned(env) && ClosedOn(fedConds, table) && scan == NextMatch(fedConds, table, 0)
    {
      FedScan(conds, table, env);
      RuntimeOK(env);
      assert RuntimeConds();
      scan := 0;
      while scan < |table.rows|
        invariant scan <= |table.rows|
        invariant scan == |table.rows| ==> rid < |table.rows|
        invariant NextMatch(fedConds, table, 0) == NextMatch(fedConds, table, scan)
      {
        rid := scan;
        if RowMatches(fedConds, table, rid) {
          break;
        }
        scan := scan + 1;
      }
    }

    /** nextTuple: to the next row that meets the conditions. */
    method NextTuple(ghost env: Dict)
      requires Positioned(env) && !IsEnd()
      modifies this`scan, this`rid
      ensures Positioned(env) && ClosedOn(fedConds, table) && scan == NextMatch(fedConds, table, old(scan) + 1)
    {
      hide AllClosed;
      FedScan(conds, table, env);
      RuntimeOK(env);
      assert RuntimeConds();
      scan := scan + 1;
      while scan < |table.rows|
        invariant scan <= |table.rows| && rid < |table.rows|
        invariant NextMatch(fedConds, table, old(scan) + 1) == NextMatch(fedConds, table, scan)
      {
        rid := scan;
        if RowMatches(fedConds, table, rid) {
          break;
        }
        scan := scan + 1;
      }
    }

    predicate IsEnd()
      reads this
    {
      scan >= |table.rows|
    }

    /** Next: the record last looked at, which at the end is not one of the results. */
    function Next(): Dict
      requires rid < |table.rows|
      reads this
    {
      table.rows[rid]
    }

    /** feed: every column of another table is replaced by its value in the outer rows. */
    method Feed(feedDict: Dict)
      requires Feedable(conds, table, feedDict)
      modifies this`fedConds
      ensures FedWith(feedDict)
    {
      forall k | 0 <= k < |conds| ensures conds[k].isRhsVal || conds[k].rhsCol.tab == table.name || conds[k].rhsCol in feedDict {
        assert Scoped(conds[k], table, feedDict.Keys);
      }
      fedConds := FeedAll(conds, table.name, feedDict);
      RuntimeOK(feedDict);
      assert RuntimeConds();
    }
  }

  /** The right child of a join: a scan or another join. */
  datatype Executor = Scan(scan: SeqScanExecutor) | Join(join: NestedLoopJoinExecutor)
  {
    ghost function Depth(): nat {
      match this case Scan(s) => 0 case Join(j) => j.depth
    }

    ghost function Repr(): set<object> {
      match this case Scan(s) => {s} case Join(j) => j.repr
    }

    ghost predicate Shape()
      decreases Depth(), 1
    {
      match this case Scan(s) => true case Join(j) => j.Shape()
    }

    // The tables and conditions of the scans below.
    ghost function ThePlan(): Plan
      requires Shape()
      decreases Depth(), 1
    {
      match this case Scan(s) => Plan([s.table], [s.conds]) case Join(j) => j.ThePlan()
    }

    ghost predicate FedWith(env: Dict)
      requires Shape()
      reads Repr()
    {
      ThePlan().Valid(env.Keys) &&
      match this
      case Scan(s) => s.FedWith(env)
      case Join(j) => j in j.repr && j.left in j.repr && j.left.FedWith(env) && j.prevFeedDict == env
    }

    // Fed and standing on a result, or at the end.
    ghost predicate Positioned(env: Dict)
      requires Shape()
      reads Repr()
      decreases Depth(), 1
    {
      ThePlan().Valid(env.Keys) &&
      match this
      case Scan(s) => s.Positioned(env)
      case Join(j) => j.Positioned(env)
    }

    // The results from the current one on.
    ghost function Remaining(env: Dict): seq<Dict>
      requires Shape() && Positioned(env)
      reads Repr()
      decreases Depth(), 3
    {
      match this
      case Scan(s) => if s.IsEnd() then [] else YieldFrom(ThePlan(), env, s.scan)
      case Join(j) => j.Remaining(env)
    }

    // A join is at its end when its left child is.
    predicate IsEnd()
      requires Shape()
      reads Repr()
    {
      match this case Scan(s) => s.IsEnd() case Join(j) => assert j.Shape(); j.left.IsEnd()
    }

    lemma EndExact(env: Dict)
      requires Shape() && Positioned(env)
      ensures IsEnd() <==> Remaining(env) == []
    {
      match this
      case Join(j) =>
      case Scan(s) =>
        if !s.IsEnd() {
          YieldHere(ThePlan(), env, s.scan);
        }
    }

    method Feed(feedDict: Dict)
      requires Shape() && ThePlan().Valid(feedDict.Keys)
      modifies Repr()
      ensures FedWith(feedDict)
    {
      match this
      case Scan(s) =>
        FeedableFirst(ThePlan(), feedDict);
        s.Feed(feedDict);
      case Join(j) =>
        assert j.Shape();
        FeedableFirst(j.ThePlan(), feedDict);
        j.prevFeedDict := feedDict;
        j.left.Feed(feedDict);
    }

    method BeginTuple(ghost env: Dict)
      requires Shape() && FedWith(env)
      modifies Repr()
      ensures Positioned(env) && Remaining(env) == Yield(ThePlan(), env)
      decreases Depth(), 1
    {
      match this
      case Scan(s) =>
        s.BeginTuple(env);
        SkipTo(ThePlan(), env, 0);
      case Join(j) =>
        j.BeginTuple(env);
    }

    method NextTuple(ghost env: Dict)
      requires Shape() && Positioned(env) && !IsEnd()
      modifies Repr()
      ensures Positioned(env) && old(Remaining(env)) != [] && Remaining(env) == old(Remaining(env))[1..]
      decreases Depth(), 1
    {
      hide Compare, Holds;
      match this
      case Scan(s) =>
        ghost var p := ThePlan();
        YieldHere(p, env, s.scan);
        YieldLast(p, env, s.scan);
        s.NextTuple(env);
        SkipTo(p, env, old(s.scan) + 1);
      case Join(j) =>
        j.NextTuple(env);
    }

    /** Next: the current result. */
    method Next(ghost env: Dict) returns (r: Dict)
      requires Shape() && Positioned(env) && !IsEnd()
      ensures Remaining(env) != [] && r == Remaining(env)[0]
      decreases Depth(), 1
    {
      match this
      case Scan(s) =>
        YieldHere(ThePlan(), env, s.scan);
        YieldLast(ThePlan(), env, s.scan);
        r := s.Next();
      case Join(j) =>
        assert j.Shape() && j.Positioned(env);
        var leftNext := j.left.Next();
        j.RightPlan(env);
        j.right.EndExact(env + leftNext);
        var rightNext := j.right.Next(env + leftNext);
        r := leftNext + rightNext;
    }
  }

  // ---- facts about plans

  lemma FeedableFirst(p: Plan, env: Dict)
    requires p.Valid(env.Keys) && p.tables != []
    ensures Feedable(p.conds[0], p.tables[0], env)
  {
  }

  // Rows that do not meet the conditions contribute nothing.
  lemma {:induction false} SkipTo(p: Plan, env: Dict, from: nat)
    requires p.Valid(env.Keys) && p.tables != [] && from <= |p.tables[0].rows|
    requires ClosedOn(FedAll(p.conds[0], p.tables[0].name, env), p.tables[0])
    ensures YieldFrom(p, env, from) == YieldFrom(p, env, NextMatch(FedAll(p.conds[0], p.tables[0].name, env), p.tables[0], from))
    decreases |p.tables[0].rows| - from
  {
    var fed, t := FedAll(p.conds[0], p.tables[0].name, env), p.tables[0];
    FedScan(p.conds[0], t, env);
    if from < |t.rows| && !RowMatches(fed, t, from) {
      SkipTo(p, env, from + 1);
    }
  }

  // A row that meets the conditions contributes itself in front of what the rest of the plan yields.
  lemma YieldHere(p: Plan, env: Dict, k: nat)
    requires p.Valid(env.Keys) && p.tables != [] && k < |p.tables[0].rows|
    requires AllClosed(p.conds[0], env + p.tables[0].rows[k]) && AllHold(p.conds[0], env + p.tables[0].rows[k])
    ensures (env + p.tables[0].rows[k]).Keys == env.Keys + p.tables[0].cols
    ensures YieldFrom(p, env, k)
         == Prefixed(p.tables[0].rows[k], Yield(p.Rest(), env + p.tables[0].rows[k])) + YieldFrom(p, env, k + 1)
  {
    ScopedClosed(p, env, k);
  }

  // The innermost scan puts nothing behind its rows.
  lemma YieldLast(p: Plan, env: Dict, k: nat)
    requires p.Valid(env.Keys) && |p.tables| == 1 && k < |p.tables[0].rows|
    ensures p.Rest().Valid((env + p.tables[0].rows[k]).Keys)
    ensures Prefixed(p.tables[0].rows[k], Yield(p.Rest(), env + p.tables[0].rows[k])) == [p.tables[0].rows[k]]
  {
    ScopedClosed(p, env, k);
    var r := p.tables[0].rows[k];
    assert r + map[] == r;
  }

  class NestedLoopJoinExecutor {
    const left: SeqScanExecutor
    const right: Executor
    var prevFeedDict: Dict
    ghost const depth: nat
    ghost const repr: set<object>

    ghost predicate Shape()
      decreases depth, 0
    {
      && right.Depth() < depth && right.Shape()
      && left !in right.Repr() && this !in right.Repr() && repr == {this, left} + right.Repr()
    }

    ghost function ThePlan(): Plan
      requires Shape()
      decreases depth, 0
    {
      var p := right.ThePlan();
      Plan([left.table] + p.tables, [left.conds] + p.conds)
    }

    ghost predicate Positioned(env: Dict)
      requires Shape()
      reads repr
      decreases depth, 0
    {
      && left.Positioned(env) && prevFeedDict == env
      && (!left.IsEnd() ==> right.Positioned(env + left.Next()) && right.Remaining(env + left.Next()) != [])
    }

    ghost function Remaining(env: Dict): seq<Dict>
      requires Shape() && Positioned(env) && ThePlan().Valid(env.Keys)
      reads repr
      decreases depth, 2
    {
      if left.IsEnd() then []
      else Prefixed(left.Next(), right.Remaining(env + left.Next())) + YieldFrom(ThePlan(), env, left.scan + 1)
    }

    constructor (left: SeqScanExecutor, right: Executor)
      requires right.Shape() && left !in right.Repr()
      ensures Shape() && this.left == left && this.right == right && prevFeedDict == map[]
      ensures fresh(this) && depth == right.Depth() + 1
    {
      this.left, this.right, prevFeedDict := left, right, map[];
      depth := right.Depth() + 1;
      repr := {this, left} + right.Repr();
    }

    lemma RightPlan(env: Dict)
      requires Shape() && ThePlan().Valid(env.Keys)
      ensures ThePlan().Rest() == right.ThePlan() && left.table.Valid() && Foreign(left.table, env.Keys)
      ensures forall k :: 0 <= k < |left.table.rows| ==> right.ThePlan().Valid((env + left.table.rows[k]).Keys)
    {
      var p := ThePlan();
      assert p.tables[1..] == right.ThePlan().tables && p.conds[1..] == right.ThePlan().conds;
      forall k | 0 <= k < |left.table.rows| ensures right.ThePlan().Valid((env + left.table.rows[k]).Keys) {
        ScopedClosed(p, env, k);
      }
    }

    /** feed_right: the values of the outer rows and of the left child's row go to the right child. */
    method FeedRight(ghost env: Dict)
      requires Shape() && ThePlan().Valid(env.Keys) && prevFeedDict == env && left.rid < |left.table.rows|
      modifies right.Repr()
      ensures right.FedWith(env + left.Next())
    {
      RightPlan(env);
      var leftDict := left.Next();
      var feedDict := leftDict + prevFeedDict;
      assert leftDict.Keys == left.table.cols;
      assert feedDict == env + leftDict;
      right.Feed(feedDict);
    }

    // The left row is paired with the right child's results, and T is all that is still to come.
    ghost predicate Paired(env: Dict, T: seq<Dict>)
      requires Shape() && ThePlan().Valid(env.Keys)
      reads repr
    {
      && left.Positioned(env) && prevFeedDict == env && right.Positioned(env + left.Next())
      && T == if left.IsEnd() then []
              else Prefixed(left.Next(), right.Remaining(env + left.Next())) + YieldFrom(ThePlan(), env, left.scan + 1)
    }

    // feed_right, and the right child begins.
    method StartRight(ghost env: Dict)
      requires Shape() && ThePlan().Valid(env.Keys) && left.Positioned(env) && prevFeedDict == env
      modifies right.Repr()
      ensures Paired(env, YieldFrom(ThePlan(), env, left.scan))
      decreases right.Depth(), 2
    {
      RightPlan(env);
      FeedRight(env);
      right.BeginTuple(env + left.Next());
      if !left.IsEnd() {
        YieldHere(ThePlan(), env, left.scan);
      }
    }

    lemma NothingLeft(env: Dict, T: seq<Dict>)
      requires Shape() && ThePlan().Valid(env.Keys) && Paired(env, T) && right.IsEnd() && !left.IsEnd()
      ensures T == YieldFrom(ThePlan(), env, left.scan + 1)
    {
      right.EndExact(env + left.Next());
    }

    // The left child moves on when the right one has no more results.
    method LeftNext(ghost env: Dict, ghost T: seq<Dict>)
      requires Shape() && ThePlan().Valid(env.Keys) && Paired(env, T) && right.IsEnd() && !left.IsEnd()
      modifies left
      ensures left.Positioned(env) && left.scan > old(left.scan) && T == YieldFrom(ThePlan(), env, left.scan)
    {
      hide YieldFrom, AllHold, AllClosed, Executor.Remaining;
      NothingLeft(env, T);
      ghost var k := left.scan;
      left.NextTuple(env);
      SkipTo(ThePlan(), env, k + 1);
    }

    /** beginTuple: to the first pair of a left and a right row. */
    method BeginTuple(ghost env: Dict)
      requires Shape() && ThePlan().Valid(env.Keys) && left.FedWith(env) && prevFeedDict == env
      modifies repr
      ensures Positioned(env) && Remaining(env) == Yield(ThePlan(), env)
      decreases depth, 0
    {
      ghost var p := ThePlan();
      ghost var T := Yield(p, env);
      left.BeginTuple(env);
      SkipTo(p, env, 0);
      if left.IsEnd() {
        return;
      }
      StartRight(env);
      while right.IsEnd()
        invariant !left.IsEnd() && Paired(env, T)
        decreases |left.table.rows| - left.scan
      {
        LeftNext(env, T);
        if left.IsEnd() {
          break;
        }
        StartRight(env);
      }
      if !left.IsEnd() {
        right.EndExact(env + left.Next());
      }
    }

    /** nextTuple: to the next pair. The right child is fed and begun once more when the left one has come to its
        end; this does no harm, because the left child's last record is still there. */
    method NextTuple(ghost env: Dict)
      requires Shape() && Positioned(env) && ThePlan().Valid(env.Keys) && !left.IsEnd()
      modifies repr
      ensures Positioned(env) && old(Remaining(env)) != [] && Remaining(env) == old(Remaining(env))[1..]
      decreases depth, 0
    {
      hide AllClosed, AllHold, Feedable, Scoped;
      ghost var T := Remaining(env)[1..];
      NextRight(env);
      while right.IsEnd()
        invariant Paired(env, T) && (left.IsEnd() ==> !right.IsEnd())
        decreases |left.table.rows| - left.scan
      {
        LeftNext(env, T);
        StartRight(env);
        if right.IsEnd() && left.IsEnd() {
          break;
        }
      }
      if !left.IsEnd() {
        right.EndExact(env + left.Next());
      }
    }

    // nextTuple, first step: the right child moves on.
    method NextRight(ghost env: Dict)
      requires Shape() && Positioned(env) && ThePlan().Valid(env.Keys) && !left.IsEnd()
      modifies right.Repr()
      ensures old(Remaining(env)) != [] && Paired(env, old(Remaining(env))[1..])
      decreases depth, 0, 0
    {
      hide AllClosed, AllHold, Feedable, Scoped, ThePlan;
      RightPlan(env);
      ghost var r, e := left.Next(), env + left.Next();
      ghost var R := right.Remaining(e);
      right.EndExact(e);
      right.NextTuple(e);
      assert Prefixed(r, R)[1..] == Prefixed(r, R[1..]);
    }
  }
}
