/** What a SELECT returns, said of the rows of the tables one by one, and queries whose results are written out. */
module SelectRuns {
  import opened SelectQuery
  import opened QueryPlanner

  // ---- the cross product

  // The number of combinations.
  function Combinations(ts: seq<Table>): nat {
    if ts == [] then 1 else |ts[0].rows| * Combinations(ts[1..])
  }

  // One row of each table, by its number.
  ghost predicate Chosen(ts: seq<Table>, ks: seq<nat>) {
    |ks| == |ts| && forall i :: 0 <= i < |ts| ==> ks[i] < |ts[i].rows|
  }

  /** The place of a combination in lexicographic order. */
  function Place(ts: seq<Table>, ks: seq<nat>): nat
    requires |ks| == |ts|
  {
    if ts == [] then 0 else ks[0] * Combinations(ts[1..]) + Place(ts[1..], ks[1..])
  }

  // d has the columns of the chosen rows, with their values.
  ghost predicate Combines(d: Dict, ts: seq<Table>, ks: seq<nat>)
    requires Chosen(ts, ks)
  {
    && (forall i, c :: 0 <= i < |ts| && c in ts[i].rows[ks[i]] ==> c in d && d[c] == ts[i].rows[ks[i]][c])
    && (forall c :: c in d ==> exists i :: 0 <= i < |ts| && c in ts[i].rows[ks[i]])
  }

  lemma Times(n: nat, c: nat)
    ensures (n + 1) * c == c + n * c && n * c >= 0
  {
  }

  lemma {:induction false} CrossFromSize(ts: seq<Table>, k: nat)
    requires ts != [] && k <= |ts[0].rows|
    ensures |CrossFrom(ts, k)| == (|ts[0].rows| - k) * |Cross(ts[1..])|
    decreases |ts[0].rows| - k
  {
    hide Cross;
    if k < |ts[0].rows| {
      CrossFromSize(ts, k + 1);
      Times(|ts[0].rows| - k - 1, |Cross(ts[1..])|);
    }
  }

  // Behind the first n * c combinations there are those from row k + n on.
  lemma {:induction false} CrossFromAt(ts: seq<Table>, k: nat, n: nat, p: nat)
    requires ts != [] && k + n < |ts[0].rows| && p < |Cross(ts[1..])|
    ensures n * |Cross(ts[1..])| + p < |CrossFrom(ts, k)|
    ensures CrossFrom(ts, k)[n * |Cross(ts[1..])| + p] == ts[0].rows[k + n] + Cross(ts[1..])[p]
    decreases n
  {
    hide Cross;
    var c, rest := |Cross(ts[1..])|, CrossFrom(ts, k + 1);
    var first := Prefixed(ts[0].rows[k], Cross(ts[1..]));
    assert CrossFrom(ts, k) == first + rest && |first| == c;
    if n > 0 {
      CrossFromAt(ts, k + 1, n - 1, p);
      Times(n - 1, c);
      assert CrossFrom(ts, k)[c + ((n - 1) * c + p)] == rest[(n - 1) * c + p];
    }
  }

  lemma {:induction false} CrossSize(ts: seq<Table>)
    ensures |Cross(ts)| == Combinations(ts)
  {
    if ts != [] {
      CrossSize(ts[1..]);
      CrossFromSize(ts, 0);
    }
  }

  /** The cross product holds every combination of one row of each table at its place, and nothing else. */
  lemma {:induction false} CrossAt(ts: seq<Table>, ks: seq<nat>)
    requires (forall k :: 0 <= k < |ts| ==> ts[k].Valid()) && (forall j, k :: 0 <= j < k < |ts| ==> ts[j].name != ts[k].name)
    requires Chosen(ts, ks)
    ensures Place(ts, ks) < |Cross(ts)| == Combinations(ts) && Combines(Cross(ts)[Place(ts, ks)], ts, ks)
  {
    hide CrossFrom, Combines;
    CrossSize(ts);
    if ts == [] {
      CombinesNone(ts, ks);
    } else {
      var rest, more := ts[1..], ks[1..];
      CrossAt(rest, more);
      var p := Place(rest, more);
      CrossFromAt(ts, 0, ks[0], p);
      CombinesMore(ts, ks, Cross(rest)[p]);
    }
  }

  lemma CombinesNone(ts: seq<Table>, ks: seq<nat>)
    requires ts == [] && Chosen(ts, ks)
    ensures Combines(map[], ts, ks)
  {
  }

  lemma CombinesMore(ts: seq<Table>, ks: seq<nat>, d: Dict)
    requires (forall k :: 0 <= k < |ts| ==> ts[k].Valid()) && (forall j, k :: 0 <= j < k < |ts| ==> ts[j].name != ts[k].name)
    requires ts != [] && Chosen(ts, ks) && Combines(d, ts[1..], ks[1..])
    ensures Combines(ts[0].rows[ks[0]] + d, ts, ks)
  {
    var r := ts[0].rows[ks[0]];
    var u := r + d;
    CombinesValues(ts, ks, d);
    hide Table.Valid;
    forall c | c in u ensures exists i :: 0 <= i < |ts| && c in ts[i].rows[ks[i]] {
      if c in d {
        var j :| 0 <= j < |ts| - 1 && c in ts[1..][j].rows[ks[1..][j]];
        assert c in ts[j + 1].rows[ks[j + 1]];
      }
    }
  }

  lemma CombinesValues(ts: seq<Table>, ks: seq<nat>, d: Dict)
    requires (forall k :: 0 <= k < |ts| ==> ts[k].Valid()) && (forall j, k :: 0 <= j < k < |ts| ==> ts[j].name != ts[k].name)
    requires ts != [] && Chosen(ts, ks) && Combines(d, ts[1..], ks[1..])
    ensures forall i, c :: 0 <= i < |ts| && c in ts[i].rows[ks[i]] ==>
      c in ts[0].rows[ks[0]] + d && (ts[0].rows[ks[0]] + d)[c] == ts[i].rows[ks[i]][c]
  {
    var u := ts[0].rows[ks[0]] + d;
    forall i, c | 0 <= i < |ts| && c in ts[i].rows[ks[i]] ensures c in u && u[c] == ts[i].rows[ks[i]][c] {
      assert ts[i].rows[ks[i]].Keys == ts[i].cols;
      if i > 0 {
        assert ts[i] == ts[1..][i - 1];
      } else {
        OtherColumns(ts, ks, d, c);
      }
    }
  }

  // A column of the first table is none of the others.
  lemma OtherColumns(ts: seq<Table>, ks: seq<nat>, d: Dict, c: TabCol)
    requires (forall k :: 0 <= k < |ts| ==> ts[k].Valid()) && (forall j, k :: 0 <= j < k < |ts| ==> ts[j].name != ts[k].name)
    requires ts != [] && Chosen(ts, ks) && Combines(d, ts[1..], ks[1..]) && c in ts[0].cols
    ensures c !in d
  {
    forall j | 0 <= j < |ts| - 1 ensures c !in ts[1..][j].rows[ks[1..][j]] {
      assert ts[1..][j] == ts[j + 1] && ts[j + 1].rows[ks[j + 1]].Keys == ts[j + 1].cols;
    }
  }

  // ---- the filter

  lemma {:induction false} MatchingAppend(a: seq<Dict>, b: seq<Dict>, cs: seq<Condition>)
    ensures Matching(a + b, cs) == Matching(a, cs) + Matching(b, cs)
  {
    if a == [] {
      assert a + b == b;
    } else {
      assert (a + b)[1..] == a[1..] + b;
      MatchingAppend(a[1..], b, cs);
    }
  }

  /** The result has each row as often as there are combinations that meet every condition: conditions between values of
      the row alone, and between its values and constants. */
  lemma {:induction false} MatchingExact(s: seq<Dict>, cs: seq<Condition>, d: Dict)
    ensures multiset(Matching(s, cs))[d] ==
      if forall c :: c in cs ==> Closed(c, d) && Holds(c, d) then multiset(s)[d] else 0
  {
    if s != [] {
      MatchingExact(s[1..], cs, d);
      assert s == [s[0]] + s[1..];
      if Meets(cs, d) {
        assert forall c :: c in cs ==> Closed(c, d) && Holds(c, d);
      } else {
        var k :| 0 <= k < |cs| && !(Closed(cs[k], d) && Holds(cs[k], d));
        assert cs[k] in cs;
      }
    }
  }

  /** Two results keep their order: a combination before another one yields its row before. */
  lemma MatchingOrder(s: seq<Dict>, cs: seq<Condition>, i: nat, j: nat) returns (a: nat, b: nat)
    requires i < j < |s| && Meets(cs, s[i]) && Meets(cs, s[j])
    ensures a < b < |Matching(s, cs)| && Matching(s, cs)[a] == s[i] && Matching(s, cs)[b] == s[j]
  {
    assert s == s[..i] + ([s[i]] + (s[i + 1..j] + ([s[j]] + s[j + 1..])));
    MatchingAppend(s[..i], [s[i]] + (s[i + 1..j] + ([s[j]] + s[j + 1..])), cs);
    MatchingAppend([s[i]], s[i + 1..j] + ([s[j]] + s[j + 1..]), cs);
    MatchingAppend(s[i + 1..j], [s[j]] + s[j + 1..], cs);
    MatchingAppend([s[j]], s[j + 1..], cs);
    assert Matching([s[i]], cs) == [s[i]] && Matching([s[j]], cs) == [s[j]];
    a := |Matching(s[..i], cs)|;
    b := a + 1 + |Matching(s[i + 1..j], cs)|;
  }

  // ---- queries

  const ID := TabCol("t", "id")
  const REF := TabCol("u", "ref")

  // A table t with the column id.
  function Numbers(ids: seq<int>): Table {
    Table("t", {ID}, seq(|ids|, i requires 0 <= i < |ids| => map[ID := ids[i]]))
  }

  lemma {:induction false} CrossOne(t: Table, k: nat)
    requires k <= |t.rows|
    ensures CrossFrom([t], k) == t.rows[k..]
    decreases |t.rows| - k
  {
    if k < |t.rows| {
      CrossOne(t, k + 1);
      assert [t][1..] == [] && Cross([]) == [map[]];
      assert t.rows[k] + map[] == t.rows[k];
      assert Prefixed(t.rows[k], [map[]]) == [t.rows[k]];
    }
  }

  /** select * from t where id <op> 2, on the rows 1, 2 and 3. */
  method SelectBy(op: CompOp) returns (r: Outcome)
    ensures r == match op
      case OP_EQ => Rows([map[ID := 2]])
      case OP_NE => Rows([map[ID := 1], map[ID := 3]])
      case OP_LT => Rows([map[ID := 1]])
      case OP_GT => Rows([map[ID := 3]])
      case OP_LE => Rows([map[ID := 1], map[ID := 2]])
      case OP_GE => Rows([map[ID := 2], map[ID := 3]])
  {
    hide Matching, Cross, CrossFrom;
    var t, c := Numbers([1, 2, 3]), Condition(ID, op, true, ID, 2);
    assert t.rows == [map[ID := 1], map[ID := 2], map[ID := 3]];
    r := SelectFrom([t], [c]);
    OneNamed(t.name);
    MeetsOne(op, 1);
    MeetsOne(op, 2);
    MeetsOne(op, 3);
    assert InTabs(c, Names([t]));
    CrossOf(t);
    ThreeRows(t.rows[0], t.rows[1], t.rows[2], c);
  }

  lemma MeetsOne(op: CompOp, id: int)
    ensures Meets([Condition(ID, op, true, ID, 2)], map[ID := id]) <==> Compare(op, id, 2)
  {
    var cs := [Condition(ID, op, true, ID, 2)];
    assert Meets(cs, map[ID := id]) ==> Holds(cs[0], map[ID := id]);
  }

  lemma CrossOf(t: Table)
    ensures Cross([t]) == t.rows
  {
    CrossOne(t, 0);
    CrossStarts([t]);
    assert t.rows[0..] == t.rows;
  }

  lemma OneNamed(name: string)
    ensures forall t: Table :: t.name == name ==> Names([t]) == [name]
  {
  }

  lemma MatchingStep(s: seq<Dict>, cs: seq<Condition>)
    requires s != []
    ensures Matching(s, cs) == (if Meets(cs, s[0]) then [s[0]] else []) + Matching(s[1..], cs)
  {
  }

  // The filter on three rows.
  lemma ThreeRows(a: Dict, b: Dict, d: Dict, c: Condition)
    ensures Matching([a, b, d], [c]) ==
      (if Meets([c], a) then [a] else []) + (if Meets([c], b) then [b] else []) + (if Meets([c], d) then [d] else [])
  {
    MatchingStep([a, b, d], [c]);
    MatchingStep([b, d], [c]);
    MatchingStep([d], [c]);
    assert [a, b, d][1..] == [b, d] && [b, d][1..] == [d];
  }

  /** select * from t, u where u.ref = t.id, on the rows 1, 2 of t and 2, 1, 2 of u. */
  method SelectJoined() returns (r: Outcome)
    ensures r == Rows([map[ID := 1, REF := 1], map[ID := 2, REF := 2], map[ID := 2, REF := 2]])
  {
    hide Matching, Cross, CrossFrom, Checked;
    var t := Numbers([1, 2]);
    var u := Table("u", {REF}, [map[REF := 2], map[REF := 1], map[REF := 2]]);
    var c := Condition(REF, OP_EQ, false, ID, 0);
    assert t.rows == [map[ID := 1], map[ID := 2]];
    JoinedChecked(t, u, c);
    r := SelectFrom([t, u], [c]);
    CrossTwo(t, u);
    SixRows(Cross([t, u]), c);
  }

  lemma JoinedChecked(t: Table, u: Table, c: Condition)
    requires t.name == "t" && t.cols == {ID} && u.name == "u" && u.cols == {REF} && c.lhs == REF && !c.isRhsVal && c.rhsCol == ID
    ensures Checked([c], [t, u]) && InTabs(c, Names([t, u]))
  {
    assert "t" in Names([t, u]) && "u" in Names([t, u]) by {
      assert Names([t, u]) == ["t", "u"];
    }
  }

  lemma CrossTwo(t: Table, u: Table)
    requires t.rows == [map[ID := 1], map[ID := 2]] && u.rows == [map[REF := 2], map[REF := 1], map[REF := 2]]
    ensures Cross([t, u]) == [map[ID := 1, REF := 2], map[ID := 1, REF := 1], map[ID := 1, REF := 2],
                              map[ID := 2, REF := 2], map[ID := 2, REF := 1], map[ID := 2, REF := 2]]
  {
    hide Cross;
    CrossOf(u);
    assert [t, u][1..] == [u];
    var s := u.rows;
    forall a: int, b: int ensures map[ID := a] + map[REF := b] == map[ID := a, REF := b] {
    }
    assert Prefixed(t.rows[0], s) == [map[ID := 1, REF := 2], map[ID := 1, REF := 1], map[ID := 1, REF := 2]];
    assert Prefixed(t.rows[1], s) == [map[ID := 2, REF := 2], map[ID := 2, REF := 1], map[ID := 2, REF := 2]];
    assert CrossFrom([t, u], 2) == [];
    assert CrossFrom([t, u], 1) == Prefixed(t.rows[1], s);
    assert CrossFrom([t, u], 0) == Prefixed(t.rows[0], s) + Prefixed(t.rows[1], s);
    CrossStarts([t, u]);
  }

  lemma CrossStarts(ts: seq<Table>)
    requires ts != []
    ensures Cross(ts) == CrossFrom(ts, 0)
  {
  }

  lemma SixRows(s: seq<Dict>, c: Condition)
    requires |s| == 6
    ensures Matching(s, [c]) == Matching(s[..3], [c]) + Matching(s[3..], [c])
    ensures Matching(s[..3], [c]) ==
      (if Meets([c], s[0]) then [s[0]] else []) + (if Meets([c], s[1]) then [s[1]] else []) + (if Meets([c], s[2]) then [s[2]] else [])
    ensures Matching(s[3..], [c]) ==
      (if Meets([c], s[3]) then [s[3]] else []) + (if Meets([c], s[4]) then [s[4]] else []) + (if Meets([c], s[5]) then [s[5]] else [])
  {
    assert s == s[..3] + s[3..];
    MatchingAppend(s[..3], s[3..], [c]);
    assert s[..3] == [s[0], s[1], s[2]] && s[3..] == [s[3], s[4], s[5]];
    ThreeRows(s[0], s[1], s[2], c);
    ThreeRows(s[3], s[4], s[5], c);
  }
}
