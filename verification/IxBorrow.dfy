/** Deletion: an underfull page borrows a slot from a sibling. */
module IxBorrow {
  import opened IxNode
  import opened IxLevels
  import opened IxTree
  import opened IxMaintain
  import opened IxInsert

  /** Moving slots between neighbours of a level leaves its flat sequence alone. */
  lemma FlatPair(P: Pages, Q: Pages, s: seq<int>, j: nat)
    requires j + 1 < |s|
    requires forall k :: 0 <= k < |s| && k != j && k != j + 1 ==> SlotsOf(P, s[k]) == SlotsOf(Q, s[k])
    requires SlotsOf(P, s[j]) + SlotsOf(P, s[j + 1]) == SlotsOf(Q, s[j]) + SlotsOf(Q, s[j + 1])
    ensures Flat(Q, s) == Flat(P, s)
  {
    var A, M, B := s[..j], [s[j]] + [s[j + 1]], s[j + 2..];
    assert s == A + M + B;
    FlatThree(P, A, s[j], s[j + 1], B);
    FlatThree(Q, A, s[j], s[j + 1], B);
    FlatFrame(P, Q, A);
    FlatFrame(P, Q, B);
  }

  lemma FlatThree(P: Pages, A: seq<int>, a: int, b: int, B: seq<int>)
    ensures Flat(P, A + ([a] + [b]) + B) == Flat(P, A) + (SlotsOf(P, a) + SlotsOf(P, b)) + Flat(P, B)
  {
    FlatAppend(P, A + ([a] + [b]), B);
    FlatAppend(P, A, [a] + [b]);
    FlatAppend(P, [a], [b]);
    FlatOne(P, a);
    FlatOne(P, b);
  }

  // Slots have moved between the neighbours a and b; the first slot of an inner page a has stayed.
  ghost predicate Shifted(P: Pages, Q: Pages, a: int, b: int, order: nat) {
    && a in P && b in P && a != b && Q.Keys == P.Keys
    && SlotsOf(P, a) + SlotsOf(P, b) == SlotsOf(Q, a) + SlotsOf(Q, b)
    && SlotsOf(Q, a) != [] && SlotsOf(Q, b) != []
    && (!P[a].isLeaf ==> SlotsOf(P, a) != [] && SlotsOf(P, a)[0] == SlotsOf(Q, a)[0])
    && SameHeader(P[a], Q[a]) && SameHeader(P[b], Q[b])
    && |Q[a].slots| + |Q[a].spare| == order + 1 == |Q[b].slots| + |Q[b].spare|
    && SizeOK(Q[a], false, order) && SizeOK(Q[b], false, order)
    && (forall y :: y in P && y != a && y != b ==> Q[y] == P[y])
  }

  lemma ShiftedLink(P: Pages, Q: Pages, up: seq<int>, lo: seq<int>, j: nat, leaf: bool, order: nat)
    requires Link(P, up, lo, leaf, true) && j + 1 < |lo| && Shifted(P, Q, lo[j], lo[j + 1], order)
    requires forall k :: 0 <= k < |lo| && k != j && k != j + 1 ==> lo[k] != lo[j] && lo[k] != lo[j + 1]
    requires lo[j] !in up && lo[j + 1] !in up
    requires P[lo[j]].isLeaf == leaf
    ensures UpLink(Q, up, lo, leaf, j + 1)
    ensures Flat(Q, up) == Flat(P, up)
  {
    FlatFrame(P, Q, up);
    OwnedFrame(P, Q, up, lo);
  }

  lemma ShiftedUpLinks(P: Pages, Q: Pages, lv: seq<seq<int>>, order: nat, h: nat, j: nat)
    requires Nodes(P, lv, order) && Links(P, lv, -1, true)
    requires h + 1 < |lv| && j + 1 < |lv[h]| && Shifted(P, Q, lv[h][j], lv[h][j + 1], order)
    ensures UpLinks(Q, lv, h, h, j + 1)
    ensures Flat(Q, lv[h + 1]) == Flat(P, lv[h + 1])
  {
    hide Flat;
    var j' := j + 1;
    assert GoodPage(P, lv[h][j], h == 0, order);
    forall x | h <= x && 0 <= x < |lv| - 1 ensures UpLinkAt(Q, lv, x, h, j') {
      assert LinkAt(P, lv, x, true);
      ElsewhereNot(lv, h, j, x + 1);
      ElsewhereNot(lv, h, j', x + 1);
      if x == h {
        ShiftedLink(P, Q, lv[x + 1], lv[x], j, h == 0, order);
      } else {
        ElsewhereNot(lv, h, j, x);
        ElsewhereNot(lv, h, j', x);
        FlatFrame(P, Q, lv[x + 1]);
        OwnedFrame(P, Q, lv[x + 1], lv[x]);
      }
    }
    assert LinkAt(P, lv, h, true);
    ShiftedLink(P, Q, lv[h + 1], lv[h], j, h == 0, order) by {
      ElsewhereNot(lv, h, j, h + 1);
      ElsewhereNot(lv, h, j', h + 1);
    }
  }

  // The children of page p name it as their parent; nothing else has changed.
  ghost predicate Adopted(P: Pages, Q: Pages, p: int) {
    && P.Keys == Q.Keys
    && (forall y :: y in P ==> Q[y] == P[y].(parent := Q[y].parent))
    && (forall i :: 0 <= i < |SlotsOf(P, p)| ==> Par(Q, SlotsOf(P, p)[i].rid.pageNo) == p)
    && (forall y :: y in P && Q[y].parent != P[y].parent ==> exists i :: 0 <= i < |SlotsOf(P, p)| && SlotsOf(P, p)[i].rid.pageNo == y)
  }

  // Two neighbouring leaves together are sorted and lie between the outer separators.
  lemma JoinedBounds(P: Pages, F: seq<Slot>, lo: seq<int>, j: nat)
    requires Bounded(P, F, lo, true) && j + 1 < |lo|
    requires Sorted(SlotsOf(P, lo[j])) && Sorted(SlotsOf(P, lo[j + 1]))
    ensures var u := SlotsOf(P, lo[j]) + SlotsOf(P, lo[j + 1]);
            Sorted(u)
            && forall i :: 0 <= i < |u| ==> F[j].key <= u[i].key && (j + 2 < |lo| ==> u[i].key < F[j + 2].key)
  {
    assert LeafBounded(P, F, lo, j, true) && LeafBounded(P, F, lo, j + 1, true);
  }

  // A leaf other than the two keeps its bounds.
  lemma OtherBounded(P: Pages, Q: Pages, F: seq<Slot>, lo: seq<int>, j: nat, key: int, k: nat)
    requires Bounded(P, F, lo, true) && j + 1 < |lo| && k < |lo| && k != j && k != j + 1
    requires SlotsOf(Q, lo[k]) == SlotsOf(P, lo[k])
    ensures LeafBounded(Q, Rekey(F, j + 1, key), lo, k, true)
  {
    assert LeafBounded(P, F, lo, k, true);
  }

  // The bounds of the leaves after a shift and the correction of the separator between the two.
  lemma ShiftedBounded(P: Pages, Q: Pages, F: seq<Slot>, lo: seq<int>, j: nat)
    requires Bounded(P, F, lo, true) && j + 1 < |lo|
    requires Sorted(SlotsOf(P, lo[j])) && Sorted(SlotsOf(P, lo[j + 1]))
    requires SlotsOf(P, lo[j]) + SlotsOf(P, lo[j + 1]) == SlotsOf(Q, lo[j]) + SlotsOf(Q, lo[j + 1])
    requires SlotsOf(Q, lo[j]) != [] && SlotsOf(Q, lo[j + 1]) != []
    requires forall k :: 0 <= k < |lo| && k != j && k != j + 1 ==> SlotsOf(Q, lo[k]) == SlotsOf(P, lo[k])
    ensures Bounded(Q, Rekey(F, j + 1, SlotsOf(Q, lo[j + 1])[0].key), lo, true)
    ensures Sorted(SlotsOf(Q, lo[j])) && Sorted(SlotsOf(Q, lo[j + 1]))
  {
    hide SlotsOf;
    var s, t := SlotsOf(Q, lo[j]), SlotsOf(Q, lo[j + 1]);
    JoinedBounds(P, F, lo, j);
    SplitSorted(s, t);
    TwoBounded(Q, F, lo, j);
    var G := Rekey(F, j + 1, t[0].key);
    forall k | 0 <= k < |lo| ensures LeafBounded(Q, G, lo, k, true) {
      if k != j && k != j + 1 {
        OtherBounded(P, Q, F, lo, j, t[0].key, k);
      }
    }
  }

  // The two leaves of a sorted stretch between the outer separators, when the inner one is right.
  lemma TwoBounded(Q: Pages, F: seq<Slot>, lo: seq<int>, j: nat)
    requires |F| == |lo| && Ascending(F, true) && j + 1 < |lo| && SlotsOf(Q, lo[j]) != [] && SlotsOf(Q, lo[j + 1]) != []
    requires Sorted(SlotsOf(Q, lo[j]) + SlotsOf(Q, lo[j + 1]))
    requires var u := SlotsOf(Q, lo[j]) + SlotsOf(Q, lo[j + 1]);
      forall i :: 0 <= i < |u| ==> F[j].key <= u[i].key && (j + 2 < |lo| ==> u[i].key < F[j + 2].key)
    ensures var G := Rekey(F, j + 1, SlotsOf(Q, lo[j + 1])[0].key);
      Ascending(G, true) && LeafBounded(Q, G, lo, j, true) && LeafBounded(Q, G, lo, j + 1, true)
  {
    hide SlotsOf;
    var s, t := SlotsOf(Q, lo[j]), SlotsOf(Q, lo[j + 1]);
    var u, G := s + t, Rekey(F, j + 1, t[0].key);
    forall i | 0 <= i < |s| ensures s[i] == u[i] && s[i].key < t[0].key {
      assert u[|s|] == t[0];
    }
    forall i | 0 <= i < |t| ensures t[i] == u[|s| + i] && t[0].key <= t[i].key {
      assert u[|s|] == t[0];
    }
    assert F[j].key <= s[0].key < t[0].key;
    assert j + 2 < |lo| ==> t[0].key < F[j + 2].key;
    forall a, b | 0 <= a < b < |G| ensures G[a].key < G[b].key {
      if b == j + 1 && a < j {
        assert F[a].key < F[j].key;
      } else if a == j + 1 && b > j + 2 {
        assert F[j + 2].key < F[b].key;
      }
    }
  }

  // The children of page m name it; the others of the level have lost children at most.
  lemma OwnedShift(P: Pages, Q: Pages, up: seq<int>, lo: seq<int>, m: nat)
    requires Linked(Flat(Q, up), lo) && Owned(P, up) && m < |up|
    requires forall a, b :: 0 <= a < b < |lo| ==> lo[a] != lo[b]
    requires forall k, i :: 0 <= k < |up| && k != m && 0 <= i < |SlotsOf(Q, up[k])| ==> SlotsOf(Q, up[k])[i] in SlotsOf(P, up[k])
    requires forall i :: 0 <= i < |SlotsOf(Q, up[m])| ==> Par(Q, SlotsOf(Q, up[m])[i].rid.pageNo) == up[m]
    requires forall y :: y in lo ==>
      Par(Q, y) == Par(P, y) || exists i :: 0 <= i < |SlotsOf(Q, up[m])| && SlotsOf(Q, up[m])[i].rid.pageNo == y
    ensures Owned(Q, up)
  {
    forall k, i | 0 <= k < |up| && 0 <= i < |SlotsOf(Q, up[k])| ensures Par(Q, SlotsOf(Q, up[k])[i].rid.pageNo) == up[k] {
      if k != m {
        ChildAt(Q, up, lo, k, i);
        forall b | 0 <= b < |SlotsOf(Q, up[m])| ensures SlotsOf(Q, up[m])[b].rid.pageNo != SlotsOf(Q, up[k])[i].rid.pageNo {
          ChildrenDiffer(Q, up, lo, k, i, m, b);
        }
        var s :| 0 <= s < |SlotsOf(P, up[k])| && SlotsOf(P, up[k])[s] == SlotsOf(Q, up[k])[i];
        assert Par(P, SlotsOf(P, up[k])[s].rid.pageNo) == up[k];
      }
    }
  }

  ghost predicate Within(s: seq<Slot>, t: seq<Slot>) {
    forall i :: 0 <= i < |s| ==> s[i] in t
  }

  /** The whole course of a borrow: slots shift between a and b (P1), the separator of b is corrected (P2),
      the children of the borrower `c` are told their parent (P3). */
  ghost predicate Borrowed(P: Pages, P1: Pages, P2: Pages, P3: Pages, lv: seq<seq<int>>, order: nat, h: nat, j: nat, m: nat) {
    && h + 1 < |lv| && j + 1 < |lv[h]| && (m == j || m == j + 1)
    && Shifted(P, P1, lv[h][j], lv[h][j + 1], order)
    && (m == j ==> Within(SlotsOf(P1, lv[h][j + 1]), SlotsOf(P, lv[h][j + 1])))
    && (m == j + 1 ==> Within(SlotsOf(P1, lv[h][j]), SlotsOf(P, lv[h][j])))
    && KeysAbove(P1, P2, lv, h)
    && UpLinks(P2, lv, h, -1, -1)
    && j + 1 < |Flat(P, lv[h + 1])|
    && Flat(P2, lv[h + 1]) == Rekey(Flat(P, lv[h + 1]), j + 1, SlotsOf(P1, lv[h][j + 1])[0].key)
    && (if h == 0 then P3 == P2 else Adopted(P2, P3, lv[h][m]))
  }

  lemma ShiftedFlat(P: Pages, Q: Pages, lv: seq<seq<int>>, order: nat, h: nat, j: nat)
    requires Nodes(P, lv, order) && h < |lv| && j + 1 < |lv[h]| && Shifted(P, Q, lv[h][j], lv[h][j + 1], order)
    ensures Flat(Q, lv[h]) == Flat(P, lv[h])
    ensures forall g, k :: 0 <= g < |lv| && 0 <= k < |lv[g]| && (g != h || (k != j && k != j + 1)) ==> Q[lv[g][k]] == P[lv[g][k]]
  {
    forall g, k | 0 <= g < |lv| && 0 <= k < |lv[g]| && (g != h || (k != j && k != j + 1))
      ensures lv[g][k] in P && Q[lv[g][k]] == P[lv[g][k]]
    {
      assert GoodPage(P, lv[g][k], g == 0, order);
    }
    FlatPair(P, Q, lv[h], j);
  }

  // A page that got a new parent is a page of level h - 1.
  lemma AdoptedLevel(P: Pages, Q: Pages, lv: seq<seq<int>>, order: nat, h: nat, m: nat, g: nat, k: nat)
    requires Nodes(P, lv, order) && 0 < h < |lv| && m < |lv[h]| && Linked(Flat(P, lv[h]), lv[h - 1])
    requires Adopted(P, Q, lv[h][m])
    requires g < |lv| && k < |lv[g]| && g + 1 != h
    ensures lv[g][k] in Q && Q[lv[g][k]] == P[lv[g][k]]
  {
    assert GoodPage(P, lv[g][k], g == 0, order);
    forall i | 0 <= i < |SlotsOf(P, lv[h][m])| ensures SlotsOf(P, lv[h][m])[i].rid.pageNo != lv[g][k] {
      ChildAt(P, lv[h], lv[h - 1], m, i);
    }
  }

  // The pages after the separator was corrected: good pages, linked as before below level h.
  lemma KeysAboveNodes(P: Pages, Q: Pages, lv: seq<seq<int>>, order: nat, h: nat)
    requires Nodes(P, lv, order) && KeysAbove(P, Q, lv, h)
    ensures Nodes(Q, lv, order)
    ensures forall g, k :: 0 <= g < |lv| && g <= h && 0 <= k < |lv[g]| ==> Q[lv[g][k]] == P[lv[g][k]]
  {
    forall g, k | 0 <= g < |lv| && 0 <= k < |lv[g]| ensures GoodPage(Q, lv[g][k], g == 0, order) {
      assert GoodPage(P, lv[g][k], g == 0, order);
      assert SameButKeys(P[lv[g][k]], Q[lv[g][k]]);
    }
  }

  lemma ShiftedNodes(P: Pages, Q: Pages, lv: seq<seq<int>>, order: nat, h: nat, j: nat)
    requires Nodes(P, lv, order) && h < |lv| && j + 1 < |lv[h]| && Shifted(P, Q, lv[h][j], lv[h][j + 1], order)
    ensures Nodes(Q, lv, order)
  {
    forall g, k | 0 <= g < |lv| && 0 <= k < |lv[g]| ensures GoodPage(Q, lv[g][k], g == 0, order) {
      assert GoodPage(P, lv[g][k], g == 0, order);
    }
  }

  lemma AdoptedNodes(P: Pages, Q: Pages, lv: seq<seq<int>>, order: nat, p: int)
    requires Nodes(P, lv, order) && Adopted(P, Q, p)
    ensures Nodes(Q, lv, order)
    ensures forall y :: SlotsOf(Q, y) == SlotsOf(P, y)
  {
    forall g, k | 0 <= g < |lv| && 0 <= k < |lv[g]| ensures GoodPage(Q, lv[g][k], g == 0, order) {
      assert GoodPage(P, lv[g][k], g == 0, order);
    }
  }

  lemma BorrowedFlat(P: Pages, P1: Pages, P2: Pages, P3: Pages, lv: seq<seq<int>>, order: nat, h: nat, j: nat, m: nat, g: nat)
    requires Nodes(P, lv, order) && Borrowed(P, P1, P2, P3, lv, order, h, j, m) && g <= h
    ensures Flat(P2, lv[g]) == Flat(P, lv[g])
    ensures forall k :: 0 <= k < |lv[g]| ==> lv[g][k] in P2 && P2[lv[g][k]] == P1[lv[g][k]]
    ensures forall k :: 0 <= k < |lv[g]| && (g != h || (k != j && k != j + 1)) ==> lv[g][k] in P && P2[lv[g][k]] == P[lv[g][k]]
  {
    ShiftedFlat(P, P1, lv, order, h, j);
    ShiftedNodes(P, P1, lv, order, h, j);
    KeysAboveNodes(P1, P2, lv, order, h);
    forall k | 0 <= k < |lv[g]| ensures lv[g][k] in P {
      assert GoodPage(P, lv[g][k], g == 0, order);
    }
    FlatFrame(P1, P2, lv[g]);
    if g != h {
      FlatFrame(P, P1, lv[g]);
    }
  }

  // After the children were adopted no page outside level h - 1 has changed.
  lemma BorrowedPar(P: Pages, P1: Pages, P2: Pages, P3: Pages, lv: seq<seq<int>>, order: nat, h: nat, j: nat, m: nat, g: nat)
    requires Nodes(P, lv, order) && Links(P, lv, -1, true) && Borrowed(P, P1, P2, P3, lv, order, h, j, m)
    requires g < |lv| && g + 1 != h
    ensures Nodes(P2, lv, order)
    ensures forall k :: 0 <= k < |lv[g]| ==> lv[g][k] in P2 && lv[g][k] in P3 && P3[lv[g][k]] == P2[lv[g][k]]
    ensures forall y :: SlotsOf(P3, y) == SlotsOf(P2, y)
  {
    ShiftedNodes(P, P1, lv, order, h, j);
    KeysAboveNodes(P1, P2, lv, order, h);
    forall k | 0 <= k < |lv[g]| ensures lv[g][k] in P2 && lv[g][k] in P3 && P3[lv[g][k]] == P2[lv[g][k]] {
      assert GoodPage(P2, lv[g][k], g == 0, order);
      if h > 0 {
        BorrowedFlat(P, P1, P2, P3, lv, order, h, j, m, h);
        assert LinkAt(P, lv, h - 1, true);
        AdoptedLevel(P2, P3, lv, order, h, m, g, k);
      }
    }
    if h > 0 {
      AdoptedNodes(P2, P3, lv, order, lv[h][m]);
    }
  }

  lemma BorrowedLinkAbove(P: Pages, P1: Pages, P2: Pages, P3: Pages, lv: seq<seq<int>>, order: nat, h: nat, j: nat, m: nat, x: nat)
    requires Nodes(P, lv, order) && Links(P, lv, -1, true) && Borrowed(P, P1, P2, P3, lv, order, h, j, m)
    requires h < x < |lv| - 1
    ensures Link(P3, lv[x + 1], lv[x], false, true)
  {
    assert UpLinkAt(P2, lv, x, -1, -1);
    BorrowedPar(P, P1, P2, P3, lv, order, h, j, m, x);
    LinkFrame(P2, P3, lv[x + 1], lv[x], false, true);
  }

  lemma BorrowedLinkHere(P: Pages, P1: Pages, P2: Pages, P3: Pages, lv: seq<seq<int>>, order: nat, h: nat, j: nat, m: nat)
    requires Nodes(P, lv, order) && Links(P, lv, -1, true) && Borrowed(P, P1, P2, P3, lv, order, h, j, m)
    requires LeavesSorted(P, lv[0])
    ensures Link(P3, lv[h + 1], lv[h], h == 0, true)
    ensures h == 0 ==> LeavesSorted(P3, lv[0])
  {
    assert UpLinkAt(P2, lv, h, -1, -1);
    assert LinkAt(P, lv, h, true);
    BorrowedPar(P, P1, P2, P3, lv, order, h, j, m, h);
    BorrowedFlat(P, P1, P2, P3, lv, order, h, j, m, h);
    if h == 0 {
      ShiftedBounded(P, P2, Flat(P, lv[1]), lv[0], j);
    } else {
      LinkFrame(P2, P3, lv[h + 1], lv[h], false, true);
    }
  }

  lemma BorrowedLinkUnder(P: Pages, P1: Pages, P2: Pages, P3: Pages, lv: seq<seq<int>>, order: nat, h: nat, j: nat, m: nat)
    requires Nodes(P, lv, order) && Links(P, lv, -1, true) && Borrowed(P, P1, P2, P3, lv, order, h, j, m) && h > 0
    ensures Link(P3, lv[h], lv[h - 1], h - 1 == 0, true)
  {
    hide Flat;
    var up, lo := lv[h], lv[h - 1];
    assert LinkAt(P, lv, h - 1, true);
    BorrowedFlat(P, P1, P2, P3, lv, order, h, j, m, h);
    BorrowedFlat(P, P1, P2, P3, lv, order, h, j, m, h - 1);
    BorrowedPar(P, P1, P2, P3, lv, order, h, j, m, h);
    FlatFrame(P2, P3, up);
    forall k, i | 0 <= k < |up| && k != m && 0 <= i < |SlotsOf(P3, up[k])| ensures SlotsOf(P3, up[k])[i] in SlotsOf(P, up[k]) {
    }
    forall y | y in lo
      ensures SlotsOf(P3, y) == SlotsOf(P, y)
      ensures Par(P3, y) == Par(P, y) || exists i :: 0 <= i < |SlotsOf(P3, up[m])| && SlotsOf(P3, up[m])[i].rid.pageNo == y
    {
      var k :| 0 <= k < |lo| && lo[k] == y;
      assert P2[lv[h - 1][k]] == P[lv[h - 1][k]];
    }
    OwnedShift(P, P3, up, lo, m);
    if h == 1 {
      BoundedFrame(P, P3, Flat(P, up), lo, true);
    }
  }

  lemma BorrowedLinkBelow(P: Pages, P1: Pages, P2: Pages, P3: Pages, lv: seq<seq<int>>, order: nat, h: nat, j: nat, m: nat, x: nat)
    requires Nodes(P, lv, order) && Links(P, lv, -1, true) && Borrowed(P, P1, P2, P3, lv, order, h, j, m)
    requires x + 1 < h
    ensures Link(P3, lv[x + 1], lv[x], x == 0, true)
  {
    assert LinkAt(P, lv, x, true);
    BorrowedPar(P, P1, P2, P3, lv, order, h, j, m, x);
    BorrowedFlat(P, P1, P2, P3, lv, order, h, j, m, x);
    BorrowedFlat(P, P1, P2, P3, lv, order, h, j, m, x + 1);
    LinkFrame(P, P3, lv[x + 1], lv[x], x == 0, true);
  }

  lemma BorrowedSizes(P: Pages, P1: Pages, P2: Pages, P3: Pages, lv: seq<seq<int>>, order: nat, h: nat, j: nat, m: nat)
    requires Nodes(P, lv, order) && Links(P, lv, -1, true) && Borrowed(P, P1, P2, P3, lv, order, h, j, m)
    requires Sizes(P, lv, order, lv[h][m])
    ensures Nodes(P3, lv, order) && Sizes(P3, lv, order, -1)
  {
    hide SlotsOf;
    ShiftedNodes(P, P1, lv, order, h, j);
    ShiftedFlat(P, P1, lv, order, h, j);
    KeysAboveNodes(P1, P2, lv, order, h);
    if h > 0 {
      AdoptedNodes(P2, P3, lv, order, lv[h][m]);
    }
    forall g, k | 0 <= g < |lv| && 0 <= k < |lv[g]|
      ensures lv[g][k] in P3 && SizeOK(P3[lv[g][k]], IsTop(lv, g), order)
    {
      var p := lv[g][k];
      assert GoodPage(P, lv[g][k], g == 0, order) && GoodPage(P3, lv[g][k], g == 0, order);
      assert SameButKeys(P1[p], P2[p]);
      assert P3[p].slots == P2[p].slots;
    }
  }

  lemma BorrowedRing(P: Pages, P1: Pages, P2: Pages, P3: Pages, lv: seq<seq<int>>, order: nat, h: nat, j: nat, m: nat, y: int)
    requires Nodes(P, lv, order) && Links(P, lv, -1, true) && Borrowed(P, P1, P2, P3, lv, order, h, j, m)
    requires y in P
    ensures SameRing(P, P3, y)
  {
    assert SameButKeys(P1[y], P2[y]);
    assert P3[y] == P2[y].(parent := P3[y].parent);
  }

  lemma BorrowedLink(P: Pages, P1: Pages, P2: Pages, P3: Pages, lv: seq<seq<int>>, order: nat, h: nat, j: nat, m: nat, x: nat)
    requires Nodes(P, lv, order) && Links(P, lv, -1, true) && Borrowed(P, P1, P2, P3, lv, order, h, j, m)
    requires LeavesSorted(P, lv[0]) && x < |lv| - 1
    ensures Link(P3, lv[x + 1], lv[x], x == 0, true)
  {
    hide Borrowed;
    if x > h {
      BorrowedLinkAbove(P, P1, P2, P3, lv, order, h, j, m, x);
    } else if x == h {
      BorrowedLinkHere(P, P1, P2, P3, lv, order, h, j, m);
    } else if x + 1 == h {
      BorrowedLinkUnder(P, P1, P2, P3, lv, order, h, j, m);
    } else {
      BorrowedLinkBelow(P, P1, P2, P3, lv, order, h, j, m, x);
    }
  }

  lemma BorrowedLinks(P: Pages, P1: Pages, P2: Pages, P3: Pages, lv: seq<seq<int>>, order: nat, h: nat, j: nat, m: nat)
    requires Nodes(P, lv, order) && Links(P, lv, -1, true) && Borrowed(P, P1, P2, P3, lv, order, h, j, m)
    requires LeavesSorted(P, lv[0])
    ensures Links(P3, lv, -1, true)
  {
    forall x | 0 <= x < |lv| - 1 ensures LinkAt(P3, lv, x, true) {
      BorrowedLink(P, P1, P2, P3, lv, order, h, j, m, x);
    }
  }

  lemma BorrowedLeaves(P: Pages, P1: Pages, P2: Pages, P3: Pages, lv: seq<seq<int>>, order: nat, h: nat, j: nat, m: nat)
    requires Nodes(P, lv, order) && Links(P, lv, -1, true) && Borrowed(P, P1, P2, P3, lv, order, h, j, m)
    requires LeavesSorted(P, lv[0])
    ensures LeavesSorted(P3, lv[0])
    ensures Flat(P3, lv[0]) == Flat(P, lv[0])
  {
    BorrowedFlat(P, P1, P2, P3, lv, order, h, j, m, 0);
    BorrowedPar(P, P1, P2, P3, lv, order, h, j, m, |lv| - 1);
    FlatFrame(P2, P3, lv[0]);
    if h == 0 {
      BorrowedLinkHere(P, P1, P2, P3, lv, order, h, j, m);
    }
  }

  lemma BorrowedChain(P: Pages, P1: Pages, P2: Pages, P3: Pages, lv: seq<seq<int>>, order: nat, h: nat, j: nat, m: nat)
    requires Nodes(P, lv, order) && Links(P, lv, -1, true) && Borrowed(P, P1, P2, P3, lv, order, h, j, m)
    requires Chain(P, lv[0])
    ensures Chain(P3, lv[0])
  {
    BorrowedRing(P, P1, P2, P3, lv, order, h, j, m, IX_LEAF_HEADER_PAGE);
    forall y | y in lv[0] ensures SameRing(P, P3, y) {
      var k :| 0 <= k < |lv[0]| && lv[0][k] == y;
      assert GoodPage(P, lv[0][k], true, order);
      BorrowedRing(P, P1, P2, P3, lv, order, h, j, m, y);
    }
    ChainFrame(P, P3, lv[0]);
  }

  lemma BorrowedRoot(P: Pages, P1: Pages, P2: Pages, P3: Pages, lv: seq<seq<int>>, root: int, order: nat, h: nat, j: nat, m: nat)
    requires Nodes(P, lv, order) && Links(P, lv, -1, true) && Borrowed(P, P1, P2, P3, lv, order, h, j, m)
    requires Rooted(P, lv, root)
    ensures Rooted(P3, lv, root)
  {
    var top := |lv| - 1;
    BorrowedPar(P, P1, P2, P3, lv, order, h, j, m, top);
    assert lv[top][0] == root;
    assert GoodPage(P, lv[top][0], top == 0, order);
    assert SameButKeys(P1[root], P2[root]);
  }

  /** Borrowing mends the tree and moves no pair out of key order. */
  lemma BorrowedTree(P: Pages, P1: Pages, P2: Pages, P3: Pages, lv: seq<seq<int>>, root: int, order: nat, h: nat, j: nat, m: nat)
    requires Borrowed(P, P1, P2, P3, lv, order, h, j, m) && TreeBut(P, lv, root, order, lv[h][m], true)
    ensures Tree(P3, lv, root, order)
    ensures Flat(P3, lv[0]) == Flat(P, lv[0])
  {
    BorrowedSizes(P, P1, P2, P3, lv, order, h, j, m);
    BorrowedLinks(P, P1, P2, P3, lv, order, h, j, m);
    BorrowedLeaves(P, P1, P2, P3, lv, order, h, j, m);
    BorrowedChain(P, P1, P2, P3, lv, order, h, j, m);
    BorrowedRoot(P, P1, P2, P3, lv, root, order, h, j, m);
  }
}
