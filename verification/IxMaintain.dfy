/** maintain_parent: one separator changes, and with it the separators above it as far as it is a first key. */
module IxMaintain {
  import opened IxNode
  import opened IxLevels
  import opened IxTree

  // What of a link maintain_parent needs and restores; the separator of child `ex` may be out of date.
  ghost predicate UpLink(P: Pages, up: seq<int>, lo: seq<int>, leaf: bool, ex: int) {
    && Linked(Flat(P, up), lo)
    && Owned(P, up)
    && (!leaf ==> FirstsMatch(P, Flat(P, up), lo, ex))
  }

  ghost predicate UpLinkAt(P: Pages, lv: seq<seq<int>>, x: int, g: int, k: int)
    requires 0 <= x < |lv| - 1
  {
    UpLink(P, lv[x + 1], lv[x], x == 0, if x == g then k else -1)
  }

  // Above level h the tree is linked, but for the separator of node k of level g.
  ghost predicate UpLinks(P: Pages, lv: seq<seq<int>>, h: int, g: int, k: int) {
    forall x :: h <= x && 0 <= x < |lv| - 1 ==> UpLinkAt(P, lv, x, g, k)
  }

  ghost predicate SameButKeys(a: Node, b: Node) {
    && a.parent == b.parent && a.isLeaf == b.isLeaf && a.prev == b.prev && a.next == b.next
    && a.spare == b.spare
    && |a.slots| == |b.slots|
    && forall i :: 0 <= i < |a.slots| ==> a.slots[i].rid == b.slots[i].rid
  }

  // P and Q differ in the keys of pages above level h at most.
  ghost predicate KeysAbove(P: Pages, Q: Pages, lv: seq<seq<int>>, h: int) {
    && P.Keys == Q.Keys
    && (forall p :: p in P ==> SameButKeys(P[p], Q[p]))
    && (forall g, j :: 0 <= g <= h && g < |lv| && 0 <= j < |lv[g]| && lv[g][j] in P ==> Q[lv[g][j]] == P[lv[g][j]])
  }

  // The flat sequence with the key of slot j replaced.
  ghost function Rekey(F: seq<Slot>, j: nat, key: int): seq<Slot>
    requires j < |F|
  {
    F[j := Slot(key, F[j].rid)]
  }

  function SetKey(n: Node, i: nat, key: int): Node
    requires i < |n.slots|
  {
    n.(slots := n.slots[i := Slot(key, n.slots[i].rid)])
  }

  /** Rewriting one separator in the page that holds it. */
  lemma RekeyFlat(P: Pages, Q: Pages, up: seq<int>, q: nat, i: nat, key: int)
    requires q < |up| && up[q] in P && i < |P[up[q]].slots|
    requires Q == P[up[q] := SetKey(P[up[q]], i, key)]
    requires forall k :: 0 <= k < |up| && k != q ==> up[k] != up[q]
    ensures Offset(P, up, q) + i < |Flat(P, up)|
    ensures Flat(Q, up) == Rekey(Flat(P, up), Offset(P, up, q) + i, key)
  {
    var A, s, B := Flat(P, up[..q]), P[up[q]].slots, Flat(P, up[q + 1..]);
    FlatSet(P, Q, up, q);
    FlatAround(P, up, q);
    UpdateWithin(A, s, B, i, Slot(key, s[i].rid));
  }

  lemma UpdateWithin(A: seq<Slot>, s: seq<Slot>, B: seq<Slot>, i: nat, v: Slot)
    requires i < |s|
    ensures (A + s + B)[|A| + i] == s[i]
    ensures (A + s + B)[|A| + i := v] == A + s[i := v] + B
  {
  }

  lemma OwnedRekey(P: Pages, Q: Pages, up: seq<int>, p: int, i: nat, key: int)
    requires Owned(P, up) && p in P && i < |P[p].slots| && Q == P[p := SetKey(P[p], i, key)]
    ensures Owned(Q, up)
  {
    forall q, a | 0 <= q < |up| && 0 <= a < |SlotsOf(Q, up[q])|
      ensures Par(Q, SlotsOf(Q, up[q])[a].rid.pageNo) == up[q]
    {
      assert SlotsOf(Q, up[q])[a].rid == SlotsOf(P, up[q])[a].rid;
    }
  }

  lemma RekeyedFirsts(P: Pages, Q: Pages, F: seq<Slot>, lo: seq<int>, k: nat)
    requires FirstsMatch(P, F, lo, k) && k < |lo|
    requires forall p :: p in lo ==> SlotsOf(Q, p) == SlotsOf(P, p)
    ensures SlotsOf(P, lo[k]) != [] && FirstsMatch(Q, Rekey(F, k, SlotsOf(P, lo[k])[0].key), lo, -1)
  {
  }

  // The link between level g and level g + 1 after the separator of node k was corrected.
  lemma RekeyedLink(P: Pages, Q: Pages, up: seq<int>, lo: seq<int>, leaf: bool, k: nat, q: nat, i: nat)
    requires UpLink(P, up, lo, leaf, k) && k < |lo| && SlotsOf(P, lo[k]) != []
    requires q < |up| && up[q] in P && i < |P[up[q]].slots| && k == Offset(P, up, q) + i
    requires Q == P[up[q] := SetKey(P[up[q]], i, SlotsOf(P, lo[k])[0].key)]
    requires forall a :: 0 <= a < |up| && a != q ==> up[a] != up[q]
    requires up[q] !in lo
    ensures UpLink(Q, up, lo, leaf, -1)
    ensures Flat(Q, up) == Rekey(Flat(P, up), k, SlotsOf(P, lo[k])[0].key)
  {
    var key := SlotsOf(P, lo[k])[0].key;
    RekeyFlat(P, Q, up, q, i, key);
    OwnedRekey(P, Q, up, up[q], i, key);
    if !leaf {
      RekeyedFirsts(P, Q, Flat(P, up), lo, k);
    }
  }

  // The link above: only the separator of the page just changed may be out of date.
  lemma RekeyedAbove(P: Pages, Q: Pages, upup: seq<int>, up: seq<int>, q: nat, i: nat, key: int)
    requires UpLink(P, upup, up, false, -1)
    requires q < |up| && up[q] in P && i < |P[up[q]].slots| && Q == P[up[q] := SetKey(P[up[q]], i, key)]
    requires forall a :: 0 <= a < |up| && a != q ==> up[a] != up[q]
    requires up[q] !in upup
    ensures UpLink(Q, upup, up, false, q)
  {
    FlatFrame(P, Q, upup);
    OwnedRekey(P, Q, upup, up[q], i, key);
  }

  // A link none of whose pages changed.
  lemma UpLinkFrame(P: Pages, Q: Pages, up: seq<int>, lo: seq<int>, leaf: bool, ex: int, p: int, i: nat, key: int)
    requires UpLink(P, up, lo, leaf, ex)
    requires p in P && i < |P[p].slots| && Q == P[p := SetKey(P[p], i, key)]
    requires p !in up && p !in lo
    ensures UpLink(Q, up, lo, leaf, ex)
  {
    FlatFrame(P, Q, up);
    OwnedRekey(P, Q, up, p, i, key);
  }

  /** One round of the loop of maintain_parent. */
  lemma MaintainRound(P: Pages, Q: Pages, lv: seq<seq<int>>, h: nat, g: nat, k: nat, q: nat, i: nat)
    requires Distinct(lv) && h <= g < |lv| - 1 && k < |lv[g]| && UpLinks(P, lv, h, g, k)
    requires SlotsOf(P, lv[g][k]) != [] && k < |Flat(P, lv[g + 1])|
    requires q < |lv[g + 1]| && lv[g + 1][q] in P && i < |P[lv[g + 1][q]].slots| && k == Offset(P, lv[g + 1], q) + i
    requires Q == P[lv[g + 1][q] := SetKey(P[lv[g + 1][q]], i, SlotsOf(P, lv[g][k])[0].key)]
    ensures UpLinks(Q, lv, h, g + 1, q)
    ensures Flat(Q, lv[g + 1]) == Rekey(Flat(P, lv[g + 1]), k, SlotsOf(P, lv[g][k])[0].key)
  {
    var key := SlotsOf(P, lv[g][k])[0].key;
    var p, g' := lv[g + 1][q], g + 1;
    assert UpLinkAt(P, lv, g, g, k);
    RekeyedLink(P, Q, lv[g + 1], lv[g], g == 0, k, q, i);
    forall x | h <= x && 0 <= x < |lv| - 1 ensures UpLinkAt(Q, lv, x, g', q) {
      assert UpLinkAt(P, lv, x, g, k);
      if x == g + 1 {
        RekeyedAbove(P, Q, lv[x + 1], lv[x], q, i, key);
      } else if x != g {
        UpLinkFrame(P, Q, lv[x + 1], lv[x], x == 0, -1, p, i, key);
      }
    }
  }

  // The separator turns out to be right already: nothing is out of date.
  lemma MaintainStop(P: Pages, lv: seq<seq<int>>, h: nat, g: nat, k: nat)
    requires h <= g < |lv| - 1 && k < |lv[g]| && UpLinks(P, lv, h, g, k)
    requires SlotsOf(P, lv[g][k]) != [] && k < |Flat(P, lv[g + 1])|
    requires Flat(P, lv[g + 1])[k].key == SlotsOf(P, lv[g][k])[0].key
    ensures UpLinks(P, lv, h, -1, -1)
  {
    forall x | h <= x && 0 <= x < |lv| - 1 ensures UpLinkAt(P, lv, x, -1, -1) {
      assert UpLinkAt(P, lv, x, g, k);
    }
  }

  // At the root nothing is left to correct.
  lemma MaintainTop(P: Pages, lv: seq<seq<int>>, h: nat, g: nat, k: nat)
    requires g == |lv| - 1 && UpLinks(P, lv, h, g, k)
    ensures UpLinks(P, lv, h, -1, -1)
  {
    forall x | h <= x && 0 <= x < |lv| - 1 ensures UpLinkAt(P, lv, x, -1, -1) {
      assert UpLinkAt(P, lv, x, g, k);
    }
  }
}
