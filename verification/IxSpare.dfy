/** What the spare slots hold: which keys can turn up in them, and why they rarely mislead a search.

    A spare slot was live once, or it is a zero of a new page, or it lay in the buffer of the first pages. When a
    page is split, its spare slots repeat the slots of the page split off, and so their keys are not before the
    first key of the next page; a search that ends in the page never looks for such a key. `stale` collects the
    slots for which this is not known.
  */
module IxSpare {
  import opened Defs
  import opened IxNode
  import opened IxLevels
  import opened IxTree
  import opened IxMaintain
  import opened IxInsert
  import opened IxParent
  import opened IxClimb
  import opened IxOps
  import opened IxShrink

  // A slot of a page of zeros.
  const ZERO := Slot(0, Rid(0, 0))

  function Zeros(n: nat): (s: seq<Slot>)
    ensures |s| == n && forall i :: 0 <= i < n ==> s[i] == ZERO
  {
    seq(n, _ => ZERO)
  }

  // A page of the size of an index page, all zeros.
  function ZeroPage(order: nat): (n: Node)
    ensures n.slots == [] && |n.spare| == order + 1 && forall i :: 0 <= i < |n.spare| ==> n.spare[i] == ZERO
  {
    Node(0, false, 0, 0, [], Zeros(order + 1))
  }

  // ---- keys that have been seen

  ghost predicate AllIn(s: seq<Slot>, K: set<int>) {
    forall i :: 0 <= i < |s| ==> s[i].key in K
  }

  ghost predicate KeysIn(n: Node, K: set<int>) {
    AllIn(n.slots, K) && AllIn(n.spare, K)
  }

  /** The keys that may be on the pages, live or spare: `all` on the leaves, `inner` on the inner pages. */
  datatype Seen = Seen(all: set<int>, inner: set<int>)
  {
    ghost predicate Valid() {
      inner <= all && 0 in inner
    }

    function On(leaf: bool): set<int> {
      if leaf then all else inner
    }

    // A key more on the leaves.
    function More(key: int): Seen {
      Seen(all + {key}, inner)
    }

    // Some keys more on the inner pages.
    function Up(keys: set<int>): Seen {
      Seen(all, inner + keys)
    }
  }

  ghost predicate Known(P: Pages, K: Seen) {
    forall p :: p in P ==> KeysIn(P[p], K.On(P[p].isLeaf))
  }

  lemma AllInPhysical(n: Node, K: set<int>)
    ensures KeysIn(n, K) <==> AllIn(n.Physical(), K)
  {
    if AllIn(n.Physical(), K) {
      assert forall i :: 0 <= i < |n.slots| ==> n.slots[i] == n.Physical()[i];
      assert forall i :: 0 <= i < |n.spare| ==> n.spare[i] == n.Physical()[|n.slots| + i];
    }
  }

  lemma WithSizeKnown(n: Node, size: nat, K: set<int>)
    requires size <= |n.slots| + |n.spare| && KeysIn(n, K)
    ensures KeysIn(n.WithSize(size), K)
  {
    AllInPhysical(n, K);
    AllInPhysical(n.WithSize(size), K);
  }

  lemma InsertAtKnown(n: Node, pos: nat, s: Slot, K: set<int>)
    requires pos <= |n.slots| && n.spare != [] && KeysIn(n, K) && s.key in K
    ensures KeysIn(InsertAt(n, pos, s), K)
  {
  }

  lemma InsertKnown(n: Node, key: int, rid: Rid, K: set<int>)
    requires n.spare != [] && KeysIn(n, K) && key in K
    ensures KeysIn(Insert(n, key, rid), K)
  {
  }

  lemma EraseAtKnown(n: Node, pos: nat, K: set<int>)
    requires pos < |n.slots| && KeysIn(n, K)
    ensures KeysIn(EraseAt(n, pos), K)
  {
  }

  lemma SetKeyKnown(n: Node, i: nat, key: int, K: set<int>)
    requires i < |n.slots| && KeysIn(n, K) && key in K
    ensures KeysIn(SetKey(n, i, key), K)
  {
  }

  lemma JoinedKnown(n: Node, m: Node, K: set<int>)
    requires |m.slots| <= |n.spare| && KeysIn(n, K) && KeysIn(m, K)
    ensures KeysIn(Joined(n, m), K)
  {
  }

  lemma {:induction false} FilterKnown(pairs: seq<Slot>, same: seq<int> -> bool, K: set<int>)
    requires AllIn(pairs, K)
    ensures AllIn(Filter(pairs, same), K)
  {
    if |pairs| > 1 {
      FilterKnown(pairs[..|pairs| - 1], same, K);
    }
  }

  // The page split off holds old keys and zeros.
  lemma HalfKnown(n: Node, blank: Node, left: nat, count: nat, same: seq<int> -> bool, K: set<int>)
    requires left + count <= |n.slots| + |n.spare| && blank.slots == [] && KeysIn(n, K) && KeysIn(blank, K)
    requires |Filter(n.Physical()[left..left + count], same)| <= |blank.spare|
    ensures KeysIn(InsertPairs(blank, 0, n.Physical()[left..left + count], same), K)
  {
    var block := n.Physical()[left..left + count];
    AllInPhysical(n, K);
    FilterKnown(block, same, K);
    AllInPhysical(InsertPairs(blank, 0, block, same), K);
  }

  lemma ZeroKnown(order: nat, K: set<int>)
    requires 0 in K
    ensures KeysIn(ZeroPage(order), K)
  {
  }

  // ---- the steps of the operations

  lemma KnownMore(P: Pages, K: Seen, M: Seen)
    requires Known(P, K) && K.all <= M.all && K.inner <= M.inner
    ensures Known(P, M)
  {
  }

  lemma KnownFrame(P: Pages, Q: Pages, K: Seen)
    requires Known(P, K)
    requires forall y :: y in Q ==> y in P && Q[y].slots == P[y].slots && Q[y].spare == P[y].spare && Q[y].isLeaf == P[y].isLeaf
    ensures Known(Q, K)
  {
  }

  // A separator becomes the first key of a page.
  lemma SetKeyKept(P: Pages, p: int, i: nat, key: int, K: Seen)
    requires Known(P, K) && p in P && i < |P[p].slots| && key in K.On(P[p].isLeaf)
    ensures Known(P[p := SetKey(P[p], i, key)], K)
  {
    assert KeysIn(P[p], K.On(P[p].isLeaf));
    SetKeyKnown(P[p], i, key, K.On(P[p].isLeaf));
  }

  lemma ErasedKnown(P: Pages, p: int, pos: nat, K: Seen)
    requires Known(P, K) && p in P && pos < |P[p].slots|
    ensures Known(P[p := EraseAt(P[p], pos)], K)
  {
    assert KeysIn(P[p], K.On(P[p].isLeaf));
    EraseAtKnown(P[p], pos, K.On(P[p].isLeaf));
  }

  // A slot goes into page p.
  lemma SlotKnown(P: Pages, p: int, pos: nat, s: Slot, K: Seen)
    requires Known(P, K) && p in P && pos <= |P[p].slots| && P[p].spare != [] && s.key in K.On(P[p].isLeaf)
    ensures Known(P[p := InsertAt(P[p], pos, s)], K)
  {
    assert KeysIn(P[p], K.On(P[p].isLeaf));
    InsertAtKnown(P[p], pos, s, K.On(P[p].isLeaf));
  }

  // Slot `at` of page b moves to place `pos` of page a.
  lemma ShiftKnown(P: Pages, a: int, b: int, pos: nat, at: nat, K: Seen)
    requires Known(P, K) && a in P && b in P && a != b && P[a].isLeaf == P[b].isLeaf
    requires pos <= |P[a].slots| && P[a].spare != [] && at < |P[b].slots|
    ensures Known(P[a := InsertAt(P[a], pos, P[b].slots[at])][b := EraseAt(P[b], at)], K)
  {
    assert KeysIn(P[a], K.On(P[a].isLeaf)) && KeysIn(P[b], K.On(P[b].isLeaf));
    InsertAtKnown(P[a], pos, P[b].slots[at], K.On(P[a].isLeaf));
    EraseAtKnown(P[b], at, K.On(P[b].isLeaf));
  }

  // Page b is emptied into page a, and their parent p loses a slot.
  lemma MergeKnown(P: Pages, C: Pages, Q: Pages, a: int, b: int, p: int, index: nat, K: Seen)
    requires Known(P, K) && a in P && b in P && p in P && a != b && a != p && b != p && |P[b].slots| <= |P[a].spare|
    requires P[a].isLeaf == P[b].isLeaf
    requires C.Keys == P.Keys && forall y :: y in P ==>
      var n := if y == a then Joined(P[a], P[b]) else P[y]; C[y].slots == n.slots && C[y].spare == n.spare && C[y].isLeaf == P[y].isLeaf
    requires index < |C[p].slots| && Q == C[b := C[b].WithSize(0)][p := EraseAt(C[p], index)]
    ensures Known(Q, K)
  {
    hide AllIn;
    assert KeysIn(P[a], K.On(P[a].isLeaf)) && KeysIn(P[b], K.On(P[b].isLeaf)) && KeysIn(P[p], K.On(P[p].isLeaf));
    JoinedKnown(P[a], P[b], K.On(P[a].isLeaf));
    WithSizeKnown(C[b], 0, K.On(P[b].isLeaf));
    EraseAtKnown(C[p], index, K.On(P[p].isLeaf));
  }

  // A page of zeros after two slots were inserted.
  lemma RootNode(order: nat, a: int, p: int, b: int, q: int, K: set<int>)
    requires a < b && order >= 3 && 0 in K && a in K && b in K
    ensures var n := Insert(ZeroPage(order).(parent := IX_NO_PAGE, isLeaf := false), a, Rid(p, IX_NO_PAGE));
      n.spare != [] && var m := Insert(n, b, Rid(q, IX_NO_PAGE));
      && m.slots == [Slot(a, Rid(p, IX_NO_PAGE)), Slot(b, Rid(q, IX_NO_PAGE))]
      && m.parent == IX_NO_PAGE && !m.isLeaf
      && |m.slots| + |m.spare| == order + 1 && (forall s :: s in m.spare ==> s == ZERO) && KeysIn(m, K)
  {
    var zeros := ZeroPage(order).(parent := IX_NO_PAGE, isLeaf := false);
    var n := Insert(zeros, a, Rid(p, IX_NO_PAGE));
    assert n.slots == [Slot(a, Rid(p, IX_NO_PAGE))] && n.spare == zeros.spare[1..];
    LowerBoundIs(n.slots, b, 1);
    var m := Insert(n, b, Rid(q, IX_NO_PAGE));
    assert m.slots == [Slot(a, Rid(p, IX_NO_PAGE)), Slot(b, Rid(q, IX_NO_PAGE))] && m.spare == zeros.spare[2..];
  }

  lemma FirstKnown(P: Pages, p: int, K: Seen)
    requires Known(P, K) && p in P && P[p].slots != []
    ensures P[p].slots[0].key in K.On(P[p].isLeaf)
  {
    assert KeysIn(P[p], K.On(P[p].isLeaf));
  }

  // The new root m on page r is in place, and both halves of the old one name it as their parent.
  lemma RootDone(P: Pages, Q: Pages, p: int, n: int, r: int, m: Node, order: nat, K: Seen)
    requires Known(P, K) && p in P && n in P && p != n && r !in P && r > IX_LEAF_HEADER_PAGE && KeysIn(m, K.inner)
    requires P[p].slots != [] && P[n].slots != [] && m.parent == IX_NO_PAGE && !m.isLeaf && |m.slots| + |m.spare| == order + 1
    requires m.slots == [Slot(P[p].slots[0].key, Rid(p, IX_NO_PAGE)), Slot(P[n].slots[0].key, Rid(n, IX_NO_PAGE))]
    requires Q == P[r := m][n := P[n].(parent := r)][p := P[p].(parent := r)]
    ensures RootAdded(P, Q, p, n, r, order) && Known(Q, K)
  {
  }

  // ---- quiet spare slots

  ghost function SpareOf(P: Pages, p: int): seq<Slot> {
    if p in P then P[p].spare else []
  }

  // `key` is not before the first key of the page behind page j.
  ghost predicate Beyond(P: Pages, level: seq<int>, j: nat, key: int) {
    && j + 1 < |level|
    && SlotsOf(P, level[j + 1]) != [] && SlotsOf(P, level[j + 1])[0].key <= key
  }

  ghost predicate QuietLevel(P: Pages, level: seq<int>, stale: set<Slot>) {
    forall j, s :: 0 <= j < |level| && s in SpareOf(P, level[j]) ==> s in stale || Beyond(P, level, j, s.key)
  }

  /** Slots for which this is not known, those of the leaves and those of the inner pages apart: only the latter can
      lead a search astray. */
  datatype Strays = Strays(leaf: set<Slot>, inner: set<Slot>)
  {
    function At(h: nat): set<Slot> {
      if h == 0 then leaf else inner
    }

    // The strays hold keys that may be there, and zeros are always among them.
    ghost predicate Within(K: Seen) {
      && ZERO in leaf && ZERO in inner
      && (forall s :: s in leaf ==> s.key in K.all) && (forall s :: s in inner ==> s.key in K.inner)
    }

    ghost predicate LessThan(more: Strays) {
      leaf <= more.leaf && inner <= more.inner
    }
  }

  lemma ZeroAt(stale: Strays, K: Seen, h: nat)
    requires stale.Within(K)
    ensures ZERO in stale.At(h)
  {
  }

  /** Every spare slot is a stray or lies beyond its page. */
  ghost predicate Quiet(P: Pages, lv: seq<seq<int>>, stale: Strays) {
    forall h :: 0 <= h < |lv| ==> QuietLevel(P, lv[h], stale.At(h))
  }

  ghost predicate SpareWithin(P: Pages, Q: Pages, p: int, stale: set<Slot>) {
    forall s :: s in SpareOf(Q, p) ==> s in SpareOf(P, p) || s in stale
  }

  // The first key of the page does not move up.
  ghost predicate NotLater(P: Pages, Q: Pages, p: int) {
    SlotsOf(P, p) != [] ==> SlotsOf(Q, p) != [] && SlotsOf(Q, p)[0].key <= SlotsOf(P, p)[0].key
  }

  lemma QuietFrame(P: Pages, Q: Pages, level: seq<int>, stale: set<Slot>, more: set<Slot>)
    requires QuietLevel(P, level, stale) && stale <= more
    requires forall k :: 0 <= k < |level| ==> SpareWithin(P, Q, level[k], more)
    requires forall k :: 1 <= k < |level| ==> NotLater(P, Q, level[k])
    ensures QuietLevel(Q, level, more)
  {
    forall j, s | 0 <= j < |level| && s in SpareOf(Q, level[j]) ensures s in more || Beyond(Q, level, j, s.key) {
      assert SpareWithin(P, Q, level[j], more);
      if j + 1 < |level| {
        assert NotLater(P, Q, level[j + 1]);
      }
    }
  }

  /** One page loses spare slots and keeps or lowers its first key. */
  lemma QuietUpdate(P: Pages, lv: seq<seq<int>>, p: int, n: Node, stale: Strays)
    requires Quiet(P, lv, stale) && p in P && forall s :: s in n.spare ==> s in P[p].spare
    requires P[p].slots != [] ==> n.slots != [] && n.slots[0].key <= P[p].slots[0].key
    ensures Quiet(P[p := n], lv, stale)
  {
    var Q := P[p := n];
    forall h | 0 <= h < |lv| ensures QuietLevel(Q, lv[h], stale.At(h)) {
      assert QuietLevel(P, lv[h], stale.At(h));
      QuietFrame(P, Q, lv[h], stale.At(h), stale.At(h));
    }
  }

  lemma QuietInsert(P: Pages, lv: seq<seq<int>>, p: int, key: int, rid: Rid, stale: Strays)
    requires Quiet(P, lv, stale) && p in P && P[p].spare != []
    ensures Quiet(P[p := Insert(P[p], key, rid)], lv, stale)
  {
    hide Quiet;
    QuietUpdate(P, lv, p, Insert(P[p], key, rid), stale);
  }

  /** A slot behind the first one leaves a leaf; what was the last slot is the only new stray. */
  lemma QuietErase(P: Pages, lv: seq<seq<int>>, p: int, pos: nat, stale: Strays)
    requires Quiet(P, lv, stale) && p in P && 0 < pos < |P[p].slots| && forall h :: 0 < h < |lv| ==> p !in lv[h]
    ensures Quiet(P[p := EraseAt(P[p], pos)], lv, stale.(leaf := stale.leaf + {P[p].slots[|P[p].slots| - 1]}))
  {
    var Q, last := P[p := EraseAt(P[p], pos)], {P[p].slots[|P[p].slots| - 1]};
    forall h | 0 <= h < |lv| ensures QuietLevel(Q, lv[h], if h == 0 then stale.leaf + last else stale.inner) {
      assert QuietLevel(P, lv[h], stale.At(h));
      QuietFrame(P, Q, lv[h], stale.At(h), if h == 0 then stale.leaf + last else stale.inner);
    }
  }

  /** The spare slots of all leaves, or of all inner pages. */
  ghost function Spares(P: Pages, leaf: bool): set<Slot> {
    set p, s | p in P && P[p].isLeaf == leaf && s in P[p].spare :: s
  }

  /** All spare slots: with these as the strays every tree is quiet. */
  ghost function AllSpares(P: Pages): Strays {
    Strays(Spares(P, true) + {ZERO}, Spares(P, false) + {ZERO})
  }

  lemma QuietSpares(P: Pages, lv: seq<seq<int>>, order: nat, K: Seen)
    requires Nodes(P, lv, order) && Known(P, K) && K.Valid()
    ensures Quiet(P, lv, AllSpares(P)) && AllSpares(P).Within(K)
  {
    forall h | 0 <= h < |lv| ensures QuietLevel(P, lv[h], AllSpares(P).At(h)) {
      forall j, s | 0 <= j < |lv[h]| && s in SpareOf(P, lv[h][j]) ensures s in AllSpares(P).At(h) {
        assert GoodPage(P, lv[h][j], h == 0, order);
      }
    }
  }

  /** Any slot leaves a leaf: on the inner pages there are no new strays. */
  lemma QuietEraseFirst(P: Pages, lv: seq<seq<int>>, order: nat, p: int, pos: nat, stale: Strays)
    requires Nodes(P, lv, order) && Quiet(P, lv, stale) && p in lv[0] && p in P && pos < |P[p].slots|
    ensures Quiet(P[p := EraseAt(P[p], pos)], lv, stale.(leaf := Spares(P[p := EraseAt(P[p], pos)], true) + {ZERO}))
  {
    var Q := P[p := EraseAt(P[p], pos)];
    var more := stale.(leaf := Spares(Q, true) + {ZERO});
    forall h | 0 <= h < |lv| ensures QuietLevel(Q, lv[h], more.At(h)) {
      forall k | 0 <= k < |lv[h]| ensures lv[h][k] in P && P[lv[h][k]].isLeaf == (h == 0) {
        assert GoodPage(P, lv[h][k], h == 0, order);
      }
      if h > 0 {
        assert QuietLevel(P, lv[h], stale.inner);
        QuietFrame(P, Q, lv[h], stale.inner, stale.inner);
      }
    }
  }

  // ---- a new index

  // The spare slots of a new index that may mislead a search: zeros, and on the leaves what the buffer held.
  ghost function NewStale(buffer: seq<Slot>): Strays {
    Strays({ZERO} + set s | s in buffer, {ZERO})
  }

  ghost function KeysOf(slots: set<Slot>): set<int> {
    set s | s in slots :: s.key
  }

  ghost function NewSeen(buffer: seq<Slot>): Seen {
    Seen(KeysOf(NewStale(buffer).leaf), {0})
  }

  lemma NewCalm(buffer: seq<Slot>)
    ensures Quiet(NewPages(buffer), [[IX_INIT_ROOT_PAGE]], NewStale(buffer))
    ensures Known(NewPages(buffer), NewSeen(buffer)) && NewSeen(buffer).Valid() && NewStale(buffer).Within(NewSeen(buffer))
  {
    assert ZERO in NewStale(buffer).leaf && ZERO.key == 0;
    assert forall i :: 0 <= i < |buffer| ==> buffer[i] in NewStale(buffer).leaf;
  }

  // ---- a page is split

  // Page p repeats the slots of n among its spare ones; those of n are old ones of p or zeros.
  ghost predicate SpareSplit(P: Pages, Q: Pages, p: int, n: int) {
    && (forall s :: s in SpareOf(Q, p) ==> s in SlotsOf(Q, n) || s in SpareOf(P, p))
    && (forall s :: s in SpareOf(Q, n) ==> s == ZERO || s in SpareOf(P, p))
  }

  /** What a split brings to the new page as its first m slots: the pairs of the block that go through the filter, then
      zeros. */
  ghost function Arriving(block: seq<Slot>, m: nat, same: seq<int> -> bool): (r: seq<Slot>)
    ensures |r| == m
  {
    (Filter(block, same) + Zeros(m))[..m]
  }

  /** The first m slots of the block arrive if none of their keys is reported to be that of its predecessor, and only
      then, unless one of them is a zero or repeated behind them. */
  lemma ArrivingExact(block: seq<Slot>, m: nat, same: seq<int> -> bool)
    requires m <= |block|
    ensures Clean(Keys(block[..m]), same) ==> Arriving(block, m, same) == block[..m]
    ensures Sorted(block[..m]) && ZERO !in block[..m] && (forall s :: s in block[m..] ==> s !in block[..m]) ==>
      (Clean(Keys(block[..m]), same) <==> Arriving(block, m, same) == block[..m])
  {
    FilterKeeps(block, same, m);
    var r := Arriving(block, m, same);
    if r == block[..m] && ZERO !in block[..m] {
      forall i | 0 <= i < m ensures block[i] in Filter(block, same) {
        assert r[i] == block[..m][i];
      }
    }
  }

  // The slots that a split copies: the live ones from `left` on, then spare ones.
  lemma BlockOf(n: Node, left: nat, count: nat)
    requires left <= |n.slots| && |n.slots| - left <= count && left + count <= |n.slots| + |n.spare|
    ensures var block, m := n.Physical()[left..left + count], |n.slots| - left;
            block[..m] == n.slots[left..] && block[m..] == n.spare[..count - m]
  {
  }

  // The slots of an empty page after a block was written to it.
  lemma BlankSlots(blank: Node, block: seq<Slot>, m: nat, same: seq<int> -> bool)
    requires blank.slots == [] && m <= |block| <= |blank.spare| && forall s :: s in blank.spare ==> s == ZERO
    ensures m <= |InsertPairs(blank, 0, block, same).slots| + |InsertPairs(blank, 0, block, same).spare|
    ensures InsertPairs(blank, 0, block, same).WithSize(m).slots == Arriving(block, m, same)
  {
    hide Filter;
    var k, r := Filter(block, same), InsertPairs(blank, 0, block, same);
    var rest := blank.spare[|k|..];
    assert r.Physical() == k + rest;
    forall i | 0 <= i < m ensures (k + rest)[i] == (k + Zeros(m))[i] {
      assert i >= |k| ==> (k + rest)[i] == rest[i - |k|] && rest[i - |k|] in blank.spare;
    }
    assert r.WithSize(m).slots == r.Physical()[..m];
  }

  lemma BlankSpare(blank: Node, block: seq<Slot>, m: nat, same: seq<int> -> bool)
    requires blank.slots == [] && m <= |block| <= |blank.spare| && forall s :: s in blank.spare ==> s == ZERO
    requires Clean(Keys(block[..m]), same)
    ensures m <= |InsertPairs(blank, 0, block, same).slots| + |InsertPairs(blank, 0, block, same).spare|
    ensures forall s :: s in InsertPairs(blank, 0, block, same).WithSize(m).spare ==> s in block[m..] || s == ZERO
  {
    hide Filter, Clean, InsertPairs;
    FilterPrefix(block, same, m);
    FilterAll(block[..m], same);
    var k, r := Filter(block, same), InsertPairs(blank, 0, block, same);
    var rest := blank.spare[|k|..];
    assert r.Physical() == k + rest;
    var spare := r.WithSize(m).spare;
    assert spare == r.Physical()[m..] == k[m..] + rest;
    forall s | s in spare ensures s in block[m..] || s == ZERO {
      assert s in k[m..] || s in rest;
      assert s in rest ==> s in blank.spare;
    }
  }

  /** The two halves of a split page: n keeps the slots up to number `left`, the empty page gets what arrives. */
  lemma Halves(n: Node, blank: Node, left: nat, count: nat, same: seq<int> -> bool, K: set<int>)
    requires left <= |n.slots| && KeysIn(n, K) && KeysIn(blank, K)
    requires blank.slots == [] && forall s :: s in blank.spare ==> s == ZERO
    requires |n.slots| - left <= count && left + count <= |n.slots| + |n.spare| && count <= |blank.spare|
    ensures n.WithSize(left).spare == n.slots[left..] + n.spare && KeysIn(n.WithSize(left), K)
    ensures |n.slots| - left <= |blank.spare|
    ensures var block, m := n.Physical()[left..left + count], |n.slots| - left;
      var right := InsertPairs(blank, 0, block, same).WithSize(m);
      && right.slots == Arriving(block, m, same) && |right.slots| + |right.spare| == |blank.spare| && KeysIn(right, K)
      && (Clean(Keys(n.slots[left..]), same) ==>
            right.slots == n.slots[left..] && forall s :: s in right.spare ==> s in n.spare || s == ZERO)
  {
    hide AllIn, KeysIn, Filter, InsertPairs, Arriving, Clean, Keys;
    var block, m := n.Physical()[left..left + count], |n.slots| - left;
    BlockOf(n, left, count);
    BlankSlots(blank, block, m, same);
    ArrivingExact(block, m, same);
    if Clean(Keys(n.slots[left..]), same) {
      BlankSpare(blank, block, m, same);
    }
    HalfKnown(n, blank, left, count, same, K);
    WithSizeKnown(n, left, K);
    WithSizeKnown(InsertPairs(blank, 0, block, same), m, K);
    assert n.WithSize(left).spare == n.Physical()[left..] == n.slots[left..] + n.spare;
  }

  lemma SplitFrame(P: Pages, B: Pages, Q: Pages, p: int, n: int, K: Seen)
    requires Known(B, K) && p in B && n in B && p in Q && n in Q
    requires forall y :: y in Q ==> y in B && Q[y].slots == B[y].slots && Q[y].spare == B[y].spare && Q[y].isLeaf == B[y].isLeaf
    ensures Known(Q, K) && (SpareSplit(P, B, p, n) ==> SpareSplit(P, Q, p, n))
  {
    KnownFrame(B, Q, K);
  }

  // The keys of a page are not after the first key of the next page.
  lemma NextPageLater(P: Pages, lv: seq<seq<int>>, h: nat, j: nat, i: nat, tight: bool)
    requires h < |lv| && j + 1 < |lv[h]| && Links(P, lv, -1, tight) && (|lv| == h + 1 ==> |lv[h]| == 1)
    requires i < |SlotsOf(P, lv[h][j])| && SlotsOf(P, lv[h][j + 1]) != []
    ensures SlotsOf(P, lv[h][j])[i].key <= SlotsOf(P, lv[h][j + 1])[0].key
  {
    if h == 0 {
      assert LinkAt(P, lv, 0, tight);
      var F := Flat(P, lv[1]);
      assert LeafBounded(P, F, lv[0], j, tight) && LeafBounded(P, F, lv[0], j + 1, tight);
    } else {
      LevelAscending(P, lv, h, -1, tight);
      FlatAt(P, lv[h], j, i);
      FlatAt(P, lv[h], j + 1, 0);
      OffStep(P, lv[h], j);
    }
  }

  // The level of the split page.
  lemma QuietSplitHere(P: Pages, Q: Pages, level: seq<int>, j: nat, n: int, stale: set<Slot>)
    requires QuietLevel(P, level, stale) && ZERO in stale && j < |level|
    requires forall k :: 0 <= k < |level| && k != j ==> SlotsOf(Q, level[k]) == SlotsOf(P, level[k]) && SpareOf(Q, level[k]) == SpareOf(P, level[k])
    requires SpareSplit(P, Q, level[j], n) && SlotsOf(Q, n) != [] && SlotsOf(Q, level[j]) != []
    requires SlotsOf(P, level[j]) == SlotsOf(Q, level[j]) + SlotsOf(Q, n)
    requires forall i :: 0 <= i < |SlotsOf(Q, n)| ==> SlotsOf(Q, n)[0].key <= SlotsOf(Q, n)[i].key
    requires j + 1 < |level| && SlotsOf(P, level[j + 1]) != [] ==> SlotsOf(Q, n)[0].key <= SlotsOf(P, level[j + 1])[0].key
    ensures QuietLevel(Q, InsertAfter(level, j, n), stale)
  {
    hide SlotsOf, SpareOf;
    var lw := InsertAfter(level, j, n);
    forall k, s | 0 <= k < |lw| && s in SpareOf(Q, lw[k]) ensures s in stale || Beyond(Q, lw, k, s.key) {
      var b := if k > j then k - 1 else k;
      if k == j {
        assert lw[k + 1] == n;
      } else if k == j + 1 {
        assert lw[k] == n && (k + 1 < |lw| ==> lw[k + 1] == level[j + 1]);
      } else {
        assert lw[k] == level[b] && (k + 1 < |lw| ==> lw[k + 1] == level[b + 1]);
        assert s in SpareOf(P, level[b]);
        if b + 1 == j {
          assert SlotsOf(P, level[j])[0] == SlotsOf(Q, level[j])[0];
        }
      }
    }
  }

  // A level that is not split.
  lemma QuietSplitElsewhere(P: Pages, Q: Pages, lv: seq<seq<int>>, order: nat, h: nat, j: nat, n: int, x: nat, stale: set<Slot>)
    requires Nodes(P, lv, order) && h < |lv| && j < |lv[h]| && x < |lv| && x != h
    requires SplitOf(P, Q, lv[h][j], n, order) && QuietLevel(P, lv[x], stale)
    ensures QuietLevel(Q, lv[x], stale)
  {
    forall k | 0 <= k < |lv[x]| ensures SpareWithin(P, Q, lv[x][k], stale) && NotLater(P, Q, lv[x][k]) {
      assert GoodPage(P, lv[x][k], x == 0, order);
    }
    QuietFrame(P, Q, lv[x], stale, stale);
  }

  lemma QuietSplitAt(P: Pages, Q: Pages, lv: seq<seq<int>>, root: int, order: nat, h: nat, j: nat, n: int, tight: bool, stale: set<Slot>)
    requires h < |lv| && j < |lv[h]| && TreeBut(P, lv, root, order, lv[h][j], tight) && SplitOf(P, Q, lv[h][j], n, order)
    requires SpareSplit(P, Q, lv[h][j], n) && Sorted(SlotsOf(Q, n)) && QuietLevel(P, lv[h], stale) && ZERO in stale
    ensures QuietLevel(Q, InsertAfter(lv[h], j, n), stale)
  {
    hide LeavesSorted, Chain, QuietLevel, SpareSplit;
    TopIsRoot(P, lv, root);
    forall k | 0 <= k < |lv[h]| && k != j
      ensures SlotsOf(Q, lv[h][k]) == SlotsOf(P, lv[h][k]) && SpareOf(Q, lv[h][k]) == SpareOf(P, lv[h][k])
    {
      assert GoodPage(P, lv[h][k], h == 0, order);
    }
    if j + 1 < |lv[h]| && SlotsOf(P, lv[h][j + 1]) != [] {
      var left := |SlotsOf(Q, lv[h][j])|;
      assert SlotsOf(P, lv[h][j])[left] == SlotsOf(Q, n)[0];
      NextPageLater(P, lv, h, j, left, tight);
    }
    QuietSplitHere(P, Q, lv[h], j, n, stale);
  }

  /** A split keeps the spare slots quiet. */
  lemma QuietSplit(P: Pages, Q: Pages, lv: seq<seq<int>>, root: int, order: nat, h: nat, j: nat, n: int, tight: bool, stale: Strays)
    requires h < |lv| && j < |lv[h]| && TreeBut(P, lv, root, order, lv[h][j], tight) && SplitOf(P, Q, lv[h][j], n, order)
    requires SpareSplit(P, Q, lv[h][j], n) && Sorted(SlotsOf(Q, n)) && Quiet(P, lv, stale) && ZERO in stale.At(h)
    ensures Quiet(Q, WithPage(lv, h, j, n), stale)
  {
    hide SplitOf, SpareSplit, QuietLevel, Nodes, LeavesSorted;
    var lw := WithPage(lv, h, j, n);
    forall x | 0 <= x < |lw| ensures QuietLevel(Q, lw[x], stale.At(x)) {
      assert QuietLevel(P, lv[x], stale.At(x));
      if x == h {
        QuietSplitAt(P, Q, lv, root, order, h, j, n, tight, stale.At(h));
      } else {
        QuietSplitElsewhere(P, Q, lv, order, h, j, n, x, stale.At(x));
      }
    }
  }

  // ---- the page split off gets its slot

  lemma QuietGiven(P: Pages, Q: Pages, lv: seq<seq<int>>, p: int, pos: nat, v: Slot, stale: Strays)
    requires Quiet(P, lv, stale) && p in P && 0 < pos <= |P[p].slots| && P[p].spare != []
    requires Q == P[p := InsertAt(P[p], pos, v)]
    ensures Quiet(Q, lv, stale)
  {
    hide Quiet;
    QuietUpdate(P, lv, p, InsertAt(P[p], pos, v), stale);
  }

  lemma QuietRoot(P: Pages, Q: Pages, lv: seq<seq<int>>, root: int, n: int, r: int, order: nat, stale: Strays)
    requires lv != [] && Nodes(P, lv, order) && RootAdded(P, Q, root, n, r, order)
    requires Quiet(P, lv, stale) && ZERO in stale.inner && forall s :: s in SpareOf(Q, r) ==> s == ZERO
    ensures Quiet(Q, lv + [[r]], stale)
  {
    var lw := lv + [[r]];
    forall x | 0 <= x < |lw| ensures QuietLevel(Q, lw[x], stale.At(x)) {
      if x < |lv| {
        assert lw[x] == lv[x] && QuietLevel(P, lv[x], stale.At(x));
        forall k | 0 <= k < |lv[x]| ensures SpareWithin(P, Q, lv[x][k], stale.At(x)) && NotLater(P, Q, lv[x][k]) {
          assert GoodPage(P, lv[x][k], x == 0, order);
        }
        QuietFrame(P, Q, lv[x], stale.At(x), stale.At(x));
      }
    }
  }

  // ---- the leaves after maintain_parent

  lemma SettledLeaves(P: Pages, Q: Pages, lv: seq<seq<int>>, j: nat)
    requires Settled(P, Q, lv, 0, j)
    ensures SameSlots(P, Q, lv[0]) && LeafSlots(Q, lv[0]) == LeafSlots(P, lv[0])
  {
    forall k | 0 <= k < |lv[0]| ensures SlotsOf(Q, lv[0][k]) == SlotsOf(P, lv[0][k]) {
      assert lv[0][k] in P ==> Q[lv[0][k]] == P[lv[0][k]];
    }
  }

  // ---- maintain_parent on the first leaf

  // A page behind the first of its level has a child behind the first as its first child.
  lemma FirstChild(P: Pages, up: seq<int>, lo: seq<int>, a: nat) returns (c: nat)
    requires Linked(Flat(P, up), lo) && 0 < a < |up| && (forall k :: 0 <= k < |up| ==> SlotsOf(P, up[k]) != [])
    ensures 0 < c < |lo| && SlotsOf(P, up[a])[0] == Flat(P, up)[c] && lo[c] == SlotsOf(P, up[a])[0].rid.pageNo
    ensures c == Offset(P, up, a)
  {
    ChildAt(P, up, lo, a, 0);
    OffMonotone(P, up, 0, a);
    c := Offset(P, up, a);
  }

  // The pages of a level but the first one keep their first key.
  ghost predicate FirstsSame(P: Pages, Q: Pages, level: seq<int>) {
    forall a :: 0 < a < |level| ==> NotLater(P, Q, level[a])
  }

  // One level up: the first keys are those of first children.
  lemma FirstsAbove(P: Pages, Q: Pages, up: seq<int>, lo: seq<int>, a: nat)
    requires Linked(Flat(P, up), lo) && Linked(Flat(Q, up), lo) && 0 < a < |up|
    requires forall k :: 0 <= k < |up| ==> SlotsOf(P, up[k]) != [] && SlotsOf(Q, up[k]) != []
    requires SlotsOf(P, up[a])[0].rid == SlotsOf(Q, up[a])[0].rid && forall b, c :: 0 <= b < c < |lo| ==> lo[b] != lo[c]
    requires forall c :: 0 < c < |lo| ==> Flat(Q, up)[c].key <= Flat(P, up)[c].key
    ensures SlotsOf(Q, up[a])[0].key <= SlotsOf(P, up[a])[0].key
  {
    var c := FirstChild(P, up, lo, a);
    var d := FirstChild(Q, up, lo, a);
    assert lo[c] == lo[d];
  }

  lemma SettledPage(P: Pages, Q: Pages, lv: seq<seq<int>>, order: nat, h: nat, k: nat)
    requires Nodes(P, lv, order) && Settled(P, Q, lv, 0, 0) && h < |lv| && k < |lv[h]|
    ensures lv[h][k] in P && lv[h][k] in Q && SameButKeys(P[lv[h][k]], Q[lv[h][k]])
    ensures h == 0 ==> Q[lv[h][k]] == P[lv[h][k]]
  {
    assert GoodPage(P, lv[h][k], h == 0, order);
  }

  /** Correcting the separators above the first leaf moves no first key up but that of the first page of each level. */
  lemma {:induction false} FirstsKept(P: Pages, Q: Pages, lv: seq<seq<int>>, order: nat, x: nat, tight: bool)
    requires Nodes(P, lv, order) && Links(P, lv, -1, tight) && Links(Q, lv, -1, true) && Settled(P, Q, lv, 0, 0)
    requires x < |lv|
    requires forall g, k :: 0 < g < |lv| && 0 <= k < |lv[g]| ==> SlotsOf(P, lv[g][k]) != []
    ensures FirstsSame(P, Q, lv[x])
    decreases x
  {
    hide Nodes, Settled, Flat;
    forall k | 0 <= k < |lv[x]|
      ensures lv[x][k] in P && lv[x][k] in Q && SameButKeys(P[lv[x][k]], Q[lv[x][k]])
      ensures x == 0 ==> Q[lv[x][k]] == P[lv[x][k]]
    {
      SettledPage(P, Q, lv, order, x, k);
    }
    if x > 0 {
      FirstsKept(P, Q, lv, order, x - 1, tight);
      SeparatorsKept(P, Q, lv, order, x, tight);
      LevelDistinct(P, lv, order, x - 1);
      forall a | 0 < a < |lv[x]| ensures NotLater(P, Q, lv[x][a]) {
        FirstsAbove(P, Q, lv[x], lv[x - 1], a);
      }
    }
  }

  lemma LevelDistinct(P: Pages, lv: seq<seq<int>>, order: nat, h: nat)
    requires Nodes(P, lv, order) && h < |lv|
    ensures forall b, c :: 0 <= b < c < |lv[h]| ==> lv[h][b] != lv[h][c]
  {
  }

  // The separators of level x - 1 but the first one.
  lemma SeparatorsKept(P: Pages, Q: Pages, lv: seq<seq<int>>, order: nat, x: nat, tight: bool)
    requires Links(P, lv, -1, tight) && Links(Q, lv, -1, true) && Settled(P, Q, lv, 0, 0)
    requires 0 < x < |lv| && FirstsSame(P, Q, lv[x - 1])
    ensures Linked(Flat(P, lv[x]), lv[x - 1]) && Linked(Flat(Q, lv[x]), lv[x - 1])
    ensures forall c :: 0 < c < |lv[x - 1]| ==> Flat(Q, lv[x])[c].key <= Flat(P, lv[x])[c].key
  {
    hide Flat;
    assert LinkAt(P, lv, x - 1, tight) && LinkAt(Q, lv, x - 1, true);
    if x > 1 {
      forall c | 0 < c < |lv[x - 1]| ensures Flat(Q, lv[x])[c].key <= Flat(P, lv[x])[c].key {
        assert NotLater(P, Q, lv[x - 1][c]);
      }
    }
  }

  lemma QuietSettled(P: Pages, Q: Pages, lv: seq<seq<int>>, root: int, order: nat, tight: bool, stale: Strays)
    requires TreeBut(P, lv, root, order, -1, tight) && Tree(Q, lv, root, order) && Settled(P, Q, lv, 0, 0)
    requires Quiet(P, lv, stale)
    ensures Quiet(Q, lv, stale)
  {
    hide Chain, LeavesSorted, Settled, QuietLevel, Links, Rooted;
    forall g, k | 0 < g < |lv| && 0 <= k < |lv[g]| ensures SlotsOf(P, lv[g][k]) != [] {
      assert GoodPage(P, lv[g][k], false, order);
      assert SizeOK(P[lv[g][k]], IsTop(lv, g), order);
    }
    forall h | 0 <= h < |lv| ensures QuietLevel(Q, lv[h], stale.At(h)) {
      assert QuietLevel(P, lv[h], stale.At(h));
      forall k | 0 <= k < |lv[h]| ensures SpareWithin(P, Q, lv[h][k], stale.At(h)) {
        SettledSpare(P, Q, lv, order, h, k);
      }
      FirstsKept(P, Q, lv, order, h, tight);
      QuietFrame(P, Q, lv[h], stale.At(h), stale.At(h));
    }
  }

  lemma SettledSpare(P: Pages, Q: Pages, lv: seq<seq<int>>, order: nat, h: nat, k: nat)
    requires Nodes(P, lv, order) && Settled(P, Q, lv, 0, 0) && h < |lv| && k < |lv[h]|
    ensures SpareOf(Q, lv[h][k]) == SpareOf(P, lv[h][k])
  {
    SettledPage(P, Q, lv, order, h, k);
  }
}
