/** One page of the B+ tree index as a value: header fields, the live slots and the slots behind them.

    A page stores `order + 1` key slots and `order + 1` rid slots side by side; a slot here is one
    (key, rid) pair. `slots` are the first num_key of them. `spare` are the remaining ones: the code
    never clears a slot, so they keep whatever was last written there, and two lookups read the first
    of them.

    Keys are integers: only the order that ix_compare gives matters, and every finite set of keys of any
    totally ordered type embeds in the integers.
  */
module IxNode {
  import opened Defs

  datatype Slot = Slot(key: int, rid: Rid)

  datatype Node = Node(
    parent: int,
    isLeaf: bool,
    prev: int,
    next: int,
    slots: seq<Slot>,
    spare: seq<Slot>)
  {
    // The slots as they lie in the page, live and spare.
    function Physical(): seq<Slot> {
      slots + spare
    }

    // SetSize: moves the border between the live and the spare slots, writing none of them.
    function WithSize(n: nat): (r: Node)
      requires n <= |slots| + |spare|
      ensures r.Physical() == Physical() && |r.slots| == n
      ensures r.parent == parent && r.isLeaf == isLeaf && r.prev == prev && r.next == next
    {
      var all := Physical();
      assert all == all[..n] + all[n..];
      this.(slots := all[..n], spare := all[n..])
    }
  }

  const IX_NO_PAGE: int := -1
  const IX_LEAF_HEADER_PAGE: int := 1
  const IX_INIT_ROOT_PAGE: int := 2

  // GetMaxSize and GetMinSize for a given btree_order.
  function MaxSize(order: nat): nat { order + 1 }

  function MinSize(order: nat): nat { MaxSize(order) / 2 }

  ghost predicate Sorted(s: seq<Slot>) {
    forall a, b :: 0 <= a < b < |s| ==> s[a].key < s[b].key
  }

  /** The index of the first live key >= target, or the number of live keys when there is none. */
  function LowerBound(s: seq<Slot>, target: int): (idx: nat)
    ensures idx <= |s|
    ensures forall i :: 0 <= i < idx ==> s[i].key < target
    ensures idx < |s| ==> s[idx].key >= target
  {
    if s == [] || s[0].key >= target then 0 else 1 + LowerBound(s[1..], target)
  }

  /** The index of the first key > target among the live keys from index 1 on: slot 0 is not looked at.
      The number of live keys when there is none. */
  function UpperBound(s: seq<Slot>, target: int): (idx: nat)
    ensures idx <= |s|
    ensures s != [] ==> 1 <= idx
    ensures forall i :: 1 <= i < idx ==> s[i].key <= target
    ensures idx < |s| ==> s[idx].key > target
  {
    if |s| <= 1 then |s| else UpperFrom(s, target, 1)
  }

  function UpperFrom(s: seq<Slot>, target: int, from: nat): (idx: nat)
    requires from <= |s|
    ensures from <= idx <= |s|
    ensures forall i :: from <= i < idx ==> s[i].key <= target
    ensures idx < |s| ==> s[idx].key > target
    decreases |s| - from
  {
    if from == |s| || s[from].key > target then from else UpperFrom(s, target, from + 1)
  }

  lemma {:induction false} LowerBoundIs(s: seq<Slot>, target: int, idx: nat)
    requires idx <= |s| && (forall i :: 0 <= i < idx ==> s[i].key < target)
    requires idx < |s| ==> s[idx].key >= target
    ensures idx == LowerBound(s, target)
  {
  }

  lemma {:induction false} UpperBoundIs(s: seq<Slot>, target: int, idx: nat)
    requires idx <= |s| && (s != [] ==> 1 <= idx) && (forall i :: 1 <= i < idx ==> s[i].key <= target)
    requires idx < |s| ==> s[idx].key > target
    ensures idx == UpperBound(s, target)
  {
  }

  /** The lookup of `target` runs past the live keys and the slot behind them happens to hold `target`. */
  predicate StaleHit(n: Node, target: int) {
    LowerBound(n.slots, target) == |n.slots| && n.spare != [] && n.spare[0].key == target
  }

  /** The lookup of `target` in an inner page leaves it for a page that is not its child. */
  predicate Misled(n: Node, target: int)
    requires n.slots != []
  {
    StaleHit(n, target) && n.spare[0].rid.pageNo != n.slots[|n.slots| - 1].rid.pageNo
  }

  /** The index of the child slot for `target`: the last key <= target, or the first slot. */
  function Pick(s: seq<Slot>, target: int): (i: nat)
    requires s != []
    ensures i < |s|
  {
    var idx := LowerBound(s, target);
    if idx < |s| && s[idx].key == target then idx else if idx == 0 then 0 else idx - 1
  }

  lemma PickRoutes(s: seq<Slot>, target: int)
    requires s != [] && Sorted(s)
    ensures Pick(s, target) == 0 || s[Pick(s, target)].key <= target
    ensures Pick(s, target) + 1 < |s| ==> target < s[Pick(s, target) + 1].key
  {
  }

  /** InternalLookup: the slot at the lower bound, live or spare, is compared with `target`. */
  function InternalLookup(n: Node, target: int): int
    requires n.spare != []
  {
    var all, idx := n.Physical(), LowerBound(n.slots, target);
    if all[idx].key == target then all[idx].rid.pageNo
    else if idx == 0 then all[0].rid.pageNo
    else all[idx - 1].rid.pageNo
  }

  /** InternalLookup takes the right child exactly when no spare slot interferes
      (or the spare slot names that very child). */
  lemma InternalLookupExact(n: Node, target: int)
    requires n.slots != [] && n.spare != []
    ensures InternalLookup(n, target) == n.slots[Pick(n.slots, target)].rid.pageNo
       <==> !Misled(n, target)
  {
  }

  /** LeafLookup: found, and the rid of the slot compared. */
  function LeafLookup(n: Node, target: int): (bool, Rid)
    requires n.spare != []
  {
    var s := n.Physical()[LowerBound(n.slots, target)];
    (s.key == target, s.rid)
  }

  /** LeafLookup reports a key exactly when a live slot holds it or the first spare slot happens to. */
  lemma LeafLookupExact(n: Node, target: int)
    requires n.spare != [] && Sorted(n.slots)
    ensures LeafLookup(n, target).0 <==> (exists i :: 0 <= i < |n.slots| && n.slots[i].key == target) || StaleHit(n, target)
    ensures forall i :: 0 <= i < |n.slots| && n.slots[i].key == target ==> LeafLookup(n, target).1 == n.slots[i].rid
  {
    forall i | 0 <= i < |n.slots| && n.slots[i].key == target ensures LowerBound(n.slots, target) == i {
      SortedFind(n.slots, target, i);
    }
  }

  /** Where a key sits in a sorted node: at its lower bound, if anywhere. */
  lemma SortedFind(s: seq<Slot>, target: int, i: nat)
    requires Sorted(s) && i < |s| && s[i].key == target
    ensures LowerBound(s, target) == i
  {
  }

  // ---- writing slots

  // The keys of some slots, one behind the other as a page stores them.
  function Keys(s: seq<Slot>): (k: seq<int>)
    ensures |k| == |s| && forall i :: 0 <= i < |s| ==> k[i] == s[i].key
  {
    seq(|s|, i requires 0 <= i < |s| => s[i].key)
  }

  /** The filter of insert_pairs: a pair is dropped if the comparison reports its key to be that of the pair before it.

      The comparison steps through the stored keys by bytes, not by keys: for pair i it compares what lies at the byte
      offsets i and i - 1, which is no pair of keys. `same` is its outcome for the last of the keys it is given; it looks
      no further than that key. */
  function Filter(pairs: seq<Slot>, same: seq<int> -> bool): (r: seq<Slot>)
    ensures |r| <= |pairs|
    ensures pairs != [] ==> r != [] && r[0] == pairs[0]
  {
    if |pairs| <= 1 then pairs
    else
      var last := |pairs| - 1;
      Filter(pairs[..last], same) + (if same(Keys(pairs)) then [] else [pairs[last]])
  }

  /** No key but the first is reported to be that of its predecessor. */
  predicate Clean(keys: seq<int>, same: seq<int> -> bool) {
    forall i :: 2 <= i <= |keys| ==> !same(keys[..i])
  }

  /** All pairs go through the filter exactly if none of their keys is reported to be that of its predecessor. */
  lemma {:induction false} FilterAll(pairs: seq<Slot>, same: seq<int> -> bool)
    ensures Filter(pairs, same) == pairs <==> Clean(Keys(pairs), same)
    ensures |Filter(pairs, same)| == |pairs| <==> Clean(Keys(pairs), same)
  {
    var keys := Keys(pairs);
    if |pairs| > 1 {
      var last := |pairs| - 1;
      FilterAll(pairs[..last], same);
      assert Keys(pairs[..last]) == keys[..last];
      assert pairs == pairs[..last] + [pairs[last]];
      assert forall i :: 0 <= i <= last ==> keys[..last][..i] == keys[..i];
      assert keys[..last + 1] == keys;
    }
  }

  /** What the filter makes of a beginning is the beginning of what it makes of the whole. */
  lemma {:induction false} FilterPrefix(pairs: seq<Slot>, same: seq<int> -> bool, m: nat)
    requires m <= |pairs|
    ensures |Filter(pairs[..m], same)| <= |Filter(pairs, same)|
    ensures Filter(pairs, same)[..|Filter(pairs[..m], same)|] == Filter(pairs[..m], same)
    ensures forall s :: s in Filter(pairs, same)[|Filter(pairs[..m], same)|..] ==> s in pairs[m..]
  {
    if m == |pairs| {
      assert pairs[..m] == pairs;
    } else if |pairs| > 1 {
      var last := |pairs| - 1;
      var init, k := pairs[..last], |Filter(pairs[..m], same)|;
      assert init[..m] == pairs[..m];
      FilterPrefix(init, same, m);
      forall s | s in Filter(pairs, same)[k..] ensures s in pairs[m..] {
        assert s in Filter(init, same)[k..] || s == pairs[m..][last - m];
        assert forall t :: t in init[m..] ==> t in pairs[m..];
      }
    }
  }

  /** The first m pairs of a block go through the filter if none of their keys is reported to be that of its
      predecessor, and only then, unless one of them is repeated behind them. */
  lemma FilterKeeps(pairs: seq<Slot>, same: seq<int> -> bool, m: nat)
    requires m <= |pairs|
    ensures Clean(Keys(pairs[..m]), same) ==> m <= |Filter(pairs, same)| && Filter(pairs, same)[..m] == pairs[..m]
    ensures Sorted(pairs[..m]) && (forall s :: s in pairs[m..] ==> s !in pairs[..m]) ==>
      (Clean(Keys(pairs[..m]), same) <==> forall i :: 0 <= i < m ==> pairs[i] in Filter(pairs, same))
  {
    FilterPrefix(pairs, same, m);
    FilterAll(pairs[..m], same);
    var F, k := Filter(pairs, same), |Filter(pairs[..m], same)|;
    assert F == F[..k] + F[k..];
    if Clean(Keys(pairs[..m]), same) {
      assert forall i :: 0 <= i < m ==> pairs[i] == F[i];
    } else if Sorted(pairs[..m]) {
      var i := FilterLoses(pairs[..m], same);
      assert pairs[i] == pairs[..m][i];
    }
  }

  // A pair that is dropped, if there is one.
  lemma {:induction false} FilterLoses(pairs: seq<Slot>, same: seq<int> -> bool) returns (i: nat)
    requires Sorted(pairs) && !Clean(Keys(pairs), same)
    ensures i < |pairs| && pairs[i] !in Filter(pairs, same)
  {
    FilterAll(pairs, same);
    var last := |pairs| - 1;
    var init := pairs[..last];
    FilterPrefix(pairs, same, last);
    FilterWithin(init, same);
    if same(Keys(pairs)) {
      i := last;
    } else {
      FilterAll(init, same);
      assert pairs == init + [pairs[last]];
      i := FilterLoses(init, same);
    }
  }

  // The filter adds nothing.
  lemma FilterWithin(pairs: seq<Slot>, same: seq<int> -> bool)
    ensures forall s :: s in Filter(pairs, same) ==> s in pairs
  {
    FilterPrefix(pairs, same, 0);
    assert pairs[..0] == [] && Filter(pairs, same)[0..] == Filter(pairs, same) && pairs[0..] == pairs;
  }

  /** insert_pairs: the filtered pairs are written at `pos`, the live slots from there on move up.
      num_key stays. */
  function InsertPairs(n: Node, pos: nat, pairs: seq<Slot>, same: seq<int> -> bool): (r: Node)
    requires pos <= |n.slots| && |Filter(pairs, same)| <= |n.spare|
    ensures |r.slots| == |n.slots| && |r.spare| == |n.spare|
    ensures r.parent == n.parent && r.isLeaf == n.isLeaf && r.prev == n.prev && r.next == n.next
    ensures r.Physical() ==
      n.slots[..pos] + Filter(pairs, same) + n.slots[pos..] + n.spare[|Filter(pairs, same)|..]
  {
    var k := Filter(pairs, same);
    var all := n.slots[..pos] + k + n.slots[pos..] + n.spare[|k|..];
    assert all == all[..|n.slots|] + all[|n.slots|..];
    n.(slots := all[..|n.slots|], spare := all[|n.slots|..])
  }

  /** insert_pair and num_key++: the slots from `pos` on move up by one, the last one over the first spare slot. */
  function InsertAt(n: Node, pos: nat, s: Slot): Node
    requires pos <= |n.slots| && n.spare != []
  {
    n.(slots := n.slots[..pos] + [s] + n.slots[pos..], spare := n.spare[1..])
  }

  lemma InsertPairsOne(n: Node, pos: nat, s: Slot, same: seq<int> -> bool)
    requires pos <= |n.slots| && n.spare != []
    ensures InsertPairs(n, pos, [s], same).WithSize(|n.slots| + 1) == InsertAt(n, pos, s)
  {
    assert Filter([s], same) == [s];
    var r := InsertPairs(n, pos, [s], same);
    var t := InsertAt(n, pos, s);
    assert r.Physical() == t.slots + t.spare;
    assert r.WithSize(|n.slots| + 1).slots == t.slots;
    assert r.WithSize(|n.slots| + 1).spare == t.spare;
  }

  /** erase_pair: the slots behind `pos` move down by one; the last live slot stays behind as a spare one. */
  function EraseAt(n: Node, pos: nat): Node
    requires pos < |n.slots|
  {
    n.(slots := n.slots[..pos] + n.slots[pos + 1..], spare := [n.slots[|n.slots| - 1]] + n.spare)
  }

  /** Insert: at the lower bound, unless the key is there already. */
  function Insert(n: Node, key: int, rid: Rid): Node
    requires n.spare != []
  {
    var pos := LowerBound(n.slots, key);
    if pos < |n.slots| && n.slots[pos].key == key then n else InsertAt(n, pos, Slot(key, rid))
  }

  /** Remove: the slot at the lower bound, live or spare, is compared with the key; erase_pair ignores a spare one. */
  function Remove(n: Node, key: int): Node
    requires n.spare != []
  {
    var pos := LowerBound(n.slots, key);
    if n.Physical()[pos].key == key && pos < |n.slots| then EraseAt(n, pos) else n
  }

  /** Remove takes out the pair with the key, if there is one; a stale key behind the live ones does no harm. */
  lemma RemoveExact(n: Node, key: int)
    requires n.spare != [] && Sorted(n.slots)
    ensures if exists i :: 0 <= i < |n.slots| && n.slots[i].key == key
            then LowerBound(n.slots, key) < |n.slots| && n.slots[LowerBound(n.slots, key)].key == key
                 && Remove(n, key) == EraseAt(n, LowerBound(n.slots, key))
            else Remove(n, key) == n
  {
    if i :| 0 <= i < |n.slots| && n.slots[i].key == key {
      SortedFind(n.slots, key, i);
    }
  }
}
