/** A page of the index as it lies in memory: the header fields and the key and rid arrays, changed in place.
    Every operation is tied to its counterpart on `Node` values, in terms of which the tree is described. */
module IxNodeHandle {
  import opened Defs
  import opened IxNode

  class IxNodeHandle {
    var numKey: nat
    const keys: array<int>
    const rids: array<Rid>
    // the header fields that no operation here writes
    const parent: int
    const isLeaf: bool
    const prev: int
    const next: int
    // the comparison by which insert_pairs tells a repeated key
    const same: seq<int> -> bool

    /** A handle on the arrays of a page. */
    constructor (keys: array<int>, rids: array<Rid>, numKey: nat, parent: int, isLeaf: bool, prev: int, next: int,
        same: seq<int> -> bool)
      requires keys.Length == rids.Length && numKey <= keys.Length
      ensures Valid() && this.keys == keys && this.rids == rids && this.numKey == numKey && this.same == same
      ensures Value().parent == parent && Value().isLeaf == isLeaf && Value().prev == prev && Value().next == next
      ensures Value().Physical() == seq(keys.Length, i requires 0 <= i < keys.Length reads keys, rids => Slot(keys[i], rids[i]))
      ensures |Value().slots| == numKey
    {
      this.keys, this.rids, this.numKey := keys, rids, numKey;
      this.parent, this.isLeaf, this.prev, this.next, this.same := parent, isLeaf, prev, next, same;
    }

    ghost predicate Valid()
      reads this
    {
      keys.Length == rids.Length && numKey <= keys.Length
    }

    // The slots from `from` up to `to`.
    ghost function Slots(from: nat, to: nat): (s: seq<Slot>)
      requires Valid() && from <= to <= keys.Length
      reads this, keys, rids
      ensures |s| == to - from && forall i :: 0 <= i < |s| ==> s[i] == Slot(keys[from + i], rids[from + i])
    {
      seq(to - from, i requires 0 <= i < to - from reads this, keys, rids => Slot(keys[from + i], rids[from + i]))
    }

    /** The page as a value. */
    ghost function Value(): Node
      requires Valid()
      reads this, keys, rids
    {
      Node(parent, isLeaf, prev, next, Slots(0, numKey), Slots(numKey, keys.Length))
    }

    /** lower_bound. */
    method LowerBoundIdx(target: int) returns (idx: nat)
      requires Valid()
      ensures idx == LowerBound(Value().slots, target)
    {
      ghost var s := Value().slots;
      var found := -1;
      var i := 0;
      while i < numKey
        invariant 0 <= i <= numKey && found == -1
        invariant forall k :: 0 <= k < i ==> s[k].key < target
      {
        if keys[i] >= target {
          found := i;
          break;
        }
        i := i + 1;
      }
      if found == -1 {
        found := numKey;
      }
      idx := found;
      LowerBoundIs(s, target, idx);
    }

    /** upper_bound: the search begins at slot 1; on an empty page nothing is found. */
    method UpperBoundIdx(target: int) returns (idx: nat)
      requires Valid()
      ensures idx == UpperBound(Value().slots, target)
    {
      ghost var s := Value().slots;
      var found := -1;
      var i := 1;
      while i < numKey
        invariant 1 <= i && (i <= numKey || numKey == 0) && found == -1
        invariant forall k :: 1 <= k < i && k < numKey ==> s[k].key <= target
      {
        if keys[i] > target {
          found := i;
          break;
        }
        i := i + 1;
      }
      if found == -1 {
        found := numKey;
      }
      idx := found;
      UpperBoundIs(s, target, idx);
    }

    /** LeafLookup: the slot at the lower bound is compared, whether it is live or not. */
    method LookupLeaf(key: int) returns (found: bool, rid: Rid)
      requires Valid() && numKey < keys.Length
      ensures (found, rid) == LeafLookup(Value(), key)
    {
      var idx := LowerBoundIdx(key);
      found, rid := keys[idx] == key, rids[idx];
      PhysicalAt(idx);
    }

    /** InternalLookup. */
    method LookupInternal(key: int) returns (page: int)
      requires Valid() && 0 < numKey < keys.Length
      ensures page == InternalLookup(Value(), key)
    {
      var idx := LowerBoundIdx(key);
      PhysicalAt(idx);
      if keys[idx] == key {
        return rids[idx].pageNo;
      } else if idx == 0 {
        return rids[idx].pageNo;
      } else {
        PhysicalAt(idx - 1);
        return rids[idx - 1].pageNo;
      }
    }

    lemma PhysicalAt(i: nat)
      requires Valid() && i < keys.Length
      ensures i < |Value().Physical()| && Value().Physical()[i] == Slot(keys[i], rids[i])
    {
    }

    lemma SizesOf()
      requires Valid()
      ensures var v := Value();
              |v.slots| == numKey && |v.spare| == keys.Length - numKey && |v.Physical()| == keys.Length
              && v.parent == parent && v.isLeaf == isLeaf && v.prev == prev && v.next == next
      ensures forall i :: 0 <= i < keys.Length ==> Value().Physical()[i] == Slot(keys[i], rids[i])
    {
    }

    lemma Rebuilt(r: Node)
      requires Valid() && |r.slots| == numKey && |r.Physical()| == keys.Length
      requires forall i :: 0 <= i < keys.Length ==> r.Physical()[i] == Slot(keys[i], rids[i])
      requires r.parent == parent && r.isLeaf == isLeaf && r.prev == prev && r.next == next
      ensures Value() == r
    {
      PhysicalIs(r.Physical());
      SameParts(Value(), r);
    }

    lemma PhysicalIs(all: seq<Slot>)
      requires Valid() && |all| == keys.Length
      requires forall i :: 0 <= i < |all| ==> all[i] == Slot(keys[i], rids[i])
      ensures Value().Physical() == all
    {
      forall i | 0 <= i < |all| ensures Value().Physical()[i] == all[i] {
        PhysicalAt(i);
      }
    }

    // The loop of insert_pairs that copies the pairs but for those whose key seems to repeat the key before.
    method Deduplicate(pairs: seq<Slot>) returns (kept: seq<Slot>)
      requires pairs != []
      ensures kept == Filter(pairs, same)
    {
      kept := [pairs[0]];
      var i := 1;
      assert pairs[..1] == [pairs[0]];
      while i < |pairs|
        invariant 1 <= i <= |pairs|
        invariant kept == Filter(pairs[..i], same)
      {
        assert pairs[..i + 1][..i] == pairs[..i];
        if !same(Keys(pairs[..i + 1])) {
          kept := kept + [pairs[i]];
        }
        i := i + 1;
      }
      assert pairs[..i] == pairs;
    }

    /** insert_pairs: the live slots from `pos` on move up, the pairs that are left go in between. Pairs that reach
        beyond the page are refused; pairs that push live slots out of it are not allowed. */
    method InsertPairsAt(pos: nat, pairs: seq<Slot>)
      requires Valid() && pairs != [] && pos <= numKey
      requires pos + |Filter(pairs, same)| <= keys.Length ==> numKey + |Filter(pairs, same)| <= keys.Length
      modifies keys, rids
      ensures Value() == if pos + |Filter(pairs, same)| > keys.Length then old(Value())
                         else InsertPairs(old(Value()), pos, pairs, same)
    {
      hide InsertPairs, Value, Filter, Node.Physical;
      var kept := Deduplicate(pairs);
      var n := |kept|;
      if pos + n > keys.Length {
        return;
      }
      ghost var v := Value();
      SizesOf();
      ghost var all := v.Physical();
      MoveUp(pos, n);
      Put(pos, kept);
      ghost var r := InsertPairs(v, pos, pairs, same);
      forall i | 0 <= i < keys.Length ensures |r.Physical()| == keys.Length && r.Physical()[i] == Slot(keys[i], rids[i]) {
        PairsAt(v, pos, pairs, same, i);
        if pos + n <= i < numKey + n {
          assert all[i - n] == old(Slot(keys[i - n], rids[i - n]));
        } else {
          assert all[i] == old(Slot(keys[i], rids[i]));
        }
      }
      Rebuilt(r);
    }

    // The memmove of insert_pairs.
    method MoveUp(pos: nat, n: nat)
      requires Valid() && pos <= numKey && numKey + n <= keys.Length
      modifies keys, rids
      ensures forall i :: 0 <= i < keys.Length ==>
        Slot(keys[i], rids[i]) ==
          if pos + n <= i < numKey + n then old(Slot(keys[i - n], rids[i - n])) else old(Slot(keys[i], rids[i]))
    {
      forall i | pos + n <= i < numKey + n {
        keys[i] := keys[i - n];
      }
      forall i | pos + n <= i < numKey + n {
        rids[i] := rids[i - n];
      }
    }

    // The memcpy of insert_pairs.
    method Put(pos: nat, pairs: seq<Slot>)
      requires Valid() && pos + |pairs| <= keys.Length
      modifies keys, rids
      ensures forall i :: 0 <= i < keys.Length ==>
        Slot(keys[i], rids[i]) == if pos <= i < pos + |pairs| then pairs[i - pos] else old(Slot(keys[i], rids[i]))
    {
      forall i | pos <= i < pos + |pairs| {
        keys[i] := pairs[i - pos].key;
      }
      forall i | pos <= i < pos + |pairs| {
        rids[i] := pairs[i - pos].rid;
      }
    }

    /** insert_pair and the new size: one slot more. */
    method InsertOne(pos: nat, key: int, rid: Rid)
      requires Valid() && pos <= numKey < keys.Length
      modifies this`numKey, keys, rids
      ensures Valid() && Value() == InsertAt(old(Value()), pos, Slot(key, rid))
    {
      ghost var v := Value();
      InsertPairsOne(v, pos, Slot(key, rid), same);
      InsertPairsAt(pos, [Slot(key, rid)]);
      SetSize(numKey + 1);
    }

    method SetSize(size: nat)
      requires Valid() && size <= keys.Length
      modifies this`numKey
      ensures Valid() && Value() == old(Value()).WithSize(size)
    {
      ghost var r := Value().WithSize(size);
      SizesOf();
      numKey := size;
      Rebuilt(r);
    }

    /** Insert: the number of slots afterwards. */
    method InsertKey(key: int, value: Rid) returns (size: nat)
      requires Valid() && numKey < keys.Length
      modifies this`numKey, keys, rids
      ensures Valid() && Value() == Insert(old(Value()), key, value) && size == |Value().slots|
    {
      var pos := LowerBoundIdx(key);
      if pos == numKey {
        InsertOne(pos, key, value);
        return numKey;
      } else if keys[pos] == key {
        return numKey;
      } else {
        InsertOne(pos, key, value);
        return numKey;
      }
    }

    /** erase_pair: does nothing when there is no live slot at `pos`. */
    method ErasePair(pos: int)
      requires Valid()
      modifies this`numKey, keys, rids
      ensures Valid() && Value() == if 0 <= pos < |old(Value()).slots| then EraseAt(old(Value()), pos) else old(Value())
    {
      if pos < 0 || pos >= numKey {
        return;
      }
      ghost var v := Value();
      forall i | pos <= i < numKey - 1 {
        keys[i] := keys[i + 1];
      }
      forall i | pos <= i < numKey - 1 {
        rids[i] := rids[i + 1];
      }
      numKey := numKey - 1;
      assert Value().slots == EraseAt(v, pos).slots;
      assert Value().spare == EraseAt(v, pos).spare;
    }

    /** Remove: the number of slots afterwards. */
    method RemoveKey(key: int) returns (size: nat)
      requires Valid() && numKey < keys.Length
      modifies this`numKey, keys, rids
      ensures Valid() && Value() == Remove(old(Value()), key) && size == |Value().slots|
    {
      var pos := LowerBoundIdx(key);
      PhysicalAt(pos);
      size := numKey;
      if keys[pos] == key {
        ErasePair(pos);
        size := numKey;
      }
    }

    /** find_child: the first slot that points to the child. The assertion behind the loop is its precondition. */
    method FindChild(child: int) returns (idx: nat)
      requires Valid() && exists i :: 0 <= i < numKey && rids[i].pageNo == child
      ensures idx < |Value().slots| && Value().slots[idx].rid.pageNo == child
      ensures forall i :: 0 <= i < idx ==> Value().slots[i].rid.pageNo != child
    {
      idx := 0;
      while idx < numKey
        invariant idx <= numKey
        invariant forall i :: 0 <= i < idx ==> rids[i].pageNo != child
      {
        if rids[idx].pageNo == child {
          break;
        }
        idx := idx + 1;
      }
    }
  }

  // A page value is determined by its header, its physical slots and the number of live ones.
  lemma SameParts(a: Node, b: Node)
    requires a.Physical() == b.Physical() && |a.slots| == |b.slots|
    requires a.parent == b.parent && a.isLeaf == b.isLeaf && a.prev == b.prev && a.next == b.next
    ensures a == b
  {
    assert a.slots == a.Physical()[..|a.slots|] && a.spare == a.Physical()[|a.slots|..];
    assert b.slots == b.Physical()[..|b.slots|] && b.spare == b.Physical()[|b.slots|..];
  }

  // The physical slots after insert_pairs, one by one.
  lemma PairsAt(n: Node, pos: nat, pairs: seq<Slot>, same: seq<int> -> bool, i: nat)
    requires pos <= |n.slots| && |Filter(pairs, same)| <= |n.spare| && i < |n.slots| + |n.spare|
    ensures var k := |Filter(pairs, same)|;
            |InsertPairs(n, pos, pairs, same).Physical()| == |n.slots| + |n.spare|
            && InsertPairs(n, pos, pairs, same).Physical()[i] ==
              if pos <= i < pos + k then Filter(pairs, same)[i - pos]
              else if pos + k <= i < |n.slots| + k then n.Physical()[i - k]
              else n.Physical()[i]
  {
    hide Filter, Keys;
    var k, s, t := Filter(pairs, same), n.slots, n.spare;
    assert InsertPairs(n, pos, pairs, same).Physical() == (s[..pos] + k + s[pos..]) + t[|k|..];
    assert (s[..pos] + k + s[pos..])[..pos + |k|] == s[..pos] + k;
  }

  // ---- what the unguarded comparison with the spare slot leads to

  /** The greatest key of a leaf is still found after it has been removed. */
  lemma RemovedKeyStillFound(n: Node, key: int)
    requires Sorted(n.slots) && n.spare != [] && n.slots != [] && n.slots[|n.slots| - 1].key == key
    ensures forall i :: 0 <= i < |Remove(n, key).slots| ==> Remove(n, key).slots[i].key != key
    ensures LeafLookup(Remove(n, key), key) == (true, n.slots[|n.slots| - 1].rid)
  {
    SortedFind(n.slots, key, |n.slots| - 1);
    var r := EraseAt(n, |n.slots| - 1);
    LowerBoundIs(r.slots, key, |n.slots| - 1);
  }

  /** After the last child of an inner page was merged away, the lookup of its separator leads to that child. */
  lemma ReleasedChildStillChosen(n: Node)
    requires Sorted(n.slots) && |n.slots| >= 2
    ensures var last := n.slots[|n.slots| - 1];
            InternalLookup(EraseAt(n, |n.slots| - 1), last.key) == last.rid.pageNo
  {
    var r := EraseAt(n, |n.slots| - 1);
    LowerBoundIs(r.slots, n.slots[|n.slots| - 1].key, |n.slots| - 1);
  }
}
