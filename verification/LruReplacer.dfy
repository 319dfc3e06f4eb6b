/** The least-recently-used replacer: a list of the evictable frames and a hash from a frame to its list node. */
module LruReplacer {

  datatype Op = Victim | Pin(frame: int) | Unpin(frame: int)

  // ---- the replacer as a sequence of frames

  ghost predicate NoDuplicates(s: seq<int>) {
    forall i, j :: 0 <= i < j < |s| ==> s[i] != s[j]
  }

  function Drop(s: seq<int>, f: int): (r: seq<int>)
    ensures |r| <= |s|
  {
    if s == [] then [] else if s[0] == f then s[1..] else [s[0]] + Drop(s[1..], f)
  }

  function Step(s: seq<int>, op: Op): seq<int> {
    match op
    case Victim => if s == [] then [] else s[1..]
    case Pin(f) => Drop(s, f)
    case Unpin(f) => if f in s then s else s + [f]
  }

  function Run(ops: seq<Op>): seq<int> {
    if ops == [] then [] else Step(Run(ops[..|ops| - 1]), ops[|ops| - 1])
  }

  lemma {:induction false} DropAbsent(s: seq<int>, f: int)
    requires f !in s
    ensures Drop(s, f) == s
  {
    if s != [] {
      DropAbsent(s[1..], f);
    }
  }

  lemma {:induction false} DropAt(s: seq<int>, i: nat)
    requires NoDuplicates(s) && i < |s|
    ensures Drop(s, s[i]) == s[..i] + s[i + 1..]
  {
    if i > 0 {
      DropAt(s[1..], i - 1);
      assert s[1..][i - 1] == s[i];
      assert s[..i] == [s[0]] + s[1..][..i - 1];
      assert s[1..][i..] == s[i + 1..];
    }
  }

  // The place in s of the frame at place k of s without its frame i.
  function Place(i: nat, k: nat): nat {
    if k < i then k else k + 1
  }

  lemma {:induction false} DropHas(s: seq<int>, f: int, x: int)
    requires NoDuplicates(s)
    ensures x in Drop(s, f) <==> x in s && x != f
  {
    if s != [] && s[0] != f {
      DropHas(s[1..], f, x);
    }
  }

  lemma {:induction false} DropDistinct(s: seq<int>, f: int)
    requires NoDuplicates(s)
    ensures NoDuplicates(Drop(s, f))
  {
    if s != [] && s[0] != f {
      DropDistinct(s[1..], f);
      DropHas(s[1..], f, s[0]);
    }
  }

  lemma DropKeeps(s: seq<int>, f: int)
    requires NoDuplicates(s)
    ensures forall x :: x in Drop(s, f) <==> x in s && x != f
    ensures NoDuplicates(Drop(s, f))
  {
    forall x ensures x in Drop(s, f) <==> x in s && x != f {
      DropHas(s, f, x);
    }
    DropDistinct(s, f);
  }

  // Dropping keeps the order of the others.
  lemma DropOrder(s: seq<int>, f: int, i: nat, j: nat) returns (i': nat, j': nat)
    requires NoDuplicates(s) && i < j < |Drop(s, f)|
    ensures i' < j' < |s| && Drop(s, f)[i] == s[i'] && Drop(s, f)[j] == s[j']
  {
    i', j' := i, j;
    if f in s {
      var m :| 0 <= m < |s| && s[m] == f;
      DropAt(s, m);
      i', j' := Place(m, i), Place(m, j);
    } else {
      DropAbsent(s, f);
    }
  }

  /** When the current stretch of being evictable began, as the number of the operation, or -1. */
  function Since(ops: seq<Op>, f: int): (t: int)
    ensures -1 <= t < |ops|
  {
    if ops == [] then -1
    else
      var before, op := ops[..|ops| - 1], ops[|ops| - 1];
      var t := Since(before, f);
      match op
      case Unpin(g) => if g == f && t == -1 then |before| else t
      case Pin(g) => if g == f then -1 else t
      case Victim => if Run(before) != [] && Run(before)[0] == f then -1 else t
  }

  // The list holds the evictable frames in the order in which they became evictable.
  ghost predicate Ordered(ops: seq<Op>) {
    var s := Run(ops);
    && NoDuplicates(s)
    && (forall f :: f in s <==> Since(ops, f) >= 0)
    && (forall i, j :: 0 <= i < j < |s| ==> Since(ops, s[i]) < Since(ops, s[j]))
  }

  lemma OldestVictim(before: seq<Op>)
    requires Ordered(before)
    ensures Ordered(before + [Victim])
  {
    var ops, s := before + [Victim], Run(before);
    assert ops[..|ops| - 1] == before;
    var r := Run(ops);
    forall k | 0 <= k < |r| ensures r[k] == s[k + 1] && Since(ops, r[k]) == Since(before, r[k]) {
    }
    forall f ensures f in r <==> Since(ops, f) >= 0 {
      if f in s {
        var k :| 0 <= k < |s| && s[k] == f;
        assert k > 0 ==> r[k - 1] == f;
      }
    }
  }

  lemma OldestUnpin(before: seq<Op>, f: int)
    requires Ordered(before)
    ensures Ordered(before + [Unpin(f)])
  {
    var ops, s := before + [Unpin(f)], Run(before);
    assert ops[..|ops| - 1] == before;
    var r := Run(ops);
    assert r == if f in s then s else s + [f];
    forall x ensures x in r <==> Since(ops, x) >= 0 {
      assert x in r <==> x in s || x == f;
    }
    forall k | 0 <= k < |s| ensures r[k] == s[k] && s[k] in s && Since(ops, s[k]) == Since(before, s[k]) {
    }
  }

  lemma OldestPin(before: seq<Op>, f: int)
    requires Ordered(before)
    ensures Ordered(before + [Pin(f)])
  {
    var ops, s := before + [Pin(f)], Run(before);
    assert ops[..|ops| - 1] == before;
    var r := Run(ops);
    DropKeeps(s, f);
    forall x | x in r ensures Since(ops, x) == Since(before, x) {
    }
    forall i, j | 0 <= i < j < |r| ensures Since(ops, r[i]) < Since(ops, r[j]) {
      var i', j' := DropOrder(s, f, i, j);
      assert r[i] in r && r[j] in r;
    }
  }

  /** After every run the list holds the evictable frames, once each, in the order in which they became evictable.
      So the victim, which is the first one, has been evictable the longest. */
  lemma {:induction false} OldestFirst(ops: seq<Op>)
    ensures Ordered(ops)
  {
    if ops != [] {
      var before, op := ops[..|ops| - 1], ops[|ops| - 1];
      assert ops == before + [op];
      OldestFirst(before);
      match op
      case Victim => OldestVictim(before);
      case Unpin(f) => OldestUnpin(before, f);
      case Pin(f) => OldestPin(before, f);
    }
  }

  // ---- the replacer as it is stored

  // A node of the list; its id stands for its address, which an iterator holds.
  datatype ListNode = ListNode(id: nat, frame: int)

  /** List and hash describe the same frames, and each hash entry names the list node of its frame. */
  ghost predicate Indexed(list: seq<ListNode>, hash: map<int, nat>, nextId: nat) {
    && (forall i, j :: 0 <= i < j < |list| ==> list[i].id != list[j].id && list[i].frame != list[j].frame)
    && (forall i :: 0 <= i < |list| ==>
          list[i].id < nextId && list[i].frame in hash && hash[list[i].frame] == list[i].id)
    && (forall f :: f in hash ==> exists i :: 0 <= i < |list| && list[i].frame == f)
  }

  ghost function FramesOf(list: seq<ListNode>): (s: seq<int>)
    ensures |s| == |list| && forall i :: 0 <= i < |s| ==> s[i] == list[i].frame
  {
    seq(|list|, i requires 0 <= i < |list| => list[i].frame)
  }

  lemma HashIsList(list: seq<ListNode>, hash: map<int, nat>, nextId: nat, f: int)
    requires Indexed(list, hash, nextId)
    ensures NoDuplicates(FramesOf(list))
    ensures f in hash <==> f in FramesOf(list)
  {
    if f in hash {
      var i :| 0 <= i < |list| && list[i].frame == f;
      assert FramesOf(list)[i] == f;
    }
  }

  lemma IndexedAppend(list: seq<ListNode>, hash: map<int, nat>, nextId: nat, f: int)
    requires Indexed(list, hash, nextId) && f !in hash
    ensures Indexed(list + [ListNode(nextId, f)], hash[f := nextId], nextId + 1)
    ensures FramesOf(list + [ListNode(nextId, f)]) == FramesOf(list) + [f]
  {
    var l, h := list + [ListNode(nextId, f)], hash[f := nextId];
    forall g | g in h ensures exists k :: 0 <= k < |l| && l[k].frame == g {
      if g == f {
        assert l[|list|].frame == g;
      } else {
        var k :| 0 <= k < |list| && list[k].frame == g;
        assert l[k].frame == g;
      }
    }
  }

  // The list without its node i.
  function Erased(list: seq<ListNode>, i: nat): (l: seq<ListNode>)
    requires i < |list|
    ensures |l| == |list| - 1 && forall k :: 0 <= k < |l| ==> l[k] == list[Place(i, k)]
  {
    list[..i] + list[i + 1..]
  }

  lemma ErasedCovers(list: seq<ListNode>, i: nat, f: int)
    requires i < |list| && f != list[i].frame && exists k :: 0 <= k < |list| && list[k].frame == f
    ensures exists k :: 0 <= k < |list| - 1 && Erased(list, i)[k].frame == f
  {
    var k :| 0 <= k < |list| && list[k].frame == f;
    var k' := if k < i then k else k - 1;
    assert Erased(list, i)[k'].frame == f;
  }

  lemma ErasedFrames(list: seq<ListNode>, i: nat)
    requires i < |list| && NoDuplicates(FramesOf(list))
    ensures FramesOf(Erased(list, i)) == Drop(FramesOf(list), list[i].frame)
  {
    DropAt(FramesOf(list), i);
  }

  lemma IndexedErase(list: seq<ListNode>, hash: map<int, nat>, nextId: nat, i: nat)
    requires Indexed(list, hash, nextId) && i < |list|
    ensures Indexed(Erased(list, i), hash - {list[i].frame}, nextId)
    ensures FramesOf(Erased(list, i)) == Drop(FramesOf(list), list[i].frame)
  {
    hide Erased;
    var l, h := Erased(list, i), hash - {list[i].frame};
    forall g | g in h ensures exists k :: 0 <= k < |l| && l[k].frame == g {
      ErasedCovers(list, i, g);
    }
    forall k | 0 <= k < |l| ensures l[k].id < nextId && l[k].frame in h && h[l[k].frame] == l[k].id {
      assert l[k] == list[Place(i, k)];
    }
    ErasedFrames(list, i);
  }

  // Erasing the first node.
  lemma FirstFrame(list: seq<ListNode>, hash: map<int, nat>, nextId: nat)
    requires Indexed(list, hash, nextId) && list != []
    ensures Erased(list, 0) == list[1..] && FramesOf(list)[0] == list[0].frame && list[0].frame in hash
    ensures Drop(FramesOf(list), list[0].frame) == FramesOf(list)[1..]
  {
    DropAt(FramesOf(list), 0);
    assert Erased(list, 0) == list[1..];
  }

  class LRUReplacer {
    var LRUlist: seq<ListNode>
    var LRUhash: map<int, nat>
    var nextId: nat
    const maxSize: nat

    ghost predicate Valid()
      reads this
    {
      Indexed(LRUlist, LRUhash, nextId)
    }

    ghost function Frames(): seq<int>
      reads this
    {
      FramesOf(LRUlist)
    }

    constructor (numPages: nat)
      ensures Valid() && Frames() == [] && maxSize == numPages
    {
      LRUlist, LRUhash, nextId, maxSize := [], map[], 0, numPages;
    }

    function Size(): nat
      reads this
    {
      |LRUlist|
    }

    // list::erase on an iterator.
    method EraseNode(id: nat, ghost f: int) returns (ghost i: nat)
      requires Valid() && f in LRUhash && LRUhash[f] == id
      modifies this`LRUlist
      ensures i < |old(LRUlist)| && old(LRUlist)[i].frame == f
      ensures LRUlist == Erased(old(LRUlist), i)
    {
      var at := 0;
      while LRUlist[at].id != id
        invariant 0 <= at < |LRUlist| && forall k :: 0 <= k < at ==> LRUlist[k].id != id
        decreases |LRUlist| - at
      {
        at := at + 1;
      }
      i := at;
      LRUlist := LRUlist[..at] + LRUlist[at + 1..];
    }

    /** Victim: the first frame of the list, if there is one. */
    method Victim() returns (found: bool, frame: int)
      requires Valid() && Size() <= maxSize
      modifies this
      ensures Valid() && Frames() == Step(old(Frames()), Op.Victim)
      ensures found <==> old(Frames()) != []
      ensures found ==> frame == old(Frames())[0]
    {
      hide Indexed, FramesOf, Drop, Erased;
      if |LRUlist| == 0 {
        return false, -1;
      }
      FirstFrame(LRUlist, LRUhash, nextId);
      IndexedErase(LRUlist, LRUhash, nextId, 0);
      found, frame := true, LRUlist[0].frame;
      LRUlist := LRUlist[1..];
      LRUhash := LRUhash - {frame};
    }

    /** Pin: the frame is no longer evictable. */
    method Pin(frame: int)
      requires Valid() && Size() <= maxSize
      modifies this
      ensures Valid() && Frames() == Step(old(Frames()), Op.Pin(frame))
    {
      HashIsList(LRUlist, LRUhash, nextId, frame);
      if frame !in LRUhash {
        DropAbsent(Frames(), frame);
        return;
      }
      ghost var i := EraseNode(LRUhash[frame], frame);
      LRUhash := LRUhash - {frame};
      IndexedErase(old(LRUlist), old(LRUhash), nextId, i);
    }

    /** Unpin: the frame becomes evictable, at the end of the list, unless it is evictable already. */
    method Unpin(frame: int)
      requires Valid() && Size() <= maxSize
      modifies this
      ensures Valid() && Frames() == Step(old(Frames()), Op.Unpin(frame))
    {
      HashIsList(LRUlist, LRUhash, nextId, frame);
      if frame in LRUhash {
        return;
      }
      IndexedAppend(LRUlist, LRUhash, nextId, frame);
      LRUlist := LRUlist + [ListNode(nextId, frame)];
      LRUhash := LRUhash[frame := nextId];
      nextId := nextId + 1;
    }
  }
}
