/** Runs of the index from a new one on: what they answer, and the runs in which the search goes wrong. */
module IxRuns {
  import opened Defs
  import opened IxNode
  import opened IxLevels
  import opened IxTree
  import opened IxInsert
  import opened IxParent
  import opened IxContents
  import opened IxOps
  import opened IxSpare
  import opened IxRoute
  import opened IxBytes
  import opened IxClean
  import opened IxMend
  import opened IxSeparators
  import opened IxPositions
  import opened IxIndexHandle

  datatype Op = Put(key: int, rid: Rid) | Drop(key: int) | Get(key: int)

  datatype Answer = Refused | Stored | Dropped(ok: bool) | Got(value: Result)

  // ---- what a run means

  function Apply(m: map<int, Rid>, op: Op): map<int, Rid> {
    match op
    case Put(k, r) => if k in m then m else m[k := r]
    case Drop(k) => m - {k}
    case Get(_) => m
  }

  function Reply(m: map<int, Rid>, op: Op): Answer {
    match op
    case Put(_, _) => Stored
    case Drop(k) => Dropped(k in m)
    case Get(k) => Got(if k in m then Found(m[k]) else IndexEntryNotFound)
  }

  /** The map after the operations that were not refused. */
  function Played(ops: seq<Op>, answers: seq<Answer>): map<int, Rid>
    requires |ops| == |answers|
  {
    if ops == [] then map[]
    else
      var last := |ops| - 1;
      var m := Played(ops[..last], answers[..last]);
      if answers[last].Refused? then m else Apply(m, ops[last])
  }

  /** The keys that have been put in. */
  function PutKeys(ops: seq<Op>): set<int> {
    set i | 0 <= i < |ops| && ops[i].Put? :: ops[i].key
  }

  predicate NoDrop(ops: seq<Op>) {
    forall i :: 0 <= i < |ops| ==> !ops[i].Drop?
  }

  // ---- the states of a run

  datatype View = View(alive: bool, pages: Pages, lv: seq<seq<int>>, root: int, stale: Strays, seen: Seen)
  {
    ghost function Contents(): map<int, Rid> {
      ToMap(if lv == [] then [] else Flat(pages, lv[0]))
    }

    ghost predicate Clear(key: int) {
      lv != [] && ClearBelow(pages, root, |lv| - 1, key)
    }

    // The page where the key is looked up.
    ghost function Leaf(key: int): int {
      if lv == [] then root else LeafBelow(pages, root, |lv| - 1, key)
    }

    // Every split on the way up from the leaf of the key moves all the slots it should.
    ghost predicate Roomy(key: int, order: nat, same: seq<int> -> bool) {
      lv != [] && CleanUp(pages, root, order, same, Leaf(key), true, WithKey(SlotsOf(pages, Leaf(key)), key), |lv| - 1)
    }

    /** A spare slot of its leaf holds the key where it is looked up. */
    ghost predicate Hit(key: int) {
      Leaf(key) in pages && pages[Leaf(key)].spare != [] && StaleHit(pages[Leaf(key)], key)
    }

    /** What can be said of the ways down: only strays on inner pages close them, and only keys that were on inner pages;
        and no leaf reports a key that was never there. */
    ghost predicate Sane() {
      forall key ::
        && (key !in seen.inner || (forall s :: s in stale.inner ==> s.key != key) ==> Clear(key))
        && (key !in seen.all ==> !Hit(key))
    }
  }

  ghost function ViewOf(t: IxIndexHandle): View
    reads t
  {
    View(t.Valid(), t.pages, t.lv, t.rootPage, t.stale, t.seen)
  }

  ghost function NewView(buffer: seq<Slot>): View {
    View(true, NewPages(buffer), [[IX_INIT_ROOT_PAGE]], IX_INIT_ROOT_PAGE, NewStale(buffer), NewSeen(buffer))
  }

  /** The index is not gone, the way down is clear, and an insertion would lose nothing. */
  ghost predicate Ready(v: View, op: Op, order: nat, same: seq<int> -> bool) {
    v.alive && v.Clear(op.key) && (op.Put? ==> v.Roomy(op.key, order, same))
  }

  /** One operation of a run, from state v to state w: it is refused and changes nothing exactly if it is not ready. */
  ghost predicate Step(v: View, op: Op, answer: Answer, w: View, order: nat, same: seq<int> -> bool) {
    if !Ready(v, op, order, same) then answer == Refused && w == v
    else
      var m, k := v.Contents(), op.key;
      match op
      case Put(_, _) =>
        && answer == Stored && w.alive && w.Contents() == Apply(m, op) && w.stale == v.stale
        && w.seen.all == v.seen.all + {k} && w.seen.inner <= v.seen.inner + m.Keys + {k}
      case Drop(_) =>
        && answer == Dropped(k in m) && (k !in m ==> w == v)
        && (w.alive <==> m.Keys != {k}) && (w.alive ==> w.Contents() == Apply(m, op))
        && (w.alive ==> w.seen.all == v.seen.all && w.seen.inner <= v.seen.inner + m.Keys)
      case Get(_) =>
        && w == v
        && answer == Got(if k in m then Found(m[k])
                         else if v.Hit(k) then Found(v.pages[v.Leaf(k)].spare[0].rid)
                         else IndexEntryNotFound)
  }

  /** A run through these states gives these answers. */
  ghost predicate RunOf(trace: seq<View>, ops: seq<Op>, answers: seq<Answer>, order: nat, same: seq<int> -> bool, buffer: seq<Slot>) {
    && |trace| == |ops| + 1 && |answers| == |ops| && trace[0] == NewView(buffer)
    && (forall i :: 0 <= i < |ops| ==> Step(trace[i], ops[i], answers[i], trace[i + 1], order, same))
    && (forall i :: 0 <= i <= |ops| ==> trace[i].alive ==> trace[i].Sane())
  }

  // ---- runs are made

  lemma ViewSane(t: IxIndexHandle)
    requires t.Valid()
    ensures ViewOf(t).Sane()
  {
    hide IxIndexHandle.Sound, IxIndexHandle.Calm;
    forall key
      ensures key !in t.seen.inner || (forall s :: s in t.stale.inner ==> s.key != key) ==> ViewOf(t).Clear(key)
      ensures key !in t.seen.all ==> !ViewOf(t).Hit(key)
    {
      t.KeyClear(key);
    }
  }

  lemma RootBehindHeader(t: IxIndexHandle)
    requires t.Valid()
    ensures t.rootPage > IX_LEAF_HEADER_PAGE
  {
    RootIn(t.pages, t.lv, t.rootPage, t.order);
    TopIsRoot(t.pages, t.lv, t.rootPage);
    assert GoodPage(t.pages, t.lv[|t.lv| - 1][0], |t.lv| == 1, t.order);
  }

  lemma GoneIsNotValid(t: IxIndexHandle)
    requires t.Emptied()
    ensures !t.Valid()
  {
    hide IxIndexHandle.Valid;
    if t.Valid() {
      RootBehindHeader(t);
    }
  }

  method Do(t: IxIndexHandle, op: Op, alive: bool) returns (answer: Answer, left: bool)
    requires alive == t.Valid()
    modifies t
    ensures Step(old(ViewOf(t)), op, answer, ViewOf(t), t.order, t.same) && left == t.Valid()
  {
    hide IxIndexHandle.Valid, IxIndexHandle.ClearRoute, View.Contents, View.Clear, View.Leaf, View.Roomy, View.Hit;
    ViewIs(t, op.key);
    if !alive {
      return Refused, false;
    }
    var clear := t.RouteIsClear(op.key);
    if !clear {
      return Refused, true;
    }
    match op
    case Put(k, r) =>
      answer, left := DoPut(t, k, r);
    case Drop(k) =>
      answer, left := DoDrop(t, k);
    case Get(k) =>
      answer, left := DoGet(t, k);
  }

  // What a view shows of an index.
  lemma ViewIs(t: IxIndexHandle, key: int)
    ensures ViewOf(t).Contents() == t.Contents() && ViewOf(t).Leaf(key) == t.LeafOf(key)
    ensures ViewOf(t).Clear(key) <==> t.ClearRoute(key)
    ensures ViewOf(t).Roomy(key, t.order, t.same) <==> t.LosesNothing(key)
  {
  }

  // The keys of a leaf, and those after an insertion, are keys of the map or the new one.
  lemma PutGrows(t: IxIndexHandle, k: int, r: Rid)
    requires t.Valid()
    ensures t.LeafOf(k) in t.pages && t.pages[t.LeafOf(k)].spare != []
    ensures var s := Insert(t.pages[t.LeafOf(k)], k, r).slots; forall top :: IxIndexHandle.SplitKeys(s, t.order, top) <= t.Contents().Keys + {k}
  {
    hide TreeBut, Flat, Quiet, Known, LeafBelow;
    CoversTop(t.pages, t.lv, t.rootPage, t.order, k);
    var j := LeafCovers(t.pages, t.lv, t.rootPage, t.order, |t.lv| - 1, 0, k);
    LeafRoom(t.pages, t.lv, t.rootPage, t.order, j);
    var n := t.pages[t.LeafOf(k)];
    var s := Insert(n, k, r).slots;
    forall i | 0 <= i < |s| ensures s[i].key in t.Contents().Keys + {k} {
      var pos := LowerBound(n.slots, k);
      if s == n.slots {
        LeafHolds(t, j, i);
      } else if i != pos {
        LeafHolds(t, j, if i < pos then i else i - 1);
      }
    }
  }

  // The keys that a deletion leaves on inner pages are keys of the map.
  lemma DropGrows(t: IxIndexHandle, j: nat, how: Mend, before: int, inner: bool)
    requires t.Valid()
    ensures t.DropKeys(t.Leaves(), j, how, before, inner) <= t.Contents().Keys
  {
    hide TreeBut, Flat, Quiet, Known;
    forall i | 0 <= i < |t.Leaves()| && t.Leaves()[i] != [] ensures t.Leaves()[i][0].key in t.Contents().Keys {
      LeafHolds(t, i, 0);
    }
  }

  method DoPut(t: IxIndexHandle, k: int, r: Rid) returns (answer: Answer, left: bool)
    requires t.Valid() && t.ClearRoute(k)
    modifies t
    ensures Step(old(ViewOf(t)), Put(k, r), answer, ViewOf(t), t.order, t.same) && left == t.Valid()
  {
    hide IxIndexHandle.Valid, IxIndexHandle.Contents, IxIndexHandle.LeafOf, IxIndexHandle.ClearRoute, IxIndexHandle.LosesNothing;
    hide IxIndexHandle.Leaves, IxIndexHandle.SplitKeys, View.Contents, View.Clear, View.Leaf, View.Roomy, View.Hit, Insert, SplitInto;
    ViewIs(t, k);
    var clean := t.SplitsAreClean(k);
    if !clean {
      return Refused, true;
    }
    PutGrows(t, k, r);
    var ok;
    ghost var j;
    ok, j := t.InsertEntry(k, r);
    ViewIs(t, k);
    answer, left := Stored, true;
  }

  method DoDrop(t: IxIndexHandle, k: int) returns (answer: Answer, left: bool)
    requires t.Valid() && t.ClearRoute(k)
    modifies t
    ensures Step(old(ViewOf(t)), Drop(k), answer, ViewOf(t), t.order, t.same) && left == t.Valid()
  {
    hide IxIndexHandle.Valid, IxIndexHandle.Contents, IxIndexHandle.LeafOf, IxIndexHandle.ClearRoute, IxIndexHandle.LosesNothing;
    hide IxIndexHandle.Leaves, IxIndexHandle.DropKeys, View.Contents, View.Clear, View.Leaf, View.Roomy, View.Hit;
    hide FitsSizes, Mended, Mendable, LastChildGoes, LastChildGone, EraseAt, LowerBound, IsTop;
    ViewIs(t, k);
    ghost var P, leaf := t.pages, t.LeafOf(k);
    var ok;
    ghost var j, how;
    ok, j, how := t.DeleteEntry(k);
    ViewIs(t, k);
    answer := Dropped(ok);
    left := t.rootPage != IX_NO_PAGE;
    if old(t.Contents()).Keys == {k} {
      GoneIsNotValid(t);
    } else {
      RootBehindHeader(t);
      if ok {
        DropGrows(t, j, how, t.firstByte(P[leaf].slots[0].key), old(|t.lv|) > 1);
      }
    }
  }

  method DoGet(t: IxIndexHandle, k: int) returns (answer: Answer, left: bool)
    requires t.Valid() && t.ClearRoute(k)
    ensures Step(ViewOf(t), Get(k), answer, ViewOf(t), t.order, t.same) && left == t.Valid()
  {
    hide IxIndexHandle.Valid, IxIndexHandle.Contents, IxIndexHandle.LeafOf, IxIndexHandle.ClearRoute, IxIndexHandle.LosesNothing;
    hide View.Contents, View.Clear, View.Leaf, View.Roomy, StaleHit;
    ViewIs(t, k);
    PutGrows(t, k, Rid(0, 0));
    var found, rid := t.GetValue(k);
    answer, left := Got(if found then Found(rid) else IndexEntryNotFound), true;
  }

  lemma RunExtend(trace: seq<View>, ops: seq<Op>, answers: seq<Answer>, op: Op, a: Answer, w: View, order: nat, same: seq<int> -> bool, buffer: seq<Slot>)
    requires RunOf(trace, ops, answers, order, same, buffer)
    requires Step(trace[|ops|], op, a, w, order, same) && (w.alive ==> w.Sane())
    ensures RunOf(trace + [w], ops + [op], answers + [a], order, same, buffer)
  {
    hide Step, View.Sane, NewView;
    var T, O, A := trace + [w], ops + [op], answers + [a];
    forall i | 0 <= i < |O| ensures Step(T[i], O[i], A[i], T[i + 1], order, same) {
      if i < |ops| {
        assert Step(trace[i], ops[i], answers[i], trace[i + 1], order, same);
      }
    }
  }

  /** Every run from a new index: each operation whose way is clear is performed, after any number of deletions, and
      answered as `Step` says. */
  method Run(order: nat, firstByte: int -> int, same: seq<int> -> bool, buffer: seq<Slot>, ops: seq<Op>)
    returns (t: IxIndexHandle, answers: seq<Answer>, ghost trace: seq<View>)
    requires order >= 3 && |buffer| == order + 1
    ensures fresh(t) && t.order == order && t.same == same
    ensures RunOf(trace, ops, answers, order, same, buffer) && trace[|ops|] == ViewOf(t)
  {
    hide *;
    t := new IxIndexHandle(order, firstByte, same, buffer);
    answers, trace := [], [ViewOf(t)];
    NewIsNew(t, buffer);
    ViewSane(t);
    RunBegins(trace[0], order, same, buffer);
    var alive, i := true, 0;
    assert ops[..0] == [];
    while i < |ops|
      invariant i == |answers| <= |ops| && fresh(t) && t.order == order && t.same == same && alive == t.Valid()
      invariant RunOf(trace, ops[..i], answers, order, same, buffer) && |trace| == i + 1 && trace[i] == ViewOf(t)
    {
      var a;
      a, alive := Do(t, ops[i], alive);
      if alive {
        ViewSane(t);
      }
      AliveIs(t);
      RunExtend(trace, ops[..i], answers, ops[i], a, ViewOf(t), order, same, buffer);
      assert ops[..i] + [ops[i]] == ops[..i + 1];
      answers, trace := answers + [a], trace + [ViewOf(t)];
      i := i + 1;
    }
    assert ops[..|ops|] == ops;
  }

  lemma AliveIs(t: IxIndexHandle)
    ensures ViewOf(t).alive <==> t.Valid()
  {
    hide IxIndexHandle.Valid;
  }

  lemma RunBegins(v: View, order: nat, same: seq<int> -> bool, buffer: seq<Slot>)
    requires v == NewView(buffer) && v.Sane()
    ensures RunOf([v], [], [], order, same, buffer)
  {
    hide View.Sane, NewView;
  }

  lemma NewIsNew(t: IxIndexHandle, buffer: seq<Slot>)
    requires t.Valid() && t.pages == NewPages(buffer) && t.lv == [[IX_INIT_ROOT_PAGE]] && t.stale == NewStale(buffer) && t.seen == NewSeen(buffer)
    ensures ViewOf(t) == NewView(buffer)
  {
    hide IxIndexHandle.Sound, IxIndexHandle.Calm, NewPages;
    RootOfNew(t);
  }

  lemma RootOfNew(t: IxIndexHandle)
    requires t.Valid() && t.lv == [[IX_INIT_ROOT_PAGE]]
    ensures t.rootPage == IX_INIT_ROOT_PAGE
  {
    TopIsRoot(t.pages, t.lv, t.rootPage);
  }

  // ---- what runs answer

  lemma PlayedStep(ops: seq<Op>, answers: seq<Answer>, i: nat)
    requires i < |ops| == |answers|
    ensures Played(ops[..i + 1], answers[..i + 1]) ==
      if answers[i].Refused? then Played(ops[..i], answers[..i]) else Apply(Played(ops[..i], answers[..i]), ops[i])
    ensures PutKeys(ops[..i + 1]) == PutKeys(ops[..i]) + if ops[i].Put? then {ops[i].key} else {}
  {
    var s, t := ops[..i], ops[..i + 1];
    assert t[..i] == s && t[i] == ops[i] && answers[..i + 1][..i] == answers[..i];
    forall k ensures k in PutKeys(t) <==> k in PutKeys(s) || (ops[i].Put? && k == ops[i].key) {
      if k in PutKeys(s) {
        var a :| 0 <= a < |s| && s[a].Put? && s[a].key == k;
        assert t[a] == s[a];
      }
      if ops[i].Put? {
        assert t[i].key == ops[i].key;
      }
      if k in PutKeys(t) {
        var a :| 0 <= a < |t| && t[a].Put? && t[a].key == k;
        assert a < i ==> s[a] == t[a];
      }
    }
  }

  // The state of a run after i operations.
  ghost predicate StateOf(v: View, ops: seq<Op>, answers: seq<Answer>, buffer: seq<Slot>)
    requires |ops| == |answers|
  {
    v.alive ==>
      && v.Contents() == Played(ops, answers) && v.Contents().Keys <= PutKeys(ops)
      && v.seen.all <= NewSeen(buffer).all + PutKeys(ops) && v.seen.inner <= {0} + PutKeys(ops)
      && (NoDrop(ops) ==> v.stale == NewStale(buffer))
  }

  /** In every state of a run the index holds the map of the operations performed, only keys that were put in and 0 have
      been on inner pages, and as long as nothing was deleted the only strays there are zeros. */
  lemma {:induction false} RunStates(trace: seq<View>, ops: seq<Op>, answers: seq<Answer>, order: nat, same: seq<int> -> bool, buffer: seq<Slot>, i: nat)
    requires RunOf(trace, ops, answers, order, same, buffer) && i <= |ops|
    ensures StateOf(trace[i], ops[..i], answers[..i], buffer)
    ensures NoDrop(ops[..i]) ==> trace[i].alive
  {
    hide View.Sane, Ready, Step, StateOf, NewView, Played, PutKeys, NoDrop;
    if i == 0 {
      NewState(buffer);
      assert ops[..0] == [] && answers[..0] == [];
    } else {
      RunStates(trace, ops, answers, order, same, buffer, i - 1);
      PlayedStep(ops, answers, i - 1);
      NoDropStep(ops, i - 1);
      assert Step(trace[i - 1], ops[i - 1], answers[i - 1], trace[i], order, same);
      StateStep(trace[i - 1], ops, answers, i - 1, trace[i], order, same, buffer);
    }
  }

  lemma NewState(buffer: seq<Slot>)
    ensures StateOf(NewView(buffer), [], [], buffer) && NewView(buffer).alive
  {
    FlatOne(NewPages(buffer), IX_INIT_ROOT_PAGE);
    EmptyMap([]);
  }

  lemma NoDropStep(ops: seq<Op>, i: nat)
    requires i < |ops|
    ensures NoDrop(ops[..i + 1]) ==> NoDrop(ops[..i]) && !ops[i].Drop?
  {
    if NoDrop(ops[..i + 1]) {
      assert ops[..i + 1][i] == ops[i];
      assert forall a :: 0 <= a < i ==> ops[..i][a] == ops[..i + 1][a];
    }
  }

  lemma StateStep(v: View, ops: seq<Op>, answers: seq<Answer>, i: nat, w: View, order: nat, same: seq<int> -> bool, buffer: seq<Slot>)
    requires i < |ops| == |answers| && Step(v, ops[i], answers[i], w, order, same)
    requires StateOf(v, ops[..i], answers[..i], buffer)
    ensures StateOf(w, ops[..i + 1], answers[..i + 1], buffer)
    ensures NoDrop(ops[..i + 1]) && v.alive ==> w.alive
  {
    hide View.Contents, View.Hit, View.Leaf, View.Clear, View.Roomy, PutKeys, Played, NoDrop, NewStale, NewSeen;
    PlayedStep(ops, answers, i);
    NoDropStep(ops, i);
  }

  /** Every operation of a run is answered as the map of the operations performed so far demands, unless it is refused; a
      lookup of a key that is not stored may report it only if it was there. */
  lemma RunAnswers(trace: seq<View>, ops: seq<Op>, answers: seq<Answer>, order: nat, same: seq<int> -> bool, buffer: seq<Slot>, i: nat)
    requires RunOf(trace, ops, answers, order, same, buffer) && i < |ops|
    ensures answers[i].Refused? <==> !Ready(trace[i], ops[i], order, same)
    ensures !answers[i].Refused? ==>
      answers[i] == Reply(Played(ops[..i], answers[..i]), ops[i])
      || (ops[i].Get? && ops[i].key !in Played(ops[..i], answers[..i]) && answers[i].Got? && trace[i].Hit(ops[i].key))
    ensures trace[i].alive && ops[i].key !in NewSeen(buffer).all + PutKeys(ops[..i]) ==> !trace[i].Hit(ops[i].key)
  {
    hide View.Hit, View.Clear, View.Leaf, View.Roomy, View.Contents, PutKeys, Played, NewSeen;
    RunStates(trace, ops, answers, order, same, buffer, i);
    assert Step(trace[i], ops[i], answers[i], trace[i + 1], order, same);
    assert trace[i].alive ==> trace[i].Sane();
  }

  /** Whether an operation is refused in a run: not while the index is there and has one leaf, or the key has never been on
      an inner page, as one that was never put in, or nothing was deleted, if it is not 0; but an insertion must lose
      nothing. */
  lemma RunPerforms(trace: seq<View>, ops: seq<Op>, answers: seq<Answer>, order: nat, same: seq<int> -> bool, buffer: seq<Slot>, i: nat)
    requires RunOf(trace, ops, answers, order, same, buffer) && i < |ops| && trace[i].alive
    requires || |trace[i].lv| == 1 || ops[i].key !in trace[i].seen.inner
             || (ops[i].key != 0 && (NoDrop(ops[..i]) || ops[i].key !in PutKeys(ops[..i])))
    ensures answers[i].Refused? <==> ops[i].Put? && !trace[i].Roomy(ops[i].key, order, same)
  {
    hide View.Roomy, View.Contents, View.Hit, PutKeys, Played, NewSeen;
    RunStates(trace, ops, answers, order, same, buffer, i);
    assert Step(trace[i], ops[i], answers[i], trace[i + 1], order, same);
    assert trace[i].Sane();
    assert NoDrop(ops[..i]) ==> forall s :: s in trace[i].stale.inner ==> s.key == 0;
  }

  // ---- runs on which the search goes wrong

  lemma InsertAtEnd(n: Node, key: int, rid: Rid)
    requires n.spare != [] && forall i :: 0 <= i < |n.slots| ==> n.slots[i].key < key
    ensures Insert(n, key, rid).slots == n.slots + [Slot(key, rid)]
  {
    LowerBoundIs(n.slots, key, |n.slots|);
  }

  // While the root is a leaf every way down is clear.
  lemma LeafRoot(t: IxIndexHandle, key: int)
    requires t.Valid() && |t.lv| == 1
    ensures t.ClearRoute(key) && |t.lv[0]| == 1 && t.LeafOf(key) == t.lv[0][0] && |t.Leaves()| == 1
    ensures t.lv[0][0] in t.pages && t.pages[t.lv[0][0]].slots == t.Leaves()[0] && t.pages[t.lv[0][0]].spare != []
  {
    TopIsRoot(t.pages, t.lv, t.rootPage);
    LeafRoom(t.pages, t.lv, t.rootPage, t.order, 0);
  }

  // Two leaves need an inner page.
  lemma TwoLeaves(t: IxIndexHandle)
    requires t.Valid() && |t.Leaves()| > 1
    ensures |t.lv| > 1
  {
    TopIsRoot(t.pages, t.lv, t.rootPage);
  }

  lemma MapNext(s: seq<Slot>, i: nat)
    requires Sorted(s) && i < |s|
    ensures s[i].key !in ToMap(s[..i]) && ToMap(s[..i + 1]) == ToMap(s[..i])[s[i].key := s[i].rid]
  {
    MapInsert(s[..i], i, s[i]);
    assert InsertSlot(s[..i], i, s[i]) == s[..i + 1];
  }

  // The leaves of an index that has been given ascending keys, up to the first split of a leaf.
  ghost function FirstLeaves(order: nat, s: seq<Slot>): seq<seq<Slot>>
    requires |s| <= order
  {
    if |s| < order then [s] else [s[..(MaxSize(order) - 1) / 2], s[(MaxSize(order) - 1) / 2..]]
  }

  // Its separators.
  ghost function FirstSeps(order: nat, s: seq<Slot>): seq<int>
    requires |s| <= order
  {
    if |s| < order || |s| <= (MaxSize(order) - 1) / 2 then [] else [s[0].key, s[(MaxSize(order) - 1) / 2].key]
  }

  // Above a leaf that is the root there is nothing to split.
  lemma LeafRootClean(t: IxIndexHandle, key: int)
    requires t.Valid() && |t.lv| == 1 && var keys := WithKey(t.Leaves()[0], key);
      |keys| < t.order || (|keys| == t.order && Clean(keys[(MaxSize(t.order) - 1) / 2..], t.same))
    ensures t.LosesNothing(key)
  {
    LeafRoot(t, key);
    TopIsRoot(t.pages, t.lv, t.rootPage);
  }

  /** Ascending keys fill the first leaf; when it has become too large, it is split in the middle. */
  method Fill(order: nat, firstByte: int -> int, same: seq<int> -> bool, buffer: seq<Slot>, s: seq<Slot>) returns (t: IxIndexHandle)
    requires order >= 3 && |buffer| == order + 1 && |s| <= order && Sorted(s)
    requires |s| == order ==> Clean(Keys(s[(MaxSize(order) - 1) / 2..]), same)
    ensures fresh(t) && t.Valid() && t.order == order && t.firstByte == firstByte && t.same == same && t.stale == NewStale(buffer)
    ensures t.Leaves() == FirstLeaves(order, s) && (if |s| < order then |t.lv| == 1 else |t.lv| > 1)
    ensures t.Contents() == ToMap(s) && t.Separators() == FirstSeps(order, s)
  {
    hide IxIndexHandle.Valid, IxIndexHandle.Contents, IxIndexHandle.LeafOf, IxIndexHandle.ClearRoute, IxIndexHandle.LosesNothing;
    hide IxIndexHandle.Separators, IxIndexHandle.Leaves, FirstLeaves, FirstSeps;
    hide Insert, LeafSlots, NewStale, ToMap, Clean, Keys, WithKey;
    t := new IxIndexHandle(order, firstByte, same, buffer);
    var i := 0;
    LeafRoot(t, 0);
    EmptyLeaf(t);
    NoSepsYet(t);
    FirstNone(order);
    EmptyMap([]);
    assert s[..0] == [];
    while i < |s|
      invariant i <= |s| && fresh(t) && t.Valid() && t.order == order && t.firstByte == firstByte && t.same == same && t.stale == NewStale(buffer)
      invariant t.Leaves() == FirstLeaves(order, s[..i]) && (i < order ==> |t.lv| == 1)
      invariant t.Contents() == ToMap(s[..i]) && t.Separators() == FirstSeps(order, s[..i])
    {
      FillOne(t, buffer, s, i);
      i := i + 1;
    }
    assert s[..|s|] == s;
    if |s| == order {
      FirstSplit(order, s);
      TwoLeaves(t);
    }
  }

  // One more key goes into the first leaf.
  method FillOne(t: IxIndexHandle, buffer: seq<Slot>, s: seq<Slot>, i: nat)
    requires t.order >= 3 && i < |s| <= t.order && Sorted(s) && t.Valid() && t.stale == NewStale(buffer)
    requires |s| == t.order ==> Clean(Keys(s[(MaxSize(t.order) - 1) / 2..]), t.same)
    requires t.Leaves() == FirstLeaves(t.order, s[..i]) && |t.lv| == 1 && t.Contents() == ToMap(s[..i])
    requires t.Separators() == FirstSeps(t.order, s[..i])
    modifies t
    ensures t.Valid() && t.stale == NewStale(buffer)
    ensures t.Leaves() == FirstLeaves(t.order, s[..i + 1]) && (i + 1 < t.order ==> |t.lv| == 1)
    ensures t.Contents() == ToMap(s[..i + 1]) && t.Separators() == FirstSeps(t.order, s[..i + 1])
  {
    hide IxIndexHandle.Valid, IxIndexHandle.Contents, IxIndexHandle.LeafOf, IxIndexHandle.ClearRoute, IxIndexHandle.LosesNothing;
    hide IxIndexHandle.Separators, PutSeps, FirstSeps;
    hide Insert, LeafSlots, NewStale, ToMap, Clean, Keys, WithKey;
    MapNext(s, i);
    LeafRoot(t, s[i].key);
    ghost var n := t.pages[t.lv[0][0]];
    InsertAtEnd(n, s[i].key, s[i].rid);
    assert s[..i] + [s[i]] == s[..i + 1];
    InsertKeys(n, s[i].key, s[i].rid);
    FillClean(t.order, t.same, s, i);
    LeafRootClean(t, s[i].key);
    FirstSepsMore(t.order, s, i);
    var ok, j := t.InsertEntry(s[i].key, s[i].rid);
  }

  lemma FirstSplit(order: nat, s: seq<Slot>)
    requires |s| == order
    ensures |FirstLeaves(order, s)| == 2
  {
  }

  lemma FirstNone(order: nat)
    requires order >= 3
    ensures FirstLeaves(order, []) == [[]] && FirstSeps(order, []) == []
  {
  }

  lemma NoSepsYet(t: IxIndexHandle)
    requires |t.lv| == 1
    ensures t.Separators() == []
  {
  }

  lemma FirstSepsAre(t: IxIndexHandle)
    ensures t.Separators() == Seps(t.pages, t.lv)
  {
  }

  // The separators after one more of the first insertions.
  lemma FirstSepsMore(order: nat, s: seq<Slot>, i: nat)
    requires order >= 3 && i < |s| <= order && Sorted(s)
    ensures PutSeps(FirstSeps(order, s[..i]), 0, s[..i + 1], order, s[i].key) == FirstSeps(order, s[..i + 1])
  {
  }

  lemma FillClean(order: nat, same: seq<int> -> bool, s: seq<Slot>, i: nat)
    requires order >= 3 && i < |s| <= order && (|s| == order ==> Clean(Keys(s[(MaxSize(order) - 1) / 2..]), same))
    ensures var keys := Keys(s[..i + 1]);
      |keys| < order || (|keys| == order && Clean(keys[(MaxSize(order) - 1) / 2..], same))
  {
    if i + 1 == order {
      assert s[..i + 1] == s;
      assert Keys(s)[(MaxSize(order) - 1) / 2..] == Keys(s[(MaxSize(order) - 1) / 2..]);
    }
  }

  lemma EmptyLeaf(t: IxIndexHandle)
    requires |t.lv| == 1 && |t.lv[0]| == 1 && t.lv[0][0] in t.pages && t.pages[t.lv[0][0]].slots == []
    ensures t.Leaves() == [[]]
  {
  }

  // With no strays but zeros on inner pages the root has a slot of zeros behind its keys.
  lemma ZeroLost(t: IxIndexHandle)
    requires t.Valid() && |t.lv| > 1 && t.stale.inner == {ZERO}
    requires forall k :: 0 <= k < |t.Leaves()| && t.Leaves()[k] != [] ==> t.Leaves()[k][0].key < 0
    ensures !t.ClearRoute(0)
    ensures t.rootPage in t.pages && t.pages[t.rootPage].spare != [] && InternalLookup(t.pages[t.rootPage], 0) == 0
  {
    hide TreeBut, Quiet, InternalLookup;
    forall k | 0 <= k < |t.lv[0]| && SlotsOf(t.pages, t.lv[0][k]) != [] ensures SlotsOf(t.pages, t.lv[0][k])[0].key < 0 {
      assert t.Leaves()[k] == SlotsOf(t.pages, t.lv[0][k]);
    }
    NegativeFirstsMislead(t.pages, t.lv, t.rootPage, t.order, t.stale);
  }

  /** A new index that is given as many ascending keys as fit on no leaf, the middle one negative, sends every search
      for 0 to page 0, whether 0 is one of the keys or not. */
  method LoseZero(order: nat, firstByte: int -> int, same: seq<int> -> bool, buffer: seq<Slot>, s: seq<Slot>) returns (t: IxIndexHandle)
    requires order >= 3 && |buffer| == order + 1 && |s| == order && Sorted(s) && s[(MaxSize(order) - 1) / 2].key < 0
    requires Clean(Keys(s[(MaxSize(order) - 1) / 2..]), same)
    ensures fresh(t) && t.Valid() && t.Contents() == ToMap(s) && !t.ClearRoute(0)
    ensures t.rootPage in t.pages && t.pages[t.rootPage].spare != [] && InternalLookup(t.pages[t.rootPage], 0) == 0
  {
    hide IxIndexHandle.Valid, IxIndexHandle.Contents, IxIndexHandle.ClearRoute, Clean, Keys, InternalLookup;
    t := Fill(order, firstByte, same, buffer, s);
    ZeroLost(t);
  }

  /** Three negative keys at order 3: the search for 0 goes to page 0, the file header. */
  method LoseZeroBehindNegatives(firstByte: int -> int, buffer: seq<Slot>) returns (t: IxIndexHandle)
    requires |buffer| == 4
    ensures t.Valid() && !t.ClearRoute(0)
    ensures t.rootPage in t.pages && t.pages[t.rootPage].spare != [] && InternalLookup(t.pages[t.rootPage], 0) == 0
  {
    hide IxIndexHandle.Valid, IxIndexHandle.Contents, IxIndexHandle.ClearRoute, Clean, InternalLookup;
    var s := [Slot(-5, Rid(2, 0)), Slot(-4, Rid(2, 1)), Slot(-3, Rid(2, 2))];
    PlainClean(Keys(s[1..]));
    t := LoseZero(3, firstByte, SameInt, buffer, s);
  }

  /** -5, -3 and 0 at order 3: 0 is stored, and neither a lookup nor a deletion gets to it. */
  method LoseStoredZero(firstByte: int -> int, buffer: seq<Slot>) returns (t: IxIndexHandle)
    requires |buffer| == 4
    ensures t.Valid() && 0 in t.Contents() && !t.ClearRoute(0)
    ensures t.rootPage in t.pages && t.pages[t.rootPage].spare != [] && InternalLookup(t.pages[t.rootPage], 0) == 0
  {
    hide IxIndexHandle.Valid, IxIndexHandle.Contents, IxIndexHandle.ClearRoute, Clean, InternalLookup, ToMap;
    var s := [Slot(-5, Rid(2, 0)), Slot(-3, Rid(2, 1)), Slot(0, Rid(2, 2))];
    assert Keys(s[1..]) == [-3, 0];
    PairClean(-3, 0);
    t := LoseZero(3, firstByte, SameInt, buffer, s);
    MapHas(s);
    assert s[2].key in ToMap(s);
  }

  /** -2, -1 and 255 at order 3: the leaf that gets the third key is split, and 255 is on neither half; a pair with key 0
      that nobody has inserted stands in its place. */
  method LoseInSplit(firstByte: int -> int, buffer: seq<Slot>) returns (t: IxIndexHandle, p: int, n: int)
    requires |buffer| == 4
    ensures p in t.pages && n in t.pages && t.pages[p].slots == [Slot(-2, Rid(2, 0))]
    ensures t.pages[n].slots == [Slot(-1, Rid(2, 1)), ZERO]
  {
    hide IxIndexHandle.Valid, IxIndexHandle.Contents, IxIndexHandle.ClearRoute, IxIndexHandle.LeafOf, Clean, Insert, ToMap, CleanUp, TreeBut, IxIndexHandle.Allocated, IxIndexHandle.Calm, SplitOf, SpareSplit, IxIndexHandle.UpperHalf, IxIndexHandle.Arrives;
    hide IxIndexHandle.LosesNothing;
    var s := [Slot(-2, Rid(2, 0)), Slot(-1, Rid(2, 1))];
    t := Fill(3, firstByte, SameInt, buffer, s);
    LeafRoot(t, 255);
    ghost var m, lv := t.pages[t.lv[0][0]], t.lv;
    InsertAtEnd(m, 255, Rid(2, 2));
    ghost var j, tight;
    p, j, tight := t.PutIntoLeaf(255, Rid(2, 2));
    ghost var b := t.pages[p];
    assert b.slots == [Slot(-2, Rid(2, 0)), Slot(-1, Rid(2, 1)), Slot(255, Rid(2, 2))];
    SplitReady(t.pages, t.lv, t.rootPage, 3, 0, j, tight);
    n := t.Split(p);
    MinusOneArrives(b, t);
  }

  // What arrives of -1 and 255.
  lemma MinusOneArrives(b: Node, t: IxIndexHandle)
    requires t.order == 3 && t.same == SameInt && b.isLeaf && |b.spare| == 1
    requires b.slots == [Slot(-2, Rid(2, 0)), Slot(-1, Rid(2, 1)), Slot(255, Rid(2, 2))]
    ensures t.Arrives(b) == [Slot(-1, Rid(2, 1)), ZERO]
  {
    var block := [Slot(-1, Rid(2, 1)), Slot(255, Rid(2, 2))];
    assert b.Physical()[1..3] == block;
    MinusOneHides(Keys(block));
    assert Keys(block)[..2] == Keys(block);
    assert SameInt(Keys(block));
    assert Filter(block, SameInt) == Filter(block[..1], SameInt) == [Slot(-1, Rid(2, 1))];
  }

  // ---- the greatest key of a leaf is deleted

  // The key is the last one of a leaf that can do without it.
  ghost predicate Greatest(t: IxIndexHandle, key: int)
    requires t.Valid()
    reads t
  {
    t.LeafOf(key) in t.pages &&
    var s := t.pages[t.LeafOf(key)].slots;
    |s| >= 2 && |s| > Enough(IsTop(t.lv, 0), t.order) && s[|s| - 1].key == key
  }

  // The leaf at the end of the way down is number j.
  lemma NumberOf(t: IxIndexHandle, key: int) returns (j: nat)
    requires t.Valid()
    ensures t.lv != [] && j < |t.lv[0]| && t.lv[0][j] == t.LeafOf(key) && t.LeafOf(key) in t.pages
    ensures t.pages[t.LeafOf(key)].spare != [] && Sorted(t.pages[t.LeafOf(key)].slots)
  {
    hide TreeBut, Flat, Quiet, Known;
    CoversTop(t.pages, t.lv, t.rootPage, t.order, key);
    j := LeafCovers(t.pages, t.lv, t.rootPage, t.order, |t.lv| - 1, 0, key);
    LeafRoom(t.pages, t.lv, t.rootPage, t.order, j);
  }

  // A greatest key is stored and not alone.
  lemma GreatestStored(t: IxIndexHandle, key: int)
    requires t.Valid() && Greatest(t, key)
    ensures key in t.Contents() && t.Contents().Keys != {key}
    ensures LowerBound(t.pages[t.LeafOf(key)].slots, key) == |t.pages[t.LeafOf(key)].slots| - 1
    ensures t.LeafOf(key) in t.lv[0] && t.pages[t.LeafOf(key)].spare != []
  {
    hide IxIndexHandle.Valid, IxIndexHandle.Contents, IxIndexHandle.LeafOf, IsTop, LowerBound;
    var j := NumberOf(t, key);
    var s := t.pages[t.LeafOf(key)].slots;
    SortedFind(s, key, |s| - 1);
    LeafHolds(t, j, 0);
    LeafHolds(t, j, |s| - 1);
    assert s[0].key in t.Contents().Keys && s[0].key != key;
  }

  lemma LeafHolds(t: IxIndexHandle, j: nat, i: nat)
    requires t.Valid() && j < |t.lv[0]| && i < |SlotsOf(t.pages, t.lv[0][j])|
    ensures SlotsOf(t.pages, t.lv[0][j])[i].key in t.Contents()
  {
    hide TreeBut, Flat, Quiet, Known;
    SortedEntries(t.pages, t.lv, t.rootPage, t.order);
    FlatAt(t.pages, t.lv[0], j, i);
    MapHas(t.Entries());
  }

  // Erasing the last slot of a leaf leaves it right behind the others, where the same search finds it.
  lemma GreatestErased(t: IxIndexHandle, P: Pages, leaf: int, pos: nat, key: int)
    requires leaf in P && pos == |P[leaf].slots| - 1 && P[leaf].slots[pos].key == key && LowerBound(P[leaf].slots, key) == pos
    requires t.pages == P[leaf := EraseAt(P[leaf], pos)]
    ensures StaleHit(t.pages[leaf], key)
  {
    LowerBoundIs(t.pages[leaf].slots, key, pos);
  }

  lemma SameWay(t: IxIndexHandle, P: Pages, leaf: int, n: Node, key: int)
    requires |t.lv| >= 1 && Tree(P, t.lv, t.rootPage, t.order) && leaf in t.lv[0] && leaf in P && t.pages == P[leaf := n]
    ensures t.ClearRoute(key) <==> ClearBelow(P, t.rootPage, |t.lv| - 1, key)
    ensures t.LeafOf(key) == LeafBelow(P, t.rootPage, |t.lv| - 1, key)
  {
    hide TreeBut, Covers, Flat, Pick, LeafBelow, ClearBelow;
    CoversTop(P, t.lv, t.rootPage, t.order, key);
    ClearFrame(P, t.pages, t.lv, t.rootPage, t.order, leaf, |t.lv| - 1, 0, key);
  }

  // The last leaf of an index.
  lemma LastOf(t: IxIndexHandle)
    requires t.Valid()
    ensures t.lv != [] && t.lv[0] != [] && t.lastLeaf == t.lv[0][|t.lv[0]| - 1] && Tree(t.pages, t.lv, t.rootPage, t.order)
  {
  }

  /** Deleting the greatest key of a leaf leaves the slot behind the others, and the way to it clear. */
  method DropGreatest(t: IxIndexHandle, key: int) returns (ok: bool)
    requires t.Valid() && t.ClearRoute(key) && Greatest(t, key)
    modifies t
    ensures ok && t.Valid() && t.Contents() == old(t.Contents()) - {key}
    ensures t.ClearRoute(key) && t.LeafOf(key) == old(t.LeafOf(key)) && t.lastLeaf == old(t.lastLeaf)
    ensures t.LeafOf(key) in t.pages && StaleHit(t.pages[t.LeafOf(key)], key)
  {
    hide IxIndexHandle.Valid, IxIndexHandle.Contents, IxIndexHandle.Leaves, IxIndexHandle.Emptied, IxIndexHandle.Dropped;
    hide ClearBelow, LeafBelow, StaleHit, TreeBut, IsTop, LowerBound;
    GreatestStored(t, key);
    LastOf(t);
    ghost var P, lw, root, K, leaf, M := t.pages, t.lv, t.rootPage, t.seen, t.LeafOf(key), t.Contents();
    ghost var j, how;
    ok, j, how := t.DeleteEntry(key);
    t.DroppedStays(P, lw, root, K, leaf, key, j, how, M.Keys != {key});
    ghost var pos := LowerBound(P[leaf].slots, key);
    GreatestErased(t, P, leaf, pos, key);
    SameWay(t, P, leaf, EraseAt(P[leaf], pos), key);
    LastOf(t);
  }

  /** A greatest key is still found after it has been deleted. */
  method FindDropped(t: IxIndexHandle, key: int) returns (found: bool)
    requires t.Valid() && t.ClearRoute(key) && Greatest(t, key)
    modifies t
    ensures found && t.Valid() && key !in t.Contents()
  {
    hide *;
    var ok := DropGreatest(t, key);
    var rid;
    found, rid := t.GetValue(key);
  }

  /** lower_bound of a greatest key that has been deleted lies behind the slots of its leaf: no scan can begin there
      unless it is the last leaf. */
  method SeekDropped(t: IxIndexHandle, key: int) returns (iid: Iid, ghost j: nat)
    requires t.Valid() && t.ClearRoute(key) && Greatest(t, key)
    modifies t
    ensures t.Valid() && OnLeaf(t.pages, t.lv[0], j, iid)
    ensures Proper(t.pages, t.lv[0], j, iid) <==> old(t.LeafOf(key)) == t.lastLeaf
  {
    hide IxIndexHandle.Valid, IxIndexHandle.Contents, IxIndexHandle.ClearRoute, IxIndexHandle.LeafOf, Proper, OnLeaf;
    var ok := DropGreatest(t, key);
    iid, j := t.LowerBoundPlace(key);
  }

  /** 1 and 2 are inserted and 2 is deleted: 2 is found. */
  method FindDeletedTwo(order: nat, firstByte: int -> int, same: seq<int> -> bool, buffer: seq<Slot>) returns (t: IxIndexHandle, found: bool)
    requires order >= 3 && |buffer| == order + 1
    ensures t.Valid() && 2 !in t.Contents() && found
  {
    hide IxIndexHandle.Valid, IxIndexHandle.Contents, IxIndexHandle.ClearRoute, IxIndexHandle.LeafOf;
    t := Fill(order, firstByte, same, buffer, [Slot(1, Rid(2, 0)), Slot(2, Rid(2, 1))]);
    LeafRoot(t, 2);
    found := FindDropped(t, 2);
  }

  // A key is in one leaf only.
  lemma OneLeaf(t: IxIndexHandle, k: nat, i: nat, j: nat, b: nat)
    requires t.Valid() && k < |t.lv[0]| && i < |SlotsOf(t.pages, t.lv[0][k])|
    requires j < |t.lv[0]| && b < |SlotsOf(t.pages, t.lv[0][j])|
    requires SlotsOf(t.pages, t.lv[0][k])[i].key == SlotsOf(t.pages, t.lv[0][j])[b].key
    ensures k == j
  {
    hide TreeBut, Quiet, Known, Flat;
    SortedEntries(t.pages, t.lv, t.rootPage, t.order);
    FlatAt(t.pages, t.lv[0], k, i);
    FlatAt(t.pages, t.lv[0], j, b);
    OffUnique(t.pages, t.lv[0], k, i, j, b);
  }

  lemma StoredIn(t: IxIndexHandle, key: int) returns (j: nat, b: nat)
    requires t.Valid() && key in t.Contents()
    ensures t.lv != [] && j < |t.lv[0]| && t.lv[0][j] == t.LeafOf(key)
    ensures b < |SlotsOf(t.pages, t.lv[0][j])| && SlotsOf(t.pages, t.lv[0][j])[b].key == key
  {
    hide TreeBut, Quiet, Known, Flat, ToMap;
    CoversTop(t.pages, t.lv, t.rootPage, t.order, key);
    j := LeafCovers(t.pages, t.lv, t.rootPage, t.order, |t.lv| - 1, 0, key);
    LeafDecides(t.pages, t.lv, t.rootPage, t.order, j, key);
    b :| 0 <= b < |SlotsOf(t.pages, t.lv[0][j])| && SlotsOf(t.pages, t.lv[0][j])[b].key == key;
  }

  /** A key is looked up in the leaf that holds it. */
  lemma LeafWith(t: IxIndexHandle, k: nat, i: nat)
    requires t.Valid() && k < |t.lv[0]| && i < |SlotsOf(t.pages, t.lv[0][k])|
    ensures t.LeafOf(SlotsOf(t.pages, t.lv[0][k])[i].key) == t.lv[0][k]
  {
    hide IxIndexHandle.Valid, IxIndexHandle.Contents, IxIndexHandle.LeafOf;
    LeafNumbers(t);
    LeafHolds(t, k, i);
    var j, b := StoredIn(t, SlotsOf(t.pages, t.lv[0][k])[i].key);
    OneLeaf(t, k, i, j, b);
  }

  // ---- separators

  /** There is one separator for each leaf, but none above a single leaf. */
  lemma SeparatorsThere(t: IxIndexHandle)
    requires t.Valid()
    ensures |t.lv| >= 1 && (|t.lv| == 1 <==> |t.Leaves()| == 1)
    ensures |t.Separators()| == if |t.Leaves()| == 1 then 0 else |t.Leaves()|
  {
    hide Quiet, Known, Flat;
    TopIsRoot(t.pages, t.lv, t.rootPage);
    if |t.lv| > 1 {
      assert LinkAt(t.pages, t.lv, 0, true);
      TwoOrMore(t, 1);
    }
  }

  /** Where the way down is clear, a key is looked up in the leaf that the separators give. */
  lemma LookedUpIn(t: IxIndexHandle, key: int)
    requires t.Valid() && t.ClearRoute(key)
    ensures t.lv != [] && LeafNumber(t.Separators(), key) < |t.lv[0]| && t.LeafOf(key) == t.lv[0][LeafNumber(t.Separators(), key)]
  {
    hide TreeBut, Covers, Quiet, Known, Flat, Seps;
    CoversTop(t.pages, t.lv, t.rootPage, t.order, key);
    var j := LeafCovers(t.pages, t.lv, t.rootPage, t.order, |t.lv| - 1, 0, key);
    CoversNumber(t.pages, t.lv, t.rootPage, t.order, j, key);
    CoversThere(t.pages, t.lv, j, key);
  }

  lemma CoversThere(P: Pages, lv: seq<seq<int>>, j: nat, key: int)
    requires lv != [] && Covers(P, lv, 0, j, key)
    ensures j < |lv[0]|
  {
  }

  /** Above the lowest inner level each separator is the first key of its page. */
  lemma UpperSeparators(t: IxIndexHandle, h: nat, k: nat)
    requires t.Valid() && 1 <= h && h + 1 < |t.lv| && k < |t.lv[h]|
    ensures k < |Flat(t.pages, t.lv[h + 1])| && SlotsOf(t.pages, t.lv[h][k]) != []
    ensures Flat(t.pages, t.lv[h + 1])[k].key == SlotsOf(t.pages, t.lv[h][k])[0].key
  {
    hide Quiet, Known, Flat;
    assert LinkAt(t.pages, t.lv, h, true);
  }

  lemma {:induction false} NumberBefore(S: seq<int>, key: int, j: nat, next: int)
    requires 0 < j < |S| && (forall a, b :: 0 <= a < b < |S| ==> S[a] < S[b]) && S[j] <= key < next
    requires LeafNumber(S, key) == j
    ensures LeafNumber(S[j := next], key) == j - 1
  {
    NumberIsNot(S, key, j);
    NumberIs(S[j := next], key, j - 1);
  }

  lemma {:induction false} NumberIsNot(S: seq<int>, key: int, j: nat)
    requires j < |S| && LeafNumber(S, key) == j
    ensures forall k :: j < k < |S| ==> key < S[k]
  {
    if j + 1 < |S| {
      NumberIsNot(S[..|S| - 1], key, j);
    }
  }

  /** The first key of a leaf behind the first is deleted, and the next one begins with another byte: the separator of the
      leaf is that key then, no other separator changes, and the deleted key is looked up in the leaf before. */
  method DropFirst(t: IxIndexHandle, key: int, ghost j: nat)
    requires t.Valid() && t.ClearRoute(key) && 0 < j < |t.Leaves()| && |t.Leaves()[j]| >= 2 && t.Leaves()[j][0].key == key
    requires |t.Leaves()[j]| > Enough(IsTop(t.lv, 0), t.order) && t.firstByte(key) != t.firstByte(t.Leaves()[j][1].key)
    modifies t
    ensures t.Valid() && t.Contents() == old(t.Contents()) - {key} && t.lv == old(t.lv) && t.rootPage == old(t.rootPage)
    ensures t.Leaves() == old(t.Leaves())[j := old(t.Leaves())[j][1..]]
    ensures j < |old(t.Separators())| && t.Separators() == old(t.Separators())[j := old(t.Leaves())[j][1].key]
    ensures LeafNumber(t.Separators(), key) == j - 1
  {
    hide IxIndexHandle.Valid, IxIndexHandle.Contents, IxIndexHandle.Leaves, IxIndexHandle.Emptied, IxIndexHandle.Dropped;
    hide IxIndexHandle.LeafOf, IxIndexHandle.ClearRoute, IxIndexHandle.Separators, Seps, LeafNumber, LowerBound, IsTop;
    FirstToDelete(t, key, j);
    ghost var P, lw, root, K, leaf, M, S := t.pages, t.lv, t.rootPage, t.seen, t.LeafOf(key), t.Contents(), t.Separators();
    ghost var k, how;
    var ok;
    ok, k, how := t.DeleteEntry(key);
    assert k == j;
    t.DroppedStays(P, lw, root, K, leaf, key, j, how, M.Keys != {key});
    FirstSepsAre(t);
    assert EraseAt(P[leaf], 0).slots == P[leaf].slots[1..];
    NumberBefore(S, key, j, P[leaf].slots[1].key);
  }

  // Before the first key of leaf j is deleted.
  lemma FirstToDelete(t: IxIndexHandle, key: int, j: nat)
    requires t.Valid() && t.ClearRoute(key) && 0 < j < |t.Leaves()| && |t.Leaves()[j]| >= 2 && t.Leaves()[j][0].key == key
    ensures |t.lv| > 1 && |t.lv[0]| == |t.Leaves()| && t.LeafOf(key) == t.lv[0][j] && t.LeafOf(key) in t.pages
    ensures t.pages[t.LeafOf(key)].slots == t.Leaves()[j] && LowerBound(t.Leaves()[j], key) == 0 && key < t.Leaves()[j][1].key
    ensures t.Leaves() == LeafSlots(t.pages, t.lv[0])
    ensures forall a, b :: 0 <= a < b < |t.lv[0]| ==> t.lv[0][a] != t.lv[0][b]
    ensures key in t.Contents() && t.Contents().Keys != {key}
    ensures t.Separators() == Seps(t.pages, t.lv)
    ensures var S := t.Separators();
      && j < |S| && S[j] <= key && LeafNumber(S, key) == j && forall a, b :: 0 <= a < b < |S| ==> S[a] < S[b]
  {
    hide TreeBut, Quiet, Known, Flat, IxIndexHandle.ClearRoute, Seps, LeafNumber;
    TwoLeaves(t);
    LeafPage(t, j);
    LeafNumbers(t);
    LeafWith(t, j, 0);
    LeafHolds(t, j, 0);
    LeafHolds(t, j, 1);
    LeafSortedHere(t, j);
    SortedFind(t.Leaves()[j], key, 0);
    LookedUpIn(t, key);
    SeparatorsThere(t);
    SeparatorsAscend(t, key, j);
  }

  lemma LeafSortedHere(t: IxIndexHandle, j: nat)
    requires t.Valid() && j < |t.lv[0]|
    ensures Sorted(SlotsOf(t.pages, t.lv[0][j]))
  {
    LeafRoom(t.pages, t.lv, t.rootPage, t.order, j);
  }

  lemma SeparatorsAscend(t: IxIndexHandle, key: int, j: nat)
    requires t.Valid() && |t.lv| > 1 && j < |t.lv[0]| && SlotsOf(t.pages, t.lv[0][j]) != [] && SlotsOf(t.pages, t.lv[0][j])[0].key == key
    ensures j < |t.Separators()| && t.Separators()[j] <= key
    ensures forall a, b :: 0 <= a < b < |t.Separators()| ==> t.Separators()[a] < t.Separators()[b]
  {
    hide Quiet, Known, Flat;
    LevelAscending(t.pages, t.lv, 1, -1, true);
    assert LinkAt(t.pages, t.lv, 0, true);
    assert LeafBounded(t.pages, Flat(t.pages, t.lv[1]), t.lv[0], j, true);
  }

  /** 11 to 14 are inserted at order 4, in two leaves with the separators 11 and 13, and 13 is deleted: where the first
      bytes of 13 and 14 differ, 14 becomes the separator, and lower_bound of 13 is the place behind 12. */
  method DropSeparator(firstByte: int -> int, buffer: seq<Slot>) returns (t: IxIndexHandle, iid: Iid)
    requires |buffer| == 5 && firstByte(13) != firstByte(14)
    ensures t.Valid() && t.Leaves() == [[Slot(11, Rid(2, 0)), Slot(12, Rid(2, 1))], [Slot(14, Rid(2, 3))]]
    ensures t.Separators() == [11, 14] && t.ClearRoute(13) && |t.lv| > 0 && |t.lv[0]| == 2 && iid == Iid(t.lv[0][0], 2)
  {
    hide IxIndexHandle.Valid, IxIndexHandle.Contents, IxIndexHandle.ClearRoute, IxIndexHandle.LeafOf, ToMap, Clean;
    hide IxIndexHandle.Separators, IxIndexHandle.Leaves, LowerBound;
    var s := [Slot(11, Rid(2, 0)), Slot(12, Rid(2, 1)), Slot(13, Rid(2, 2)), Slot(14, Rid(2, 3))];
    PlainClean(Keys(s[2..]));
    t := Fill(4, firstByte, SameInt, buffer, s);
    assert s[..2] == [s[0], s[1]] && s[2..] == [s[2], s[3]];
    iid := DropThirteen(t, s);
  }

  // 13 is deleted, and its lower bound looked for.
  method DropThirteen(t: IxIndexHandle, s: seq<Slot>) returns (iid: Iid)
    requires t.Valid() && t.order == 4 && |t.lv| > 1 && t.stale.inner == {ZERO} && t.firstByte(13) != t.firstByte(14)
    requires |s| == 4 && s[0].key == 11 && s[1].key == 12 && s[2].key == 13 && s[3].key == 14
    requires t.Leaves() == [[s[0], s[1]], [s[2], s[3]]] && t.Separators() == [11, 13]
    modifies t
    ensures t.Valid() && t.Leaves() == [[s[0], s[1]], [s[3]]] && t.Separators() == [11, 14]
    ensures t.ClearRoute(13) && |t.lv| > 0 && |t.lv[0]| == 2 && iid == Iid(t.lv[0][0], 2)
  {
    hide IxIndexHandle.Valid, IxIndexHandle.Contents, IxIndexHandle.ClearRoute, IxIndexHandle.LeafOf, ToMap, Clean;
    hide IxIndexHandle.Separators, IxIndexHandle.Leaves, LowerBound;
    LeafToDelete(t, 1, 0);
    DropFirst(t, 13, 1);
    assert [s[2], s[3]][1..] == [s[3]];
    BetweenSeparators(t, 13);
    LookedUpIn(t, 13);
    ghost var j;
    iid, j := t.LowerBoundPlace(13);
    LeafPage(t, 0);
    LowerBoundIs(t.Leaves()[0], 13, 2);
  }

  // Below a root with two separators the way down is clear for a key that is not greater than the second.
  lemma BetweenSeparators(t: IxIndexHandle, key: int)
    requires t.Valid() && |t.lv[0]| == 2 && |t.lv| > 1 && |t.Separators()| == 2 && t.Separators()[0] < key <= t.Separators()[1]
    ensures t.ClearRoute(key) && |t.Leaves()| == 2
  {
    hide Quiet, Known;
    TwoLevels(t);
    FlatOne(t.pages, t.rootPage);
    InnerNonempty(t.pages, t.lv, t.rootPage, t.order, 1, 0);
    LowerBoundIs(t.pages[t.rootPage].slots, key, 1);
  }

  // ---- a leaf is merged away

  // A key greater than all others is looked up in the last leaf.
  lemma GreatestLast(t: IxIndexHandle, key: int)
    requires t.Valid() && |t.lv| > 1 && forall k :: k in t.Contents() ==> k < key
    ensures t.lv[0] != [] && t.LeafOf(key) == t.lv[0][|t.lv[0]| - 1]
  {
    hide TreeBut, Quiet, Known, Flat;
    CoversTop(t.pages, t.lv, t.rootPage, t.order, key);
    var j := LeafCovers(t.pages, t.lv, t.rootPage, t.order, |t.lv| - 1, 0, key);
    BelowNext(t.pages, t.lv, t.rootPage, t.order, 0, j, key);
    if j + 1 < |t.lv[0]| {
      FilledLeaf(t.pages, t.lv, t.rootPage, t.order, j + 1);
      LeafHolds(t, j + 1, 0);
    }
  }

  // Three leaves hang below the root.
  lemma ThreeLeaves(t: IxIndexHandle)
    requires t.Valid() && |t.lv[0]| == 3
    ensures |t.lv| == 2 && t.lv[1] == [t.rootPage] && t.rootPage in t.pages && |t.pages[t.rootPage].slots| == 3
  {
    hide Quiet, Known;
    TopIsRoot(t.pages, t.lv, t.rootPage);
    assert LinkAt(t.pages, t.lv, 0, true);
    if |t.lv| > 2 {
      TwoOrMore(t, 2);
      assert LinkAt(t.pages, t.lv, 1, true);
      TwoOrMore(t, 1);
    }
    InnerNonempty(t.pages, t.lv, t.rootPage, t.order, 1, 0);
    FlatOne(t.pages, t.rootPage);
  }

  // The pages of an inner level have two slots each, or more.
  lemma TwoOrMore(t: IxIndexHandle, h: nat)
    requires t.Valid() && 1 <= h < |t.lv|
    ensures |Flat(t.pages, t.lv[h])| >= 2 && (|t.lv[h]| >= 2 ==> |Flat(t.pages, t.lv[h])| >= 4)
  {
    hide Quiet, Known, Flat;
    forall k | 0 <= k < |t.lv[h]| ensures |SlotsOf(t.pages, t.lv[h][k])| >= 2 {
      assert GoodPage(t.pages, t.lv[h][k], false, t.order);
      assert SizeOK(t.pages[t.lv[h][k]], IsTop(t.lv, h), t.order);
    }
    FlatStretch(t.pages, t.lv[h], 0);
    if |t.lv[h]| >= 2 {
      FlatStretch(t.pages, t.lv[h], 1);
    }
  }

  // The separators of the second and the third of three leaves.
  lemma ThirdSeparator(t: IxIndexHandle)
    requires t.Valid() && |t.lv[0]| == 3
    ensures forall k :: 0 <= k < 3 ==> SlotsOf(t.pages, t.lv[0][k]) != []
    ensures t.rootPage in t.pages && |t.pages[t.rootPage].slots| == 3
    ensures SlotsOf(t.pages, t.lv[0][1])[0].key < t.pages[t.rootPage].slots[2].key <= SlotsOf(t.pages, t.lv[0][2])[0].key
    ensures t.pages[t.rootPage].slots[2].rid.pageNo == t.lv[0][2]
  {
    hide Quiet, Known;
    ThreeLeaves(t);
    assert LinkAt(t.pages, t.lv, 0, true);
    FlatOne(t.pages, t.rootPage);
    var F := Flat(t.pages, t.lv[1]);
    forall k | 0 <= k < 3 ensures SlotsOf(t.pages, t.lv[0][k]) != [] {
      FilledLeaf(t.pages, t.lv, t.rootPage, t.order, k);
    }
    assert LeafBounded(t.pages, F, t.lv[0], 1, true) && LeafBounded(t.pages, F, t.lv[0], 2, true);
  }

  // Three leaves of one key each: without its key the last one is merged away.
  lemma LastOfThreeGoes(t: IxIndexHandle, n: Node)
    requires t.Valid() && t.order == 3 && |t.lv[0]| == 3 && |SlotsOf(t.pages, t.lv[0][1])| == 1 && n.slots == []
    ensures LastChildGoes(t.pages[t.lv[0][2] := n], t.lv, 3, 2, 0)
  {
    hide Quiet, Known;
    ThreeLeaves(t);
    LeavesDistinct(t.pages, t.lv, t.rootPage, t.order, -1, true);
    InnerNotLeaf(t.pages, t.lv, t.rootPage, t.order, 1, 0, t.lv[0][2]);
    assert t.lv[1][..0] == [];
    assert Offset(t.pages[t.lv[0][2] := n], t.lv[1], 0) == 0;
  }

  /** The separator of a leaf that was merged away leads from the root to the released leaf, where it is found. */
  lemma ReleasedFound(t: IxIndexHandle, P: Pages, lv: seq<seq<int>>, key: int)
    requires t.Valid() && |lv| == 2 && |lv[1]| == 1 && LastChildGone(P, lv, t.pages, t.lv, 2, 0)
    requires var s := SlotsOf(P, lv[1][0]); s[|s| - 1].key == key && s[|s| - 1].rid.pageNo == lv[0][2]
    requires P[lv[0][2]].slots == [] && P[lv[0][2]].spare != [] && P[lv[0][2]].spare[0].key == key
    requires forall a, b :: 0 <= a < b < |lv[0]| ==> lv[0][a] != lv[0][b]
    ensures |t.lv| > 0 && lv[0][2] !in t.lv[0]
    ensures !t.ClearRoute(key) && t.rootPage in t.pages && t.pages[t.rootPage].spare != []
    ensures InternalLookup(t.pages[t.rootPage], key) == lv[0][2] && lv[0][2] in t.pages
    ensures t.pages[lv[0][2]].spare != [] && LeafLookup(t.pages[lv[0][2]], key).0
  {
    hide Quiet, Known;
    TopIsRoot(t.pages, t.lv, t.rootPage);
    assert t.lv[1] == lv[1] && t.rootPage == lv[1][0];
    var s := SlotsOf(P, lv[1][0]);
    MisleadsExact(t.pages[t.rootPage], s[|s| - 1], key);
  }

  // The slots of a leaf as the index shows them.
  lemma LeafPage(t: IxIndexHandle, j: nat)
    requires t.Valid() && j < |t.Leaves()|
    ensures |t.lv| >= 1 && j < |t.lv[0]| == |t.Leaves()| && t.lv[0][j] in t.pages
    ensures t.pages[t.lv[0][j]].slots == SlotsOf(t.pages, t.lv[0][j]) == t.Leaves()[j] && t.pages[t.lv[0][j]].spare != []
  {
    LeafRoom(t.pages, t.lv, t.rootPage, t.order, j);
  }

  lemma LeafNumbers(t: IxIndexHandle)
    requires t.Valid()
    ensures |t.lv| >= 1 && |t.lv[0]| == |t.Leaves()| && forall a, b :: 0 <= a < b < |t.lv[0]| ==> t.lv[0][a] != t.lv[0][b]
  {
    LeavesDistinct(t.pages, t.lv, t.rootPage, t.order, -1, true);
  }

  /** A pair with a new greatest key goes to the end of the last leaf. */
  method Append(t: IxIndexHandle, s: Slot)
    requires t.Valid() && t.ClearRoute(s.key) && t.LosesNothing(s.key) && |t.lv| > 1 && |t.Leaves()| > 0
    requires forall k :: k in t.Contents() ==> k < s.key
    modifies t
    ensures t.Valid() && t.stale == old(t.stale) && t.Contents() == old(t.Contents())[s.key := s.rid]
    ensures t.Leaves() == SplitInto(old(t.Leaves()), |old(t.Leaves())| - 1, old(t.Leaves())[|old(t.Leaves())| - 1] + [s], t.order)
  {
    hide IxIndexHandle.Valid, IxIndexHandle.Contents, IxIndexHandle.LeafOf, IxIndexHandle.ClearRoute, IxIndexHandle.Leaves, IxIndexHandle.LosesNothing;
    hide IxIndexHandle.Separators, IxIndexHandle.SplitKeys, PutSeps, Insert, SplitInto, LeafSlots, Seen.Up, Seen.More;
    GreatestLast(t, s.key);
    LeafNumbers(t);
    LeafPage(t, |t.lv[0]| - 1);
    ghost var n := t.pages[t.lv[0][|t.lv[0]| - 1]];
    forall i | 0 <= i < |n.slots| ensures n.slots[i].key < s.key {
      LeafHolds(t, |t.lv[0]| - 1, i);
    }
    var ok, j := t.InsertEntry(s.key, s.rid);
    InsertAtEnd(n, s.key, s.rid);
  }

  // The keys 1, 2, 3 and 4 at order 3 make three leaves.
  method ThreeLeavesOf(firstByte: int -> int, buffer: seq<Slot>, s: seq<Slot>) returns (t: IxIndexHandle)
    requires |buffer| == 4 && |s| == 4 && forall i :: 0 <= i < |s| ==> s[i].key == i + 1
    ensures fresh(t) && t.Valid() && t.order == 3 && t.stale.inner == {ZERO} && |t.lv| > 1
    ensures t.Leaves() == [[s[0]], [s[1]], [s[2], s[3]]] && t.Contents() == ToMap(s)
  {
    hide IxIndexHandle.Valid, IxIndexHandle.Contents, IxIndexHandle.LeafOf, IxIndexHandle.ClearRoute, IxIndexHandle.Leaves;
    hide IxIndexHandle.LosesNothing, ToMap, Clean;
    var three := s[..3];
    FirstThree(s);
    PlainClean(Keys(three[1..]));
    t := Fill(3, firstByte, SameInt, buffer, three);
    assert t.Leaves() == [[s[0]], [s[1], s[2]]];
    t.KeyClear(s[3].key);
    LastLeafClean(t, s);
    Append(t, s[3]);
    assert [s[1], s[2]] + [s[3]] == [s[1], s[2], s[3]];
    assert [s[1], s[2], s[3]][..1] == [s[1]] && [s[1], s[2], s[3]][1..] == [s[2], s[3]];
    TwoLeaves(t);
  }

  // The split of the second of two leaves is clean, and the root has room for a third child.
  lemma LastLeafClean(t: IxIndexHandle, s: seq<Slot>)
    requires |s| == 4 && t.Valid() && t.order == 3 && t.same == SameInt && t.Leaves() == [[s[0]], [s[1], s[2]]]
    requires (forall i :: 0 <= i < |s| ==> s[i].key == i + 1) && t.Contents() == ToMap(s[..3])
    ensures t.LosesNothing(s[3].key)
  {
    hide TreeBut, Quiet, Known, Flat, Clean;
    FirstThree(s);
    TwoLeaves(t);
    TwoLevels(t);
    GreatestLast(t, s[3].key);
    LeafPage(t, 1);
    var p := t.lv[0][1];
    LowerBoundIs(t.Leaves()[1], 4, 2);
    assert WithKey(SlotsOf(t.pages, p), 4) == [2, 3, 4];
    assert [2, 3, 4][1..] == [3, 4];
    PlainClean([3, 4]);
  }

  // Two leaves hang below the root.
  lemma TwoLevels(t: IxIndexHandle)
    requires t.Valid() && |t.lv[0]| == 2 && |t.lv| > 1
    ensures |t.lv| == 2 && t.lv[1] == [t.rootPage] && |SlotsOf(t.pages, t.rootPage)| == 2
    ensures forall k :: 0 <= k < 2 ==> Par(t.pages, t.lv[0][k]) == t.rootPage && t.lv[0][k] != t.rootPage
  {
    hide Quiet, Known;
    TopIsRoot(t.pages, t.lv, t.rootPage);
    assert LinkAt(t.pages, t.lv, 0, true);
    if |t.lv| > 2 {
      TwoOrMore(t, 2);
      assert LinkAt(t.pages, t.lv, 1, true);
      TwoOrMore(t, 1);
    }
    FlatOne(t.pages, t.rootPage);
    forall k | 0 <= k < 2 ensures Par(t.pages, t.lv[0][k]) == t.rootPage && t.lv[0][k] != t.rootPage {
      var q, i := ParentOf(t.pages, t.lv[1], t.lv[0], k);
      ElsewhereNot(t.lv, 0, k, 1);
    }
  }

  lemma FirstThree(s: seq<Slot>)
    requires |s| == 4 && forall i :: 0 <= i < |s| ==> s[i].key == i + 1
    ensures Sorted(s) && Sorted(s[..3]) && s[3].key !in ToMap(s[..3]) && ToMap(s) == ToMap(s[..3])[s[3].key := s[3].rid]
    ensures forall k :: k in ToMap(s[..3]) ==> k < s[3].key
    ensures s[..3][..1] == [s[0]] && s[..3][1..] == [s[1], s[2]]
  {
    MapNext(s, 3);
    assert s[..4] == s;
    MapHas(s[..3]);
  }

  // Before a key is deleted that slot i of leaf k holds.
  lemma LeafToDelete(t: IxIndexHandle, k: nat, i: nat)
    requires t.Valid() && k < |t.Leaves()| && i < |t.Leaves()[k]| && forall s :: s in t.stale.inner ==> s.key != t.Leaves()[k][i].key
    ensures |t.lv| >= 1 && |t.lv[0]| == |t.Leaves()| && t.ClearRoute(t.Leaves()[k][i].key)
    ensures t.LeafOf(t.Leaves()[k][i].key) == t.lv[0][k] && t.lv[0][k] in t.pages
    ensures t.pages[t.lv[0][k]].slots == t.Leaves()[k] && t.pages[t.lv[0][k]].spare != []
    ensures LowerBound(t.Leaves()[k], t.Leaves()[k][i].key) == i && t.Leaves()[k][i].key in t.Contents()
    ensures forall a, b :: 0 <= a < b < |t.lv[0]| ==> t.lv[0][a] != t.lv[0][b]
  {
    hide TreeBut, Quiet, Known, Flat;
    LeafPage(t, k);
    LeafNumbers(t);
    LeafWith(t, k, i);
    LeafHolds(t, k, i);
    t.KeyClear(t.Leaves()[k][i].key);
    LeafRoom(t.pages, t.lv, t.rootPage, t.order, k);
    SortedFind(t.Leaves()[k], t.Leaves()[k][i].key, i);
  }

  lemma LeavesAre(t: IxIndexHandle)
    requires t.lv != []
    ensures t.Leaves() == LeafSlots(t.pages, t.lv[0])
  {
  }

  // The last key of the third of three leaves is deleted.
  method DropFourth(t: IxIndexHandle, s: seq<Slot>)
    requires t.Valid() && t.order == 3 && |t.lv| > 1 && t.stale.inner == {ZERO} && t.Contents() == ToMap(s)
    requires |s| == 4 && Sorted(s) && (forall i :: 0 <= i < |s| ==> s[i].key != 0) && t.Leaves() == [[s[0]], [s[1]], [s[2], s[3]]]
    modifies t
    ensures t.Valid() && |t.lv| > 1 && t.stale.inner == {ZERO} && t.Contents() == ToMap(s) - {s[3].key}
    ensures t.Leaves() == [[s[0]], [s[1]], [s[2]]]
  {
    hide IxIndexHandle.Valid, IxIndexHandle.Contents, IxIndexHandle.ClearRoute, IxIndexHandle.LeafOf, IxIndexHandle.Leaves;
    hide IxIndexHandle.Dropped, ToMap, Sorted;
    LeafToDelete(t, 2, 1);
    LeavesAre(t);
    MapHas(s);
    ghost var P, lw, root, K, leaf, M := t.pages, t.lv, t.rootPage, t.seen, t.LeafOf(s[3].key), t.Contents();
    var ok, j, how := t.DeleteEntry(s[3].key);
    t.DroppedStays(P, lw, root, K, leaf, s[3].key, j, how, M.Keys != {s[3].key});
    assert [s[2], s[3]][..1] + [s[2], s[3]][2..] == [s[2]];
  }

  // What the deletion of the only key of the third of three leaves is about to do.
  lemma ThirdGoes(t: IxIndexHandle, s: Slot, n: Node)
    requires t.Valid() && t.order == 3 && |t.Leaves()| == 3 && |t.Leaves()[1]| == 1 && t.Leaves()[2] == [s]
    requires t.Leaves()[1][0].key + 1 == s.key && |t.lv| >= 1 && |t.lv[0]| == 3
    requires t.lv[0][2] in t.pages && n == EraseAt(t.pages[t.lv[0][2]], 0)
    ensures var P := t.pages[t.lv[0][2] := n];
      && LastChildGoes(P, t.lv, 3, 2, 0) && |t.lv| == 2 && |t.lv[1]| == 1 && SlotsOf(P, t.lv[1][0]) != []
      && SlotsOf(P, t.lv[1][0])[|SlotsOf(P, t.lv[1][0])| - 1].key == s.key
      && SlotsOf(P, t.lv[1][0])[|SlotsOf(P, t.lv[1][0])| - 1].rid.pageNo == t.lv[0][2]
    ensures n.slots == [] && n.spare != [] && n.spare[0] == s
  {
    hide Quiet, Known, TreeBut, LastChildGoes;
    LeafPage(t, 1);
    LeafPage(t, 2);
    LastOfThreeGoes(t, n);
    ThreeLeaves(t);
    ThirdSeparator(t);
    InnerNotLeaf(t.pages, t.lv, t.rootPage, t.order, 1, 0, t.lv[0][2]);
  }

  /** The only key of the third of three leaves is deleted: the search for it goes from the root to the leaf that is
      released, where it is found. */
  method DropThird(t: IxIndexHandle, s: Slot) returns (ghost released: int)
    requires t.Valid() && t.order == 3 && |t.Leaves()| == 3 && |t.Leaves()[1]| == 1 && t.Leaves()[2] == [s]
    requires t.Leaves()[1][0].key + 1 == s.key && t.Contents().Keys != {s.key} && forall x :: x in t.stale.inner ==> x.key != s.key
    modifies t
    ensures t.Valid() && t.Contents() == old(t.Contents()) - {s.key} && !t.ClearRoute(s.key)
    ensures t.rootPage in t.pages && t.pages[t.rootPage].spare != [] && InternalLookup(t.pages[t.rootPage], s.key) == released
    ensures released in t.pages && t.pages[released].spare != [] && LeafLookup(t.pages[released], s.key).0
    ensures |t.lv| > 0 && released !in t.lv[0]
  {
    hide *;
    LeafToDelete(t, 2, 0);
    ghost var lv, n := t.lv, EraseAt(t.pages[t.lv[0][2]], 0);
    ghost var P, root, K, leaf, M := t.pages[t.lv[0][2] := n], t.rootPage, t.seen, t.LeafOf(s.key), t.Contents();
    ThirdGoes(t, s, n);
    var ok, j, how := t.DeleteEntry(s.key);
    t.DroppedLast(old(t.pages), lv, root, K, leaf, s.key, j, how, M.Keys != {s.key}, 0);
    released := lv[0][2];
    ReleasedFound(t, P, lv, s.key);
  }

  /** 1 to 4 are inserted at order 3, then 4 and 3 are deleted: the search for 3 goes from the root to the leaf that was
      released, where 3 is found. */
  method FindInReleased(firstByte: int -> int, buffer: seq<Slot>) returns (t: IxIndexHandle, ghost released: int)
    requires |buffer| == 4
    ensures t.Valid() && 3 !in t.Contents() && !t.ClearRoute(3)
    ensures t.rootPage in t.pages && t.pages[t.rootPage].spare != [] && InternalLookup(t.pages[t.rootPage], 3) == released
    ensures released in t.pages && t.pages[released].spare != [] && LeafLookup(t.pages[released], 3).0
    ensures |t.lv| > 0 && released !in t.lv[0]
  {
    hide IxIndexHandle.Valid, IxIndexHandle.Contents, IxIndexHandle.ClearRoute, IxIndexHandle.LeafOf, IxIndexHandle.Leaves;
    hide ToMap, InternalLookup, LeafLookup;
    var s := [Slot(1, Rid(2, 0)), Slot(2, Rid(2, 1)), Slot(3, Rid(2, 2)), Slot(4, Rid(2, 3))];
    MapHas(s);
    assert s[0].key in ToMap(s);
    t := ThreeLeavesOf(firstByte, buffer, s);
    DropFourth(t, s);
    assert s[0].key in t.Contents().Keys;
    released := DropThird(t, s[2]);
  }
}
