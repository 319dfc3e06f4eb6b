/** The reader-writer latch: a monitor with two condition variables, as a state machine over the steps of any number
    of threads. A step is what a thread does from getting the mutex to releasing it or waiting. */
module ReaderWriterLatch {
  import opened Cardinality

  // Where a thread is. The asleep phases wait on a condition variable and have not been notified; the ready ones have
  // been, and wait for the mutex.
  datatype Phase =
    | Outside
    | ReaderAsleep   // in RLock, on reader_
    | ReaderReady
    | EntryAsleep    // in the first loop of WLock, on reader_
    | EntryReady
    | DrainAsleep    // in the second loop of WLock, on writer_
    | DrainReady
    | Reading
    | Writing

  datatype Latch = Latch(readerCount: nat, writerEntered: bool, phase: map<Thread, Phase>)

  datatype Thread = Thread(id: int)

  // ---- the steps

  /** RLock, from the call or after a wake-up: one round of its loop. */
  function RLockRound(s: Latch, t: Thread, max: nat): Latch {
    if s.writerEntered || s.readerCount == max then s.(phase := s.phase[t := ReaderAsleep])
    else s.(readerCount := s.readerCount + 1, phase := s.phase[t := Reading])
  }

  /** The second loop of WLock. */
  function DrainRound(s: Latch, t: Thread): Latch {
    s.(phase := s.phase[t := if s.readerCount > 0 then DrainAsleep else Writing])
  }

  /** WLock, from the call or after a wake-up in its first loop. */
  function WLockRound(s: Latch, t: Thread): Latch {
    if s.writerEntered then s.(phase := s.phase[t := EntryAsleep])
    else DrainRound(s.(writerEntered := true), t)
  }

  function Woken(p: Phase): Phase {
    match p
    case ReaderAsleep => ReaderReady
    case EntryAsleep => EntryReady
    case DrainAsleep => DrainReady
    case _ => p
  }

  predicate OnReader(p: Phase) { p == ReaderAsleep || p == EntryAsleep }

  /** WUnlock: everyone who sleeps on reader_ is notified. */
  function WUnlock(s: Latch, t: Thread): Latch {
    var q := s.phase[t := Outside];
    Latch(s.readerCount, false, map x | x in q :: if OnReader(q[x]) then Woken(q[x]) else q[x])
  }

  // Asleep on writer_, or else on reader_.
  predicate OnVariable(p: Phase, writer: bool) {
    if writer then p == DrainAsleep else OnReader(p)
  }

  // notify_one on a condition variable: one of its sleepers wakes up, if there is one.
  ghost predicate NotifiedOne(q: map<Thread, Phase>, writer: bool, r: map<Thread, Phase>) {
    || (exists x :: x in q && OnVariable(q[x], writer) && r == q[x := Woken(q[x])])
    || ((forall x :: x in q ==> !OnVariable(q[x], writer)) && r == q)
  }

  /** RUnlock. */
  ghost predicate RUnlock(s: Latch, t: Thread, max: nat, u: Latch) {
    && s.readerCount > 0 && u.readerCount == s.readerCount - 1 && u.writerEntered == s.writerEntered
    && var q := s.phase[t := Outside];
       if s.writerEntered then
         if u.readerCount == 0 then NotifiedOne(q, true, u.phase) else u.phase == q
       else
         if u.readerCount == max - 1 then NotifiedOne(q, false, u.phase) else u.phase == q
  }

  /** One step of thread t. A waiting thread may also wake up without having been notified. */
  ghost predicate Step(s: Latch, t: Thread, max: nat, u: Latch) {
    t in s.phase &&
    var p := s.phase[t];
    || ((p == Outside || p == ReaderReady) && u == RLockRound(s, t, max))
    || ((p == Outside || p == EntryReady) && u == WLockRound(s, t))
    || (p == DrainReady && u == DrainRound(s, t))
    || (p == Writing && u == WUnlock(s, t))
    || (p == Reading && RUnlock(s, t, max, u))
    || u == s.(phase := s.phase[t := Woken(p)])
  }

  ghost predicate Initial(s: Latch) {
    s.readerCount == 0 && !s.writerEntered && forall t :: t in s.phase ==> s.phase[t] == Outside
  }

  /** Any interleaving of the steps of the threads. */
  ghost predicate Run(ss: seq<Latch>, max: nat) {
    ss != [] && Initial(ss[0]) && forall k :: 0 <= k < |ss| - 1 ==> Stepped(ss, k, max)
  }

  ghost predicate Stepped(ss: seq<Latch>, k: int, max: nat)
    requires 0 <= k < |ss| - 1
  {
    SomeStep(ss[k], max, ss[k + 1])
  }

  ghost predicate SomeStep(s: Latch, max: nat, u: Latch) {
    exists t :: Step(s, t, max, u)
  }

  // ---- the invariants

  ghost function Readers(s: Latch): set<Thread> {
    set t | t in s.phase && s.phase[t] == Reading
  }

  // The thread that has set writer_entered_ and not yet reset it.
  predicate Entered(p: Phase) { p == DrainAsleep || p == DrainReady || p == Writing }

  /** The counts are right and the writer is alone. */
  ghost predicate Safe(s: Latch, max: nat) {
    && s.readerCount == |Readers(s)| <= max
    && (s.writerEntered <==> exists t :: t in s.phase && Entered(s.phase[t]))
    && (forall a, b :: a in s.phase && b in s.phase && Entered(s.phase[a]) && Entered(s.phase[b]) ==> a == b)
    && (forall t :: t in s.phase && s.phase[t] == Writing ==> s.readerCount == 0)
    && (forall t :: t in s.phase && s.phase[t] == DrainAsleep ==> s.readerCount > 0)
  }

  /** Who sleeps on reader_ waits for the writer or found the latch full. */
  ghost predicate Attended(s: Latch, max: nat) {
    forall t :: t in s.phase && OnReader(s.phase[t]) ==> s.writerEntered || s.readerCount == max
  }

  lemma ReadersSame(s: Latch, u: Latch)
    requires s.phase.Keys == u.phase.Keys
    requires forall x :: x in s.phase ==> (s.phase[x] == Reading <==> u.phase[x] == Reading)
    ensures Readers(s) == Readers(u)
  {
  }

  // A thread goes from one phase outside of the latch to another.
  lemma MoveKeeps(s: Latch, t: Thread, p: Phase, max: nat)
    requires Safe(s, max) && t in s.phase && s.phase[t] != Reading && !Entered(s.phase[t]) && p != Reading && !Entered(p)
    ensures Safe(s.(phase := s.phase[t := p]), max)
  {
    hide Readers;
    var u := s.(phase := s.phase[t := p]);
    ReadersSame(s, u);
    if s.writerEntered {
      var w :| w in s.phase && Entered(s.phase[w]);
      assert w in u.phase && Entered(u.phase[w]);
    }
  }

  lemma RLockKeeps(s: Latch, t: Thread, max: nat)
    requires Safe(s, max) && t in s.phase && (s.phase[t] == Outside || s.phase[t] == ReaderReady)
    ensures Safe(RLockRound(s, t, max), max)
  {
    if s.writerEntered || s.readerCount == max {
      MoveKeeps(s, t, ReaderAsleep, max);
    } else {
      var u := RLockRound(s, t, max);
      assert Readers(u) == Readers(s) + {t};
    }
  }

  lemma WLockKeeps(s: Latch, t: Thread, max: nat)
    requires Safe(s, max) && t in s.phase && (s.phase[t] == Outside || s.phase[t] == EntryReady)
    ensures Safe(WLockRound(s, t), max)
  {
    if s.writerEntered {
      MoveKeeps(s, t, EntryAsleep, max);
    } else {
      var u := WLockRound(s, t);
      ReadersSame(s, u);
      assert t in u.phase && Entered(u.phase[t]);
    }
  }

  lemma DrainKeeps(s: Latch, t: Thread, max: nat)
    requires Safe(s, max) && t in s.phase && s.phase[t] == DrainReady
    ensures Safe(DrainRound(s, t), max)
  {
    var u := DrainRound(s, t);
    ReadersSame(s, u);
    assert t in u.phase && Entered(u.phase[t]);
  }

  lemma WUnlockKeeps(s: Latch, t: Thread, max: nat)
    requires Safe(s, max) && t in s.phase && s.phase[t] == Writing
    ensures Safe(WUnlock(s, t), max)
  {
    var u := WUnlock(s, t);
    ReadersSame(s, u);
  }

  lemma WakeKeeps(s: Latch, t: Thread, max: nat)
    requires Safe(s, max) && t in s.phase
    ensures Safe(s.(phase := s.phase[t := Woken(s.phase[t])]), max)
  {
    var u := s.(phase := s.phase[t := Woken(s.phase[t])]);
    ReadersSame(s, u);
    if s.writerEntered {
      var w :| w in s.phase && Entered(s.phase[w]);
      assert w in u.phase && Entered(u.phase[w]);
    }
  }

  // What a reader that leaves may change besides its own phase.
  lemma LeaverNotifies(s: Latch, t: Thread, max: nat, u: Latch)
    requires t in s.phase && RUnlock(s, t, max, u)
    ensures u.phase.Keys == s.phase.Keys
    ensures forall x :: x in s.phase && x != t ==> u.phase[x] == s.phase[x] || u.phase[x] == Woken(s.phase[x])
    ensures u.phase[t] == Outside
  {
  }

  lemma OneReaderLess(s: Latch, t: Thread, u: Latch)
    requires t in s.phase && s.phase[t] == Reading && u.phase.Keys == s.phase.Keys && u.phase[t] == Outside
    requires forall x :: x in s.phase && x != t ==> u.phase[x] == s.phase[x] || u.phase[x] == Woken(s.phase[x])
    ensures |Readers(u)| == |Readers(s)| - 1
  {
    assert Readers(u) == Readers(s) - {t};
  }

  lemma RUnlockKeeps(s: Latch, t: Thread, max: nat, u: Latch)
    requires Safe(s, max) && t in s.phase && s.phase[t] == Reading && RUnlock(s, t, max, u)
    ensures Safe(u, max)
  {
    hide RUnlock, Readers;
    LeaverNotifies(s, t, max, u);
    LeaverCounts(s, t, max, u);
    OneReaderLess(s, t, u);
    if s.writerEntered {
      var w :| w in s.phase && Entered(s.phase[w]);
      assert w in u.phase && Entered(u.phase[w]);
    }
  }

  // The count goes down, and a writer waiting for the last reader is notified.
  lemma LeaverCounts(s: Latch, t: Thread, max: nat, u: Latch)
    requires Safe(s, max) && t in s.phase && s.phase[t] == Reading && RUnlock(s, t, max, u)
    ensures u.readerCount == s.readerCount - 1 && u.writerEntered == s.writerEntered
    ensures forall x :: x in u.phase && u.phase[x] == DrainAsleep ==> u.readerCount > 0
  {
    hide Readers;
    var q := s.phase[t := Outside];
    forall x | x in u.phase && u.phase[x] == DrainAsleep ensures u.readerCount > 0 {
      assert x in q && OnVariable(q[x], true);
      assert forall y :: y in q && OnVariable(q[y], true) ==> y == x;
    }
  }

  /** Every step keeps the latch safe, for any number of threads. */
  lemma StepKeeps(s: Latch, t: Thread, max: nat, u: Latch)
    requires Safe(s, max) && Step(s, t, max, u)
    ensures Safe(u, max) && u.phase.Keys == s.phase.Keys
  {
    hide Safe;
    var p := s.phase[t];
    if (p == Outside || p == ReaderReady) && u == RLockRound(s, t, max) {
      RLockKeeps(s, t, max);
    } else if (p == Outside || p == EntryReady) && u == WLockRound(s, t) {
      WLockKeeps(s, t, max);
    } else if p == DrainReady && u == DrainRound(s, t) {
      DrainKeeps(s, t, max);
    } else if p == Writing && u == WUnlock(s, t) {
      WUnlockKeeps(s, t, max);
    } else if p == Reading && RUnlock(s, t, max, u) {
      RUnlockKeeps(s, t, max, u);
    } else {
      WakeKeeps(s, t, max);
    }
  }

  // When the latch is full, at most one of MAX_READERS + 1 threads does not read.
  lemma OneBesides(s: Latch, max: nat, a: Thread, b: Thread)
    requires Safe(s, max) && |s.phase| <= max + 1 && s.readerCount == max
    requires a in s.phase && b in s.phase && s.phase[a] != Reading && s.phase[b] != Reading
    ensures a == b
  {
    if a != b {
      var K := s.phase.Keys;
      assert |K| == |s.phase|;
      var others := K - {a, b};
      assert others + {a, b} == K;
      SubsetSize(Readers(s), others);
    }
  }

  // A full latch that a reader leaves: the one thread that may sleep is notified.
  lemma FullLeft(s: Latch, t: Thread, max: nat, u: Latch)
    requires Safe(s, max) && |s.phase| <= max + 1 && !s.writerEntered && s.readerCount == max
    requires t in s.phase && s.phase[t] == Reading && RUnlock(s, t, max, u)
    ensures forall x :: x in u.phase ==> !OnReader(u.phase[x])
  {
    hide Safe;
    var q := s.phase[t := Outside];
    forall x | x in u.phase && OnReader(u.phase[x]) ensures false {
      assert OnVariable(q[x], false);
      var y :| y in q && OnVariable(q[y], false) && u.phase == q[y := Woken(q[y])];
      OneBesides(s, max, x, y);
    }
  }

  /** No step of up to MAX_READERS + 1 threads leaves a sleeper unattended. */
  lemma StepAttends(s: Latch, t: Thread, max: nat, u: Latch)
    requires Safe(s, max) && Attended(s, max) && |s.phase| <= max + 1 && Step(s, t, max, u)
    ensures Attended(u, max)
  {
    hide Safe;
    if s.phase[t] == Reading && RUnlock(s, t, max, u) {
      if !s.writerEntered && s.readerCount == max {
        FullLeft(s, t, max, u);
      } else {
        LeaverNotifies(s, t, max, u);
      }
    }
  }

  lemma NobodyReads(s: Latch)
    requires forall t :: t in s.phase ==> s.phase[t] != Reading
    ensures Readers(s) == {}
  {
  }

  lemma {:induction false} RunKeeps(ss: seq<Latch>, max: nat, k: nat)
    requires Run(ss, max) && k < |ss|
    ensures Safe(ss[k], max) && ss[k].phase.Keys == ss[0].phase.Keys
    ensures |ss[0].phase| <= max + 1 ==> Attended(ss[k], max)
  {
    if k == 0 {
      NobodyReads(ss[0]);
    } else {
      RunKeeps(ss, max, k - 1);
      assert Stepped(ss, k - 1, max);
      var t :| Step(ss[k - 1], t, max, ss[k]);
      assert |ss[k - 1].phase| == |ss[k - 1].phase.Keys| == |ss[0].phase.Keys| == |ss[0].phase|;
      StepKeeps(ss[k - 1], t, max, ss[k]);
      if |ss[0].phase| <= max + 1 {
        StepAttends(ss[k - 1], t, max, ss[k]);
      }
    }
  }

  // ---- what the invariant means

  ghost predicate Holds(s: Latch, t: Thread) {
    t in s.phase && (s.phase[t] == Reading || s.phase[t] == Writing)
  }

  ghost predicate Asleep(s: Latch, t: Thread) {
    t in s.phase && (OnReader(s.phase[t]) || s.phase[t] == DrainAsleep)
  }

  /** In every run of any number of threads: a writer inside excludes all others, and the reader count is the number
      of readers inside and at most MAX_READERS. */
  lemma MutualExclusion(ss: seq<Latch>, max: nat, k: nat, a: Thread, b: Thread)
    requires Run(ss, max) && k < |ss|
    ensures ss[k].readerCount == |Readers(ss[k])| <= max
    ensures Holds(ss[k], a) && ss[k].phase[a] == Writing && Holds(ss[k], b) ==> a == b
  {
    RunKeeps(ss, max, k);
    var s := ss[k];
    assert Holds(s, b) && s.phase[b] == Reading ==> b in Readers(s);
    assert s.readerCount == 0 ==> Readers(s) == {};
    assert Holds(s, b) && s.phase[b] == Writing ==> Entered(s.phase[b]);
  }

  lemma NoNewReader(s: Latch, t: Thread, max: nat, u: Latch)
    requires s.writerEntered && Step(s, t, max, u)
    ensures Readers(u) <= Readers(s)
  {
  }

  /** From the moment that a writer has announced itself until it leaves, no thread becomes a reader. */
  lemma {:induction false} NoNewReaders(ss: seq<Latch>, max: nat, j: nat, k: nat)
    requires Run(ss, max) && j <= k < |ss| && forall i :: j <= i <= k ==> ss[i].writerEntered
    ensures Readers(ss[k]) <= Readers(ss[j])
    decreases k
  {
    if j < k {
      NoNewReaders(ss, max, j, k - 1);
      assert Stepped(ss, k - 1, max);
      var t :| Step(ss[k - 1], t, max, ss[k]);
      NoNewReader(ss[k - 1], t, max, ss[k]);
    }
  }

  // Someone has the latch, or the writer that has announced itself is notified and on its way in.
  ghost predicate Busy(s: Latch) {
    exists x :: Holds(s, x) || (x in s.phase && s.phase[x] == DrainReady)
  }

  /** No lost wake-up among up to MAX_READERS + 1 threads: when a thread sleeps un-notified, the latch is busy. */
  lemma NoLostSleeper(ss: seq<Latch>, max: nat, k: nat, t: Thread)
    requires max >= 1 && Run(ss, max) && |ss[0].phase| <= max + 1 && k < |ss| && Asleep(ss[k], t)
    ensures Busy(ss[k])
  {
    RunKeeps(ss, max, k);
    var s := ss[k];
    if s.writerEntered {
      var w :| w in s.phase && Entered(s.phase[w]);
      if s.phase[w] == DrainAsleep {
        var r := Member(Readers(s));
        assert Holds(s, r);
      } else {
        assert Holds(s, w) || s.phase[w] == DrainReady;
      }
    } else {
      assert OnReader(s.phase[t]);
      var r := Member(Readers(s));
      assert Holds(s, r);
    }
  }

  // ---- one thread more

  /** n threads, MAX_READERS + 2 or more: numbers lo + 1 to hi read, the two behind the first MAX_READERS are in phases a
      and b, and all others outside. */
  function Crowd(n: nat, max: nat, lo: nat, hi: nat, a: Phase, b: Phase): Latch
    requires lo <= hi <= max && n >= max + 2
  {
    Latch(hi - lo + if a == Reading then 1 else 0, false,
          map i | 1 <= i <= n :: Thread(i) :=
            if i == max + 1 then a else if i == max + 2 then b else if lo < i <= hi then Reading else Outside)
  }

  lemma Extend(ss: seq<Latch>, t: Thread, max: nat, u: Latch) returns (more: seq<Latch>)
    requires Run(ss, max) && Step(ss[|ss| - 1], t, max, u)
    ensures Run(more, max) && more == ss + [u] && more[|ss|] == u && more[0] == ss[0]
  {
    more := ss + [u];
    forall k | 0 <= k < |more| - 1 ensures Stepped(more, k, max) {
      if k < |ss| - 1 {
        assert Stepped(ss, k, max);
      } else {
        assert SomeStep(ss[k], max, u);
      }
    }
  }

  // As many readers enter as the latch admits, and two more fall asleep.
  lemma FillUp(n: nat, max: nat) returns (ss: seq<Latch>)
    requires max >= 1 && n >= max + 2
    ensures Run(ss, max) && ss[0] == Crowd(n, max, 0, 0, Outside, Outside)
    ensures ss[|ss| - 1] == Crowd(n, max, 0, max, ReaderAsleep, ReaderAsleep)
  {
    ss := [Crowd(n, max, 0, 0, Outside, Outside)];
    var i := 0;
    while i < max
      invariant i <= max && Run(ss, max) && ss[0] == Crowd(n, max, 0, 0, Outside, Outside)
      invariant ss[|ss| - 1] == Crowd(n, max, 0, i, Outside, Outside)
    {
      EntersCrowd(n, max, i);
      ss := Extend(ss, Thread(i + 1), max, Crowd(n, max, 0, i + 1, Outside, Outside));
      i := i + 1;
    }
    SleepsInCrowd(n, max, false);
    ss := Extend(ss, Thread(max + 1), max, Crowd(n, max, 0, max, ReaderAsleep, Outside));
    SleepsInCrowd(n, max, true);
    ss := Extend(ss, Thread(max + 2), max, Crowd(n, max, 0, max, ReaderAsleep, ReaderAsleep));
  }

  lemma EntersCrowd(n: nat, max: nat, i: nat)
    requires i < max && n >= max + 2
    ensures Crowd(n, max, 0, i + 1, Outside, Outside) == RLockRound(Crowd(n, max, 0, i, Outside, Outside), Thread(i + 1), max)
  {
    var s, u := Crowd(n, max, 0, i, Outside, Outside), Crowd(n, max, 0, i + 1, Outside, Outside);
    assert u.phase == s.phase[Thread(i + 1) := Reading];
  }

  lemma SleepsInCrowd(n: nat, max: nat, second: bool)
    requires n >= max + 2
    ensures var s := Crowd(n, max, 0, max, if second then ReaderAsleep else Outside, Outside);
      RLockRound(s, Thread(if second then max + 2 else max + 1), max)
        == Crowd(n, max, 0, max, ReaderAsleep, if second then ReaderAsleep else Outside)
  {
    var s := Crowd(n, max, 0, max, if second then ReaderAsleep else Outside, Outside);
    var u := Crowd(n, max, 0, max, ReaderAsleep, if second then ReaderAsleep else Outside);
    assert u.phase == s.phase[Thread(if second then max + 2 else max + 1) := ReaderAsleep];
  }

  // The first reader that leaves notifies one sleeper, those after it nobody.
  lemma LeavesCrowd(n: nat, max: nat, k: nat)
    requires k < max && n >= max + 2
    ensures RUnlock(Crowd(n, max, k, max, if k == 0 then ReaderAsleep else ReaderReady, ReaderAsleep), Thread(k + 1), max,
                    Crowd(n, max, k + 1, max, ReaderReady, ReaderAsleep))
  {
    var s := Crowd(n, max, k, max, if k == 0 then ReaderAsleep else ReaderReady, ReaderAsleep);
    var u := Crowd(n, max, k + 1, max, ReaderReady, ReaderAsleep);
    var q := s.phase[Thread(k + 1) := Outside];
    if k == 0 {
      var x := Thread(max + 1);
      assert x in q && OnVariable(q[x], false) && u.phase == q[x := Woken(q[x])];
    } else {
      assert u.phase == q;
    }
  }

  lemma Empties(ss: seq<Latch>, n: nat, max: nat) returns (more: seq<Latch>)
    requires max >= 1 && n >= max + 2 && Run(ss, max) && ss[|ss| - 1] == Crowd(n, max, 0, max, ReaderAsleep, ReaderAsleep)
    ensures Run(more, max) && more[0] == ss[0] && more[|more| - 1] == Crowd(n, max, max, max, ReaderReady, ReaderAsleep)
  {
    more := ss;
    var k := 0;
    while k < max
      invariant k <= max && Run(more, max) && more[0] == ss[0]
      invariant more[|more| - 1] == Crowd(n, max, k, max, if k == 0 then ReaderAsleep else ReaderReady, ReaderAsleep)
    {
      LeavesCrowd(n, max, k);
      more := Extend(more, Thread(k + 1), max, Crowd(n, max, k + 1, max, ReaderReady, ReaderAsleep));
      k := k + 1;
    }
  }

  // The thread that was notified enters and leaves again, and notifies nobody.
  lemma PassesThrough(n: nat, max: nat)
    requires max >= 2 && n >= max + 2
    ensures RLockRound(Crowd(n, max, max, max, ReaderReady, ReaderAsleep), Thread(max + 1), max)
      == Crowd(n, max, max, max, Reading, ReaderAsleep)
    ensures RUnlock(Crowd(n, max, max, max, Reading, ReaderAsleep), Thread(max + 1), max,
                    Crowd(n, max, max, max, Outside, ReaderAsleep))
  {
    var t := Thread(max + 1);
    var s, m, u := Crowd(n, max, max, max, ReaderReady, ReaderAsleep), Crowd(n, max, max, max, Reading, ReaderAsleep),
      Crowd(n, max, max, max, Outside, ReaderAsleep);
    assert m.phase == s.phase[t := Reading] && u.phase == m.phase[t := Outside];
  }

  lemma ReaderSteps(n: nat, max: nat)
    requires max >= 2 && n >= max + 2
    ensures Step(Crowd(n, max, max, max, ReaderReady, ReaderAsleep), Thread(max + 1), max, Crowd(n, max, max, max, Reading, ReaderAsleep))
    ensures Step(Crowd(n, max, max, max, Reading, ReaderAsleep), Thread(max + 1), max, Crowd(n, max, max, max, Outside, ReaderAsleep))
  {
    PassesThrough(n, max);
  }

  lemma {:induction false} ThreadsCounted(n: nat)
    ensures |set i | 1 <= i <= n :: Thread(i)| == n
  {
    var A, B := set i | 1 <= i <= n :: Thread(i), set i | 1 <= i <= n - 1 :: Thread(i);
    if n > 0 {
      ThreadsCounted(n - 1);
      assert A == B + {Thread(n)};
    } else {
      assert A == {};
    }
  }

  // All readers have left, one thread was notified and the other one sleeps on.
  lemma LeftBehind(n: nat, max: nat, a: Phase)
    requires n >= max + 2 && (a == ReaderReady || a == Outside)
    ensures var s := Crowd(n, max, max, max, a, ReaderAsleep); Asleep(s, Thread(max + 2)) && !Busy(s)
    ensures a == Outside ==> forall x :: x in Crowd(n, max, max, max, a, ReaderAsleep).phase && x != Thread(max + 2) ==>
      Crowd(n, max, max, max, a, ReaderAsleep).phase[x] == Outside
  {
  }

  lemma CrowdSize(n: nat, max: nat)
    requires n >= max + 2
    ensures |Crowd(n, max, 0, 0, Outside, Outside).phase| == n
  {
    ThreadsCounted(n);
    assert Crowd(n, max, 0, 0, Outside, Outside).phase.Keys == set i | 1 <= i <= n :: Thread(i);
  }

  /** The bound is exact: with MAX_READERS + 2 threads or more a sleeper can be left behind while nobody has the latch or
      is on the way to write; if MAX_READERS is not 1, even when all other threads are gone. */
  lemma LostWithTooMany(n: nat, max: nat) returns (ss: seq<Latch>, s: Latch)
    requires max >= 1 && n >= max + 2
    ensures Run(ss, max) && |ss[0].phase| == n && s == ss[|ss| - 1]
    ensures Asleep(s, Thread(max + 2)) && !Busy(s)
    ensures max >= 2 ==> forall x :: x in s.phase && x != Thread(max + 2) ==> s.phase[x] == Outside
  {
    hide Crowd, Run, Asleep, Busy, Step;
    CrowdSize(n, max);
    ss := FillUp(n, max);
    ss := Empties(ss, n, max);
    LeftBehind(n, max, ReaderReady);
    if max >= 2 {
      LeftBehind(n, max, Outside);
      ReaderSteps(n, max);
      ss := Extend(ss, Thread(max + 1), max, Crowd(n, max, max, max, Reading, ReaderAsleep));
      ss := Extend(ss, Thread(max + 1), max, Crowd(n, max, max, max, Outside, ReaderAsleep));
    }
    s := ss[|ss| - 1];
  }

  // In some state of the run, the thread sleeps un-notified and the latch is not busy.
  ghost predicate LeavesBehind(ss: seq<Latch>, max: nat, n: nat, k: nat, t: Thread) {
    Run(ss, max) && |ss[0].phase| == n && k < |ss| && Asleep(ss[k], t) && !Busy(ss[k])
  }

  /** Some run of n threads leaves a sleeper behind exactly if there are MAX_READERS + 2 of them or more. */
  lemma SleeperLostExactly(n: nat, max: nat)
    requires max >= 1
    ensures (exists ss, k, t :: LeavesBehind(ss, max, n, k, t)) <==> n >= max + 2
  {
    hide Run, Asleep, Busy;
    if n >= max + 2 {
      var ss, s := LostWithTooMany(n, max);
      RunSome(ss, max);
      assert LeavesBehind(ss, max, n, |ss| - 1, Thread(max + 2));
    }
    if ss: seq<Latch>, k: nat, t: Thread :| LeavesBehind(ss, max, n, k, t) {
      if n < max + 2 {
        NoLostSleeper(ss, max, k, t);
      }
    }
  }

  lemma RunSome(ss: seq<Latch>, max: nat)
    requires Run(ss, max)
    ensures |ss| > 0
  {
  }
}
