/** The reader-writer latch lets threads in: what each call does to the thread that makes it, and ways from every
    reachable state to one in which a given thread has the latch. */
module LatchProgress {
  import opened Cardinality
  import opened ReaderWriterLatch

  // No thread has announced itself to write.
  ghost predicate NoWriter(s: Latch) {
    forall x :: x in s.phase ==> !Entered(s.phase[x])
  }

  lemma NoneRead(s: Latch, max: nat)
    requires Safe(s, max)
    ensures s.readerCount == 0 <==> forall x :: x in s.phase ==> s.phase[x] != Reading
    ensures !s.writerEntered <==> NoWriter(s)
  {
    if s.readerCount == 0 {
      forall x | x in s.phase ensures s.phase[x] != Reading {
        assert Readers(s) == {};
        assert x !in Readers(s);
      }
    } else {
      var r := Member(Readers(s));
      assert r in s.phase && s.phase[r] == Reading;
    }
  }

  /** WLock, and its first loop after a wake-up: the thread writes at once exactly if nobody else has the latch or has
      announced itself to write; behind another writer it sleeps on reader_, behind readers on writer_. */
  lemma WLockExact(s: Latch, t: Thread, max: nat, u: Latch)
    requires Safe(s, max) && t in s.phase && (s.phase[t] == Outside || s.phase[t] == EntryReady) && u == WLockRound(s, t)
    ensures Step(s, t, max, u) && t in u.phase && forall x :: x in s.phase && x != t ==> x in u.phase && u.phase[x] == s.phase[x]
    ensures u.phase[t] == Writing <==> NoWriter(s) && forall x :: x in s.phase ==> s.phase[x] != Reading
    ensures u.phase[t] == EntryAsleep <==> !NoWriter(s)
    ensures u.phase[t] == DrainAsleep <==> NoWriter(s) && exists x :: x in s.phase && s.phase[x] == Reading
  {
    hide Safe;
    NoneRead(s, max);
  }

  /** The second loop of WLock after a wake-up: the thread writes exactly if no reader is left. */
  lemma DrainExact(s: Latch, t: Thread, max: nat, u: Latch)
    requires Safe(s, max) && t in s.phase && s.phase[t] == DrainReady && u == DrainRound(s, t)
    ensures Step(s, t, max, u) && t in u.phase && forall x :: x in s.phase && x != t ==> x in u.phase && u.phase[x] == s.phase[x]
    ensures u.phase[t] == Writing <==> forall x :: x in s.phase ==> s.phase[x] != Reading
    ensures u.phase[t] == DrainAsleep <==> exists x :: x in s.phase && s.phase[x] == Reading
  {
    hide Safe;
    NoneRead(s, max);
  }

  /** RLock, and its loop after a wake-up: the thread reads exactly if no writer has announced itself and there are fewer
      than MAX_READERS readers; otherwise it sleeps on reader_. */
  lemma RLockExact(s: Latch, t: Thread, max: nat, u: Latch)
    requires Safe(s, max) && t in s.phase && (s.phase[t] == Outside || s.phase[t] == ReaderReady) && u == RLockRound(s, t, max)
    ensures Step(s, t, max, u) && t in u.phase && forall x :: x in s.phase && x != t ==> x in u.phase && u.phase[x] == s.phase[x]
    ensures u.phase[t] == Reading <==> NoWriter(s) && |Readers(s)| < max
    ensures u.phase[t] == ReaderAsleep <==> !(NoWriter(s) && |Readers(s)| < max)
  {
    NoneRead(s, max);
  }

  /** WUnlock: the thread is outside, no writer is announced, and everyone who slept on reader_ is notified. */
  lemma WUnlockExact(s: Latch, t: Thread, max: nat, u: Latch)
    requires Safe(s, max) && t in s.phase && s.phase[t] == Writing && u == WUnlock(s, t)
    ensures Step(s, t, max, u) && t in u.phase && u.phase[t] == Outside && NoWriter(u) && u.readerCount == 0
    ensures forall x :: x in s.phase && x != t ==> x in u.phase && u.phase[x] == match s.phase[x]
      case ReaderAsleep => ReaderReady
      case EntryAsleep => EntryReady
      case p => p
  {
    WUnlockKeeps(s, t, max);
  }

  // ---- the readers leave

  // A thread has not moved but for a notification.
  ghost predicate Roused(s: Latch, u: Latch, t: Thread) {
    t in s.phase && t in u.phase && (u.phase[t] == s.phase[t] || u.phase[t] == Woken(s.phase[t]))
  }

  /** RUnlock is never held up. */
  lemma LeaverStep(s: Latch, t: Thread, max: nat) returns (u: Latch)
    requires Safe(s, max) && t in s.phase && s.phase[t] == Reading
    ensures Step(s, t, max, u) && RUnlock(s, t, max, u) && u.phase.Keys == s.phase.Keys && u.phase[t] == Outside
    ensures u.readerCount == s.readerCount - 1 && forall x :: x in s.phase && x != t ==> Roused(s, u, x)
  {
    assert t in Readers(s);
    var q := s.phase[t := Outside];
    var writer := s.writerEntered;
    u := s.(readerCount := s.readerCount - 1, phase := q);
    if if writer then s.readerCount == 1 else s.readerCount == max {
      if x :| x in q && OnVariable(q[x], writer) {
        u := u.(phase := q[x := Woken(q[x])]);
      }
      assert NotifiedOne(q, writer, u.phase);
    }
  }

  lemma LastSafe(ss: seq<Latch>, max: nat)
    requires Run(ss, max)
    ensures |ss| > 0 && Safe(ss[|ss| - 1], max)
  {
    RunKeeps(ss, max, |ss| - 1);
  }

  // All readers leave one after the other.
  lemma {:induction false} ReadersLeave(ss: seq<Latch>, t: Thread, max: nat) returns (more: seq<Latch>)
    requires Run(ss, max) && t in ss[|ss| - 1].phase && ss[|ss| - 1].phase[t] != Reading
    ensures Run(more, max) && ss <= more && more[|more| - 1].readerCount == 0 && Roused(ss[|ss| - 1], more[|more| - 1], t)
    decreases ss[|ss| - 1].readerCount
  {
    hide Run, Safe, Step, RUnlock;
    LastSafe(ss, max);
    var s := ss[|ss| - 1];
    if s.readerCount == 0 {
      more := ss;
    } else {
      NoneRead(s, max);
      var r :| r in s.phase && s.phase[r] == Reading;
      var u := LeaverStep(s, r, max);
      var next := Extend(ss, r, max, u);
      more := ReadersLeave(next, t, max);
    }
  }

  // The writer that has announced itself writes, where the readers have left.
  lemma WriterWrites(ss: seq<Latch>, w: Thread, max: nat) returns (more: seq<Latch>)
    requires Run(ss, max) && w in ss[|ss| - 1].phase && Entered(ss[|ss| - 1].phase[w]) && ss[|ss| - 1].readerCount == 0
    ensures Run(more, max) && ss <= more
    ensures var s, u := ss[|ss| - 1], more[|more| - 1];
      w in u.phase && u.phase[w] == Writing && forall x :: x in s.phase && x != w ==> x in u.phase && u.phase[x] == s.phase[x]
  {
    hide Run, Step, WLockRound, RLockRound, DrainRound, WUnlock;
    LastSafe(ss, max);
    var s := ss[|ss| - 1];
    NoneRead(s, max);
    if s.phase[w] == DrainReady {
      var u := DrainRound(s, w);
      DrainExact(s, w, max, u);
      more := Extend(ss, w, max, u);
    } else {
      more := ss;
    }
  }

  // From every state on, all who have the latch can leave it.
  lemma Vacated(ss: seq<Latch>, t: Thread, max: nat) returns (more: seq<Latch>)
    requires Run(ss, max) && t in ss[|ss| - 1].phase && var p := ss[|ss| - 1].phase[t]; p != Reading && !Entered(p)
    ensures Run(more, max) && ss <= more && Roused(ss[|ss| - 1], more[|more| - 1], t)
    ensures var u := more[|more| - 1]; u.readerCount == 0 && NoWriter(u)
  {
    hide Run, Step, WLockRound, RLockRound, DrainRound, WUnlock;
    LastSafe(ss, max);
    more := ReadersLeave(ss, t, max);
    LastSafe(more, max);
    var s := more[|more| - 1];
    NoneRead(s, max);
    if w :| w in s.phase && Entered(s.phase[w]) {
      more := WriterWrites(more, w, max);
      LastSafe(more, max);
      s := more[|more| - 1];
      var u := WUnlock(s, w);
      WUnlockExact(s, w, max, u);
      more := Extend(more, w, max, u);
    }
  }

  /** Whatever has happened, a thread that wants to write can still get the latch. */
  lemma WriterGetsIn(ss: seq<Latch>, t: Thread, max: nat) returns (more: seq<Latch>)
    requires Run(ss, max) && t in ss[|ss| - 1].phase
    requires var p := ss[|ss| - 1].phase[t]; p == Outside || p == EntryReady || p == DrainAsleep || p == DrainReady
    ensures Run(more, max) && ss <= more && t in more[|more| - 1].phase && more[|more| - 1].phase[t] == Writing
  {
    hide Run, Step, Safe;
    LastSafe(ss, max);
    if Entered(ss[|ss| - 1].phase[t]) {
      more := ReadersLeave(ss, t, max);
      LastSafe(more, max);
      more := WriterWrites(more, t, max);
    } else {
      more := Vacated(ss, t, max);
      LastSafe(more, max);
      var s := more[|more| - 1];
      NoneRead(s, max);
      var u := WLockRound(s, t);
      WLockExact(s, t, max, u);
      more := Extend(more, t, max, u);
    }
  }

  /** And so can a thread that wants to read. */
  lemma ReaderGetsIn(ss: seq<Latch>, t: Thread, max: nat) returns (more: seq<Latch>)
    requires Run(ss, max) && max >= 1 && t in ss[|ss| - 1].phase
    requires var p := ss[|ss| - 1].phase[t]; p == Outside || p == ReaderReady
    ensures Run(more, max) && ss <= more && t in more[|more| - 1].phase && more[|more| - 1].phase[t] == Reading
  {
    hide Run, Step, WLockRound, RLockRound, DrainRound, WUnlock;
    LastSafe(ss, max);
    more := Vacated(ss, t, max);
    LastSafe(more, max);
    var s := more[|more| - 1];
    var u := RLockRound(s, t, max);
    RLockExact(s, t, max, u);
    more := Extend(more, t, max, u);
  }

  /** A writer that has announced itself is let in by the leaving of the readers alone: in every run, from then on and
      while it waits the readers only become fewer, and once they have left it is awake, and its next step takes it in. */
  lemma WaitingWriter(ss: seq<Latch>, w: Thread, max: nat, j: nat, k: nat)
    requires Run(ss, max) && j <= k < |ss| && forall i :: j <= i <= k ==> w in ss[i].phase && (ss[i].phase[w] == DrainAsleep || ss[i].phase[w] == DrainReady)
    ensures Readers(ss[k]) <= Readers(ss[j])
    ensures Readers(ss[k]) == {} ==> ss[k].phase[w] == DrainReady && DrainRound(ss[k], w).phase[w] == Writing
  {
    hide Run;
    forall i | j <= i <= k ensures ss[i].writerEntered {
      RunKeeps(ss, max, i);
      assert Entered(ss[i].phase[w]);
    }
    NoNewReaders(ss, max, j, k);
    RunKeeps(ss, max, k);
  }

  /** A run of one thread: it locks the latch to write, and unlocks it again. */
  lemma WriteOnce(t: Thread, max: nat) returns (ss: seq<Latch>)
    ensures Run(ss, max) && |ss| == 3 && ss[0] == Latch(0, false, map[t := Outside])
    ensures ss[1] == Latch(0, true, map[t := Writing]) && ss[2] == ss[0]
  {
    var s, w := Latch(0, false, map[t := Outside]), Latch(0, true, map[t := Writing]);
    assert Run([s], max);
    assert w == WLockRound(s, t) && Step(s, t, max, w);
    ss := Extend([s], t, max, w);
    assert s == WUnlock(w, t) && Step(w, t, max, s);
    ss := Extend(ss, t, max, s);
  }
}
