/** A new record file is filled page by page and slot by slot. */
module RecordRuns {
  import opened Defs
  import opened RecordPage
  import opened RmFileHandle

  // The first q pages are full, and the page behind them holds r records.
  ghost predicate Filled(t: map<Rid, seq<bv8>>, n: nat, q: nat, r: nat) {
    forall x :: x in t <==> 0 <= x.slotNo < n && (1 <= x.pageNo <= q || (x.pageNo == q + 1 && x.slotNo < r))
  }

  // The next record goes behind the last one.
  lemma NextBehind(fh: RmFileHandle, q: nat, r: nat, place: Rid)
    requires fh.Valid() && r < fh.l.n && Filled(fh.Records(), fh.l.n, q, r) && fh.NextPlace(place)
    requires fh.numPages == 1 + q + if r > 0 then 1 else 0
    ensures place == Rid(q + 1, r) && (fh.Roomy() <==> r > 0)
  {
    hide RmFileHandle.Valid, RmFileHandle.Records;
    fh.FirstFree();
    if r > 0 {
      assert Rid(q + 1, r) !in fh.Records();
    }
    var next := Rid(place.pageNo, r);
    assert next !in fh.Records();
    assert place == Rid(place.pageNo, place.slotNo);
  }

  lemma FilledMore(t: map<Rid, seq<bv8>>, n: nat, q: nat, r: nat, buf: seq<bv8>)
    requires r < n && Filled(t, n, q, r)
    ensures var u := t[Rid(q + 1, r) := buf]; if r + 1 < n then Filled(u, n, q, r + 1) else Filled(u, n, q + 1, 0)
  {
  }

  // i records fill q pages and r slots.
  ghost predicate Amounts(i: nat, n: nat, q: nat, r: nat) {
    r < n && q * n + r == i
  }

  // Record number i of a file with n records per page.
  ghost predicate PlaceOf(x: Rid, i: nat, n: nat) {
    x.pageNo >= 1 && 0 <= x.slotNo < n && (x.pageNo - 1) * n + x.slotNo == i
  }

  lemma PlaceUnique(x: Rid, i: nat, n: nat, q: nat, r: nat)
    requires PlaceOf(x, i, n) && Amounts(i, n, q, r)
    ensures x == Rid(q + 1, r)
  {
    var p: nat := x.pageNo - 1;
    OneQuotient(p, q, n, x.slotNo, r);
  }

  lemma {:induction false} Apart(a: nat, b: nat, n: nat)
    requires a < b
    ensures a * n + n <= b * n
  {
    assert b * n == (b - 1) * n + n;
    if a + 1 < b {
      Apart(a, b - 1, n);
    }
  }

  lemma OneQuotient(p: nat, q: nat, n: nat, r: nat, s: nat)
    requires r < n && s < n && p * n + r == q * n + s
    ensures p == q && r == s
  {
    if p < q {
      Apart(p, q, n);
    } else if q < p {
      Apart(q, p, n);
    }
  }

  lemma StepPlace(n: nat, q: nat, r: nat, i: nat)
    requires Amounts(i, n, q, r)
    ensures PlaceOf(Rid(q + 1, r), i, n) && if r + 1 < n then Amounts(i + 1, n, q, r + 1) else Amounts(i + 1, n, q + 1, 0)
  {
  }

  /** Records inserted into a new file stand in the order of their insertion, without gaps, on pages that are used up. */
  method FillFile(recordSize: nat, bufs: seq<seq<bv8>>) returns (fh: RmFileHandle, places: seq<Rid>)
    requires 1 <= recordSize <= RM_MAX_RECORD_SIZE && forall i :: 0 <= i < |bufs| ==> |bufs[i]| == recordSize
    ensures fh.Valid() && fh.l.size == recordSize
    ensures fh.l.n * (1 + 8 * recordSize) <= 8 * 4075 + 1 < (fh.l.n + 1) * (1 + 8 * recordSize)
    ensures |places| == |bufs|
    ensures forall i :: 0 <= i < |bufs| ==> PlaceOf(places[i], i, fh.l.n)
    ensures forall i :: 0 <= i < |bufs| ==> places[i] in fh.Records() && fh.Records()[places[i]] == bufs[i]
    ensures forall x :: x in fh.Records() ==> exists i :: 0 <= i < |bufs| && places[i] == x
    ensures (fh.numPages - 2) * fh.l.n < |bufs| <= (fh.numPages - 1) * fh.l.n
  {
    hide RmFileHandle.Valid, RmFileHandle.Records, RmFileHandle.NextPlace, RmFileHandle.Roomy, Filled, PlaceOf, Amounts;
    fh := new RmFileHandle(recordSize);
    fh.PagesThere();
    FilledNone(fh.Records(), fh.l.n);
    NoneAmounts(fh.l.n);
    places := [];
    ghost var q: nat, r: nat := 0, 0;
    var i := 0;
    while i < |bufs|
      invariant i == |places| <= |bufs| && fh.Valid() && fresh(fh) && fresh(fh.repr) && fh.l.size == recordSize
      invariant r < fh.l.n && Amounts(i, fh.l.n, q, r) && Filled(fh.Records(), fh.l.n, q, r) && fh.numPages == 1 + q + if r > 0 then 1 else 0
      invariant forall k :: 0 <= k < i ==> PlaceOf(places[k], k, fh.l.n)
      invariant forall k :: 0 <= k < i ==> places[k] in fh.Records() && fh.Records()[places[k]] == bufs[k]
      invariant forall x :: x in fh.Records() ==> exists k :: 0 <= k < i && places[k] == x
    {
      ghost var before := places;
      StepPlace(fh.l.n, q, r, i);
      places := AddOne(fh, bufs[i], places, i, q, r);
      q, r := if r + 1 < fh.l.n then q else q + 1, if r + 1 < fh.l.n then r + 1 else 0;
      forall x | x in fh.Records() ensures exists k :: 0 <= k < i + 1 && places[k] == x {
        if x != places[i] {
          var k :| 0 <= k < i && before[k] == x;
          assert places[k] == x;
        }
      }
      i := i + 1;
    }
    PagesUsed(fh.l.n, q, r, |bufs|, fh.numPages);
  }

  lemma NoneAmounts(n: nat)
    requires n > 0
    ensures Amounts(0, n, 0, 0)
  {
  }

  lemma PagesUsed(n: nat, q: nat, r: nat, i: nat, numPages: int)
    requires Amounts(i, n, q, r) && numPages == 1 + q + if r > 0 then 1 else 0
    ensures (numPages - 2) * n < i <= (numPages - 1) * n
  {
    assert (q - 1) * n == q * n - n && (q + 1) * n == q * n + n;
  }

  lemma FilledNone(t: map<Rid, seq<bv8>>, n: nat)
    requires t == map[]
    ensures Filled(t, n, 0, 0)
  {
  }

  // One more record.
  method AddOne(fh: RmFileHandle, buf: seq<bv8>, places: seq<Rid>, ghost i: nat, ghost q: nat, ghost r: nat) returns (more: seq<Rid>)
    requires fh.Valid() && |buf| == fh.l.size && r < fh.l.n && Filled(fh.Records(), fh.l.n, q, r)
    requires fh.numPages == 1 + q + if r > 0 then 1 else 0
    modifies fh, fh.repr
    ensures fh.Valid() && fresh(fh.repr - old(fh.repr)) && more == places + [Rid(q + 1, r)]
    ensures Rid(q + 1, r) !in old(fh.Records()) && fh.Records() == old(fh.Records())[Rid(q + 1, r) := buf]
    ensures if r + 1 < fh.l.n then Filled(fh.Records(), fh.l.n, q, r + 1) else Filled(fh.Records(), fh.l.n, q + 1, 0)
    ensures fh.numPages == 2 + q
  {
    hide RmFileHandle.Valid, RmFileHandle.Records, RmFileHandle.Roomy, Filled;
    ghost var t := fh.Records();
    forall x | fh.NextPlace(x) ensures x == Rid(q + 1, r) && (fh.Roomy() <==> r > 0) {
      NextBehind(fh, q, r, x);
    }
    var x := fh.InsertRecord(buf);
    FilledMore(t, fh.l.n, q, r, buf);
    more := places + [x];
  }

  /** With records of 4 bytes there are 987 on a page: the first 987 insertions into a new file fill page 1. */
  method FillSmall(bufs: seq<seq<bv8>>) returns (fh: RmFileHandle, places: seq<Rid>)
    requires forall i :: 0 <= i < |bufs| ==> |bufs[i]| == 4
    ensures fh.Valid() && fh.l == Layout(987, 4) && |places| == |bufs|
    ensures forall i :: 0 <= i < |bufs| && i < 987 ==> places[i] == Rid(1, i)
    ensures |bufs| > 987 ==> places[987] == Rid(2, 0)
  {
    hide RmFileHandle.Valid, RmFileHandle.Records, PlaceOf;
    fh, places := FillFile(4, bufs);
    forall i | 0 <= i < |bufs| && i < 987 ensures places[i] == Rid(1, i) {
      PlaceUnique(places[i], i, 987, 0, i);
    }
    if |bufs| > 987 {
      PlaceUnique(places[987], 987, 987, 1, 0);
    }
  }
}
