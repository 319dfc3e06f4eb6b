/** The shape of the tree, level by level.

    A tree of pages is described by the sequences of its pages per level: `lv[0]` are the leaves from left
    to right, the last level holds the root alone. `Flat(P, lv[h])` strings the slots of a level together.
    For a leaf level these are the stored pairs; for level h + 1 they are the separators and child pages of
    level h, one slot for each page of level h. Splits and merges of a node leave the flat sequence of its
    own level as it is and change one slot in the level above.
  */
module IxLevels {
  import opened IxNode

  type Pages = map<int, Node>

  ghost function SlotsOf(P: Pages, p: int): seq<Slot> {
    if p in P then P[p].slots else []
  }

  ghost function Flat(P: Pages, s: seq<int>): seq<Slot> {
    if s == [] then [] else SlotsOf(P, s[0]) + Flat(P, s[1..])
  }

  // The number of slots before node j of a level.
  ghost function Offset(P: Pages, s: seq<int>, j: nat): nat
    requires j <= |s|
  {
    |Flat(P, s[..j])|
  }

  lemma {:induction false} FlatAppend(P: Pages, a: seq<int>, b: seq<int>)
    ensures Flat(P, a + b) == Flat(P, a) + Flat(P, b)
  {
    if a == [] {
      assert a + b == b;
    } else {
      assert (a + b)[1..] == a[1..] + b;
      FlatAppend(P, a[1..], b);
    }
  }

  lemma FlatOne(P: Pages, p: int)
    ensures Flat(P, [p]) == SlotsOf(P, p)
  {
    assert Flat(P, [p]) == SlotsOf(P, p) + Flat(P, []);
  }

  lemma {:induction false} FlatFrame(P: Pages, Q: Pages, s: seq<int>)
    requires forall p :: p in s ==> SlotsOf(P, p) == SlotsOf(Q, p)
    ensures Flat(P, s) == Flat(Q, s)
  {
    if s != [] {
      FlatFrame(P, Q, s[1..]);
    }
  }

  lemma FlatAround(P: Pages, s: seq<int>, j: nat)
    requires j < |s|
    ensures Flat(P, s) == Flat(P, s[..j]) + SlotsOf(P, s[j]) + Flat(P, s[j + 1..])
  {
    assert s == s[..j] + ([s[j]] + s[j + 1..]);
    FlatAppend(P, s[..j], [s[j]] + s[j + 1..]);
    FlatAppend(P, [s[j]], s[j + 1..]);
    FlatOne(P, s[j]);
  }

  lemma OffStep(P: Pages, s: seq<int>, j: nat)
    requires j < |s|
    ensures Offset(P, s, j + 1) == Offset(P, s, j) + |SlotsOf(P, s[j])|
  {
    assert s[..j + 1] == s[..j] + [s[j]];
    FlatAppend(P, s[..j], [s[j]]);
    FlatOne(P, s[j]);
  }

  /** Changing the slots of node j alone changes its stretch of the flat sequence alone. */
  lemma FlatSet(P: Pages, Q: Pages, s: seq<int>, j: nat)
    requires j < |s|
    requires forall k :: 0 <= k < |s| && k != j ==> SlotsOf(P, s[k]) == SlotsOf(Q, s[k])
    ensures Flat(Q, s) == Flat(P, s[..j]) + SlotsOf(Q, s[j]) + Flat(P, s[j + 1..])
    ensures Offset(P, s, j) == Offset(Q, s, j)
  {
    FlatAround(Q, s, j);
    FlatFrame(P, Q, s[..j]);
    FlatFrame(P, Q, s[j + 1..]);
  }

  lemma FlatStretch(P: Pages, s: seq<int>, j: nat)
    requires j < |s|
    ensures Offset(P, s, j) + |SlotsOf(P, s[j])| == Offset(P, s, j + 1) <= |Flat(P, s)|
    ensures SlotsOf(P, s[j]) == Flat(P, s)[Offset(P, s, j)..Offset(P, s, j + 1)]
  {
    OffStep(P, s, j);
    FlatAround(P, s, j);
  }

  lemma FlatAt(P: Pages, s: seq<int>, j: nat, i: nat)
    requires j < |s| && i < |SlotsOf(P, s[j])|
    ensures Offset(P, s, j) + i < |Flat(P, s)|
    ensures Flat(P, s)[Offset(P, s, j) + i] == SlotsOf(P, s[j])[i]
  {
    FlatAround(P, s, j);
  }

  /** Every slot of a level belongs to one node. */
  lemma {:induction false} FlatLocate(P: Pages, s: seq<int>, g: nat) returns (j: nat, i: nat)
    requires g < |Flat(P, s)|
    ensures j < |s| && i < |SlotsOf(P, s[j])|
    ensures g == Offset(P, s, j) + i
    ensures Flat(P, s)[g] == SlotsOf(P, s[j])[i]
  {
    if g < |SlotsOf(P, s[0])| {
      j, i := 0, g;
    } else {
      var j', i' := FlatLocate(P, s[1..], g - |SlotsOf(P, s[0])|);
      j, i := j' + 1, i';
      assert s[..j] == [s[0]] + s[1..][..j'];
      FlatAppend(P, [s[0]], s[1..][..j']);
      FlatOne(P, s[0]);
    }
  }

  lemma {:induction false} OffMonotone(P: Pages, s: seq<int>, a: nat, b: nat)
    requires a <= b <= |s|
    ensures Offset(P, s, a) <= Offset(P, s, b) <= |Flat(P, s)|
    ensures a < b && (forall j :: 0 <= j < |s| ==> SlotsOf(P, s[j]) != []) ==> Offset(P, s, a) < Offset(P, s, b)
  {
    assert s[..b] == s[..a] + s[a..b];
    FlatAppend(P, s[..a], s[a..b]);
    assert s == s[..b] + s[b..];
    FlatAppend(P, s[..b], s[b..]);
    if a < b {
      assert s[a..b] == [s[a]] + s[a + 1..b];
      FlatAppend(P, [s[a]], s[a + 1..b]);
      FlatOne(P, s[a]);
    }
  }

  /** A place in the flat sequence belongs to one node only. */
  lemma OffUnique(P: Pages, s: seq<int>, q: nat, i: nat, q': nat, i': nat)
    requires q < |s| && i < |SlotsOf(P, s[q])| && q' < |s| && i' < |SlotsOf(P, s[q'])|
    requires Offset(P, s, q) + i == Offset(P, s, q') + i'
    ensures q == q' && i == i'
  {
    OffStep(P, s, q);
    OffStep(P, s, q');
    if q < q' {
      OffMonotone(P, s, q + 1, q');
    } else if q' < q {
      OffMonotone(P, s, q' + 1, q);
    }
  }

  // s with n behind its element j.
  function InsertAfter(s: seq<int>, j: nat, n: int): seq<int>
    requires j < |s|
  {
    s[..j + 1] + [n] + s[j + 1..]
  }

  // s without its element j.
  function Without(s: seq<int>, j: nat): seq<int>
    requires j < |s|
  {
    s[..j] + s[j + 1..]
  }

  lemma WithoutInserted(s: seq<int>, j: nat, n: int)
    requires j < |s|
    ensures Without(InsertAfter(s, j, n), j + 1) == s
  {
  }

  /** Splitting node j in two leaves the flat sequence of its level alone. */
  lemma FlatSplit(P: Pages, Q: Pages, s: seq<int>, j: nat, n: int)
    requires j < |s|
    requires forall k :: 0 <= k < |s| && k != j ==> SlotsOf(P, s[k]) == SlotsOf(Q, s[k])
    requires SlotsOf(P, s[j]) == SlotsOf(Q, s[j]) + SlotsOf(Q, n)
    ensures Flat(Q, InsertAfter(s, j, n)) == Flat(P, s)
  {
    var A, M, B := s[..j], [s[j]] + [n], s[j + 1..];
    assert InsertAfter(s, j, n) == A + M + B;
    FlatAppend(Q, A + M, B);
    FlatAppend(Q, A, M);
    FlatAppend(Q, [s[j]], [n]);
    FlatOne(Q, s[j]);
    FlatOne(Q, n);
    FlatFrame(P, Q, A);
    FlatFrame(P, Q, B);
    FlatAround(P, s, j);
  }
}
