/** Sizes of finite sets. */
module Cardinality {

  // A member of a set that has one.
  lemma Member<T>(s: set<T>) returns (x: T)
    requires s != {}
    ensures x in s
  {
    x :| x in s;
  }

  lemma {:induction false} SubsetSize<T>(a: set<T>, b: set<T>)
    requires a <= b
    ensures |a| <= |b|
    decreases |a|
  {
    if a != {} {
      var x := Member(a);
      SubsetSize(a - {x}, b - {x});
    }
  }

  ghost function Image(R: seq<int>, B: set<int>): set<int>
    requires forall b :: b in B ==> 0 <= b < |R|
  {
    set b | b in B :: R[b]
  }

  lemma {:induction false} ImageSize(R: seq<int>, B: set<int>)
    requires forall b :: b in B ==> 0 <= b < |R|
    requires forall b, c :: b in B && c in B && R[b] == R[c] ==> b == c
    ensures |Image(R, B)| == |B|
    decreases |B|
  {
    if B != {} {
      var b := Member(B);
      ImageSize(R, B - {b});
      assert Image(R, B) == Image(R, B - {b}) + {R[b]};
    }
  }

  ghost function Below(n: nat): (s: set<int>)
    ensures forall i :: i in s <==> 0 <= i < n
  {
    if n == 0 then {} else Below(n - 1) + {n - 1}
  }

  lemma {:induction false} BelowSize(n: nat)
    ensures |Below(n)| == n
  {
    if n > 0 {
      BelowSize(n - 1);
    }
  }

  // A set of numbers below n has all of them exactly if there are n.
  lemma FullBelow(a: set<int>, n: nat)
    requires a <= Below(n)
    ensures |a| <= n && (|a| == n <==> a == Below(n))
  {
    BelowSize(n);
    SubsetSize(a, Below(n));
    if a != Below(n) {
      assert a + (Below(n) - a) == Below(n);
      var x := Member(Below(n) - a);
      SubsetSize(a, Below(n) - {x});
    }
  }
}
