/** The stored pairs as a map, and how the steps on the flat sequence change it. */
module IxContents {
  import opened Defs
  import opened IxNode
  import opened IxParent
  import opened IxMerge

  ghost function ToMap(s: seq<Slot>): map<int, Rid> {
    if s == [] then map[] else ToMap(s[1..])[s[0].key := s[0].rid]
  }

  /** In a sorted sequence every slot is an entry of the map and every entry is a slot. */
  lemma {:induction false} MapHas(s: seq<Slot>)
    requires Sorted(s)
    ensures forall i :: 0 <= i < |s| ==> s[i].key in ToMap(s) && ToMap(s)[s[i].key] == s[i].rid
    ensures forall k :: k in ToMap(s) ==> exists i :: 0 <= i < |s| && s[i].key == k
  {
    if s != [] {
      MapHas(s[1..]);
      forall i | 0 <= i < |s| ensures s[i].key in ToMap(s) && ToMap(s)[s[i].key] == s[i].rid {
        if i > 0 {
          assert s[1..][i - 1] == s[i];
        }
      }
      forall k | k in ToMap(s) ensures exists i :: 0 <= i < |s| && s[i].key == k {
        if k != s[0].key {
          var i :| 0 <= i < |s[1..]| && s[1..][i].key == k;
          assert s[i + 1].key == k;
        }
      }
    }
  }

  // Keys below all keys of a sorted sequence are not in its map.
  lemma {:induction false} MapLacks(s: seq<Slot>, k: int)
    requires forall i :: 0 <= i < |s| ==> s[i].key != k
    ensures k !in ToMap(s)
  {
    if s != [] {
      forall i | 0 <= i < |s[1..]| ensures s[1..][i].key != k {
        assert s[1..][i] == s[i + 1];
      }
      MapLacks(s[1..], k);
    }
  }

  lemma {:induction false} MapInsert(s: seq<Slot>, g: nat, v: Slot)
    requires g <= |s|
    requires forall i :: 0 <= i < |s| ==> s[i].key != v.key
    ensures v.key !in ToMap(s)
    ensures ToMap(InsertSlot(s, g, v)) == ToMap(s)[v.key := v.rid]
  {
    MapLacks(s, v.key);
    var t := InsertSlot(s, g, v);
    if g == 0 {
      assert t[1..] == s;
    } else {
      assert t[1..] == InsertSlot(s[1..], g - 1, v);
      MapInsert(s[1..], g - 1, v);
    }
  }

  lemma {:induction false} MapRemove(s: seq<Slot>, g: nat)
    requires g < |s| && Sorted(s)
    ensures s[g].key in ToMap(s)
    ensures ToMap(RemoveSlot(s, g)) == ToMap(s) - {s[g].key}
  {
    MapHas(s);
    var t := RemoveSlot(s, g);
    if g == 0 {
      assert t == s[1..];
      MapLacks(t, s[0].key);
    } else {
      assert t[1..] == RemoveSlot(s[1..], g - 1);
      MapRemove(s[1..], g - 1);
      assert t[0] == s[0] && s[0].key != s[g].key;
    }
  }

  /** A key with no slot has no entry, a key with a slot has that slot's rid. */
  lemma MapAt(s: seq<Slot>, k: int)
    requires Sorted(s)
    ensures k in ToMap(s) <==> exists i :: 0 <= i < |s| && s[i].key == k
    ensures forall i :: 0 <= i < |s| && s[i].key == k ==> k in ToMap(s) && ToMap(s)[k] == s[i].rid
  {
    MapHas(s);
  }

  // The map of a sequence is empty exactly when the sequence is.
  lemma EmptyMap(s: seq<Slot>)
    ensures ToMap(s) == map[] <==> s == []
  {
    if s != [] {
      assert s[0].key in ToMap(s);
    }
  }

  // Taking the only key away leaves nothing, taking any other key away leaves something.
  lemma OnlyKey(m: map<int, Rid>, key: int)
    requires key in m
    ensures m.Keys == {key} <==> m - {key} == map[]
  {
    assert (m - {key}).Keys == m.Keys - {key};
    assert m - {key} == map[] <==> (m - {key}).Keys == {};
  }
}
