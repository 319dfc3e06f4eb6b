/** A page of a record file in memory: header fields and bytes, changed in place. */
module RmPageHandle {
  import opened RecordPage
  import opened RecordFile

  class RmPageHandle {
    const l: Layout
    var nextFreePageNo: int
    var numRecords: int
    // the bytes behind the page header: the bitmap and the slots
    const data: array<bv8>

    ghost predicate Valid()
      reads this
    {
      l.Valid() && data.Length == l.Body() && BitmapFits(l)
    }

    ghost function Value(): RmPage
      reads this, data
    {
      RmPage(nextFreePageNo, numRecords, data[..])
    }

    // A page of zeros.
    constructor (l: Layout, next: int)
      requires l.Valid() && BitmapFits(l)
      ensures Valid() && Value() == EmptyPage(l, next) && this.l == l && fresh(data)
    {
      this.l := l;
      nextFreePageNo, numRecords := next, 0;
      data := new bv8[l.Body()](_ => 0);
      new;
      assert data[..] == seq(l.Body(), _ => 0);
    }

    // Bitmap::set
    method Set(pos: nat)
      requires Valid() && pos < l.n
      modifies data
      ensures Value() == old(Value()).(body := MarkSlot(l, old(data[..]), pos))
    {
      BucketInside(pos, l.n);
      data[GetBucket(pos)] := WithBit(data[GetBucket(pos)], pos);
    }

    // Bitmap::reset
    method Reset(pos: nat)
      requires Valid() && pos < l.n
      modifies data
      ensures Value() == old(Value()).(body := ClearSlot(l, old(data[..]), pos))
    {
      BucketInside(pos, l.n);
      data[GetBucket(pos)] := WithoutBit(data[GetBucket(pos)], pos);
    }

    // Bitmap::is_set
    method TestBit(pos: nat) returns (b: bool)
      requires Valid() && pos < l.n
      ensures b <==> Live(l, data[..], pos)
    {
      BucketInside(pos, l.n);
      b := HasBit(data[GetBucket(pos)], pos);
    }

    /** Bitmap::next_bit: the first place behind `curr` whose bit is `bit`, or the number of places. */
    method NextBit(bit: bool, curr: int) returns (pos: nat)
      requires Valid() && -1 <= curr < l.n
      ensures curr < pos <= l.n && (pos < l.n ==> Live(l, data[..], pos) == bit)
      ensures forall i :: curr < i < pos ==> Live(l, data[..], i) != bit
    {
      pos := curr + 1;
      while pos < l.n
        invariant curr < pos <= l.n
        invariant forall i :: curr < i < pos ==> Live(l, data[..], i) != bit
      {
        var b := TestBit(pos);
        if b == bit {
          return;
        }
        pos := pos + 1;
      }
    }

    // memcpy of a record into a slot
    method CopyIn(k: nat, buf: seq<bv8>)
      requires Valid() && k < l.n && |buf| == l.size
      modifies data
      ensures Value() == WithBytes(l, old(Value()), k, buf)
    {
      var o := l.Offset(k);
      forall i | o <= i < o + l.size {
        data[i] := buf[i - o];
      }
      assert data[..] == WriteSlot(l, old(data[..]), k, buf);
    }

    // A record as it lies in its slot.
    method CopyOut(k: nat) returns (r: seq<bv8>)
      requires Valid() && k < l.n
      ensures r == Slot(l, data[..], k)
    {
      var o := l.Offset(k);
      r := data[o..o + l.size];
    }
  }
}
