/** One page of a record file: a bitmap and equally large slots in a run of bytes. */
module RecordPage {

  const PAGE_SIZE: nat := 4096
  const BITMAP_WIDTH: nat := 8
  const RM_MAX_RECORD_SIZE: nat := 512
  // the bytes before the bitmap: the log sequence number and the page header
  const PAGE_HEADER: nat := 12
  const FILE_HEADER: nat := 20

  // ---- bits

  function GetBucket(pos: nat): nat {
    pos / BITMAP_WIDTH
  }

  // get_bit: the highest bit, shifted right by the place within the byte.
  function GetBit(pos: nat): bv8 {
    var i := pos % BITMAP_WIDTH;
    if i == 0 then 0x80 else if i == 1 then 0x40 else if i == 2 then 0x20 else if i == 3 then 0x10
    else if i == 4 then 0x08 else if i == 5 then 0x04 else if i == 6 then 0x02 else 0x01
  }

  lemma BitsApart(a: nat, b: nat, x: bv8)
    ensures (x | GetBit(a)) & GetBit(a) != 0
    ensures (x & !GetBit(a)) & GetBit(a) == 0
    ensures a % BITMAP_WIDTH != b % BITMAP_WIDTH ==> (x | GetBit(a)) & GetBit(b) == x & GetBit(b)
    ensures a % BITMAP_WIDTH != b % BITMAP_WIDTH ==> (x & !GetBit(a)) & GetBit(b) == x & GetBit(b)
  {
  }

  lemma SamePlace(a: nat, b: nat)
    requires GetBucket(a) == GetBucket(b) && a % BITMAP_WIDTH == b % BITMAP_WIDTH
    ensures a == b
  {
  }

  predicate HasBit(x: bv8, pos: nat) {
    x & GetBit(pos) != 0
  }

  function WithBit(x: bv8, pos: nat): bv8 {
    x | GetBit(pos)
  }

  function WithoutBit(x: bv8, pos: nat): bv8 {
    x & !GetBit(pos)
  }

  predicate IsSet(bm: seq<bv8>, pos: nat)
    requires GetBucket(pos) < |bm|
  {
    HasBit(bm[GetBucket(pos)], pos)
  }

  function SetBit(bm: seq<bv8>, pos: nat): seq<bv8>
    requires GetBucket(pos) < |bm|
  {
    bm[GetBucket(pos) := WithBit(bm[GetBucket(pos)], pos)]
  }

  function ResetBit(bm: seq<bv8>, pos: nat): seq<bv8>
    requires GetBucket(pos) < |bm|
  {
    bm[GetBucket(pos) := WithoutBit(bm[GetBucket(pos)], pos)]
  }

  // The same for bits of one byte.
  lemma ByteAlone(a: nat, b: nat, x: bv8)
    requires GetBucket(a) == GetBucket(b)
    ensures HasBit(WithBit(x, a), b) <==> a == b || HasBit(x, b)
    ensures HasBit(WithoutBit(x, a), b) <==> a != b && HasBit(x, b)
  {
    hide GetBit;
    BitsApart(a, b, x);
    if a % BITMAP_WIDTH == b % BITMAP_WIDTH {
      SamePlace(a, b);
    }
  }

  /** Setting or resetting a bit changes that bit alone. */
  lemma BitAlone(bm: seq<bv8>, pos: nat, other: nat)
    requires GetBucket(pos) < |bm| && GetBucket(other) < |bm|
    ensures IsSet(SetBit(bm, pos), other) <==> other == pos || IsSet(bm, other)
    ensures IsSet(ResetBit(bm, pos), other) <==> other != pos && IsSet(bm, other)
  {
    hide GetBit, GetBucket, HasBit, WithBit, WithoutBit;
    if GetBucket(pos) == GetBucket(other) {
      ByteAlone(pos, other, bm[GetBucket(pos)]);
    }
  }

  /** Bit number pos stands in byte pos / 8, the first one of a byte in its highest place. */
  lemma BitPlace(bm: seq<bv8>, pos: nat)
    requires pos / 8 < |bm|
    ensures IsSet(bm, pos) <==> (bm[pos / 8] >> (7 - pos % 8)) & 1 == 1
  {
    ShiftedBit(bm[pos / 8], pos % 8);
  }

  lemma ShiftedBit(x: bv8, i: nat)
    requires i < 8
    ensures HasBit(x, i) <==> (x >> (7 - i)) & 1 == 1
    ensures forall pos: nat :: pos % 8 == i ==> (HasBit(x, pos) <==> HasBit(x, i))
  {
    if
    case i == 0 => assert HasBit(x, i) <==> (x >> 7) & 1 == 1;
    case i == 1 => assert HasBit(x, i) <==> (x >> 6) & 1 == 1;
    case i == 2 => assert HasBit(x, i) <==> (x >> 5) & 1 == 1;
    case i == 3 => assert HasBit(x, i) <==> (x >> 4) & 1 == 1;
    case i == 4 => assert HasBit(x, i) <==> (x >> 3) & 1 == 1;
    case i == 5 => assert HasBit(x, i) <==> (x >> 2) & 1 == 1;
    case i == 6 => assert HasBit(x, i) <==> (x >> 1) & 1 == 1;
    case i == 7 => assert HasBit(x, i) <==> x & 1 == 1;
  }

  /** The number of set bits before n. */
  ghost function Count(bm: seq<bv8>, n: nat): (c: nat)
    requires n <= |bm| * BITMAP_WIDTH
    ensures c <= n
  {
    if n == 0 then 0 else Count(bm, n - 1) + if IsSet(bm, n - 1) then 1 else 0
  }

  lemma {:induction false} CountSet(bm: seq<bv8>, n: nat, pos: nat)
    requires n <= |bm| * BITMAP_WIDTH && GetBucket(pos) < |bm| && !IsSet(bm, pos)
    ensures Count(SetBit(bm, pos), n) == Count(bm, n) + if pos < n then 1 else 0
  {
    hide GetBit, HasBit, SetBit, IsSet;
    if n > 0 {
      CountSet(bm, n - 1, pos);
      BitAlone(bm, pos, n - 1);
    }
  }

  lemma {:induction false} CountReset(bm: seq<bv8>, n: nat, pos: nat)
    requires n <= |bm| * BITMAP_WIDTH && GetBucket(pos) < |bm| && IsSet(bm, pos)
    ensures Count(ResetBit(bm, pos), n) == Count(bm, n) - if pos < n then 1 else 0
  {
    hide GetBit, HasBit, ResetBit, IsSet;
    if n > 0 {
      CountReset(bm, n - 1, pos);
      BitAlone(bm, pos, n - 1);
    }
  }

  lemma {:induction false} CountFull(bm: seq<bv8>, n: nat)
    requires n <= |bm| * BITMAP_WIDTH
    ensures Count(bm, n) == n <==> forall i :: 0 <= i < n ==> IsSet(bm, i)
    ensures Count(bm, n) == 0 <==> forall i :: 0 <= i < n ==> !IsSet(bm, i)
  {
    if n > 0 {
      CountFull(bm, n - 1);
    }
  }

  lemma ZerosClear(bm: seq<bv8>, pos: nat)
    requires GetBucket(pos) < |bm| && bm[GetBucket(pos)] == 0
    ensures !IsSet(bm, pos)
  {
  }

  // ---- the layout

  // num_records_per_page and bitmap_size for a record size.
  function RecordsPerPage(recordSize: nat): nat
    requires recordSize >= 1
  {
    (BITMAP_WIDTH * (PAGE_SIZE - 1 - FILE_HEADER) + 1) / (1 + recordSize * BITMAP_WIDTH)
  }

  function BitmapSize(n: nat): nat {
    (n + BITMAP_WIDTH - 1) / BITMAP_WIDTH
  }

  /** Bitmap and slots fit into the page behind its header, for every record size that create_file accepts, and one
      record more would not keep within the 4075 bytes that create_file reckons with, an eighth of a byte for its bit
      included; the bitmap has no byte more than it needs. */
  lemma PageFits(recordSize: nat)
    requires 1 <= recordSize <= RM_MAX_RECORD_SIZE
    ensures RecordsPerPage(recordSize) >= 7
    ensures RecordsPerPage(recordSize) <= BitmapSize(RecordsPerPage(recordSize)) * BITMAP_WIDTH
    ensures PAGE_HEADER + BitmapSize(RecordsPerPage(recordSize)) + RecordsPerPage(recordSize) * recordSize <= PAGE_SIZE
    ensures var n := RecordsPerPage(recordSize); n * (1 + 8 * recordSize) <= 8 * 4075 + 1 < (n + 1) * (1 + 8 * recordSize)
    ensures BitmapSize(RecordsPerPage(recordSize)) * 8 < RecordsPerPage(recordSize) + 8 && RM_MAX_RECORD_SIZE == 512
  {
    var n, d := RecordsPerPage(recordSize), 1 + recordSize * BITMAP_WIDTH;
    assert n * d <= BITMAP_WIDTH * (PAGE_SIZE - 1 - FILE_HEADER) + 1 < (n + 1) * d;
    assert n * d == n + 8 * (n * recordSize);
    assert n < 7 ==> (n + 1) * d <= 7 * d;
  }

  // bitmap and slots of a page; n slots of size bytes each.
  datatype Layout = Layout(n: nat, size: nat)
  {
    ghost predicate Valid() {
      n >= 1 && size >= 1 && PAGE_HEADER + BitmapSize(n) + n * size <= PAGE_SIZE
    }

    function Body(): nat { PAGE_SIZE - PAGE_HEADER }

    function Offset(k: nat): (o: nat)
      requires Valid() && k < n
      ensures BitmapSize(n) <= o && o + size <= Body()
    {
      SlotInside(k, n, size);
      BitmapSize(n) + k * size
    }
  }

  /** Slot number k of a page: its bytes stand behind the bitmap and the slots before it, in the 4084 bytes behind the
      header. */
  lemma SlotBytes(l: Layout, body: seq<bv8>, k: nat, i: nat)
    requires l.Valid() && |body| == 4084 && k < l.n && i < l.size
    ensures (l.n + 7) / 8 + k * l.size + i < |body| && Slot(l, body, k)[i] == body[(l.n + 7) / 8 + k * l.size + i]
  {
    SlotInside(k, l.n, l.size);
  }

  lemma SlotInside(k: nat, n: nat, size: nat)
    requires k < n
    ensures k * size + size <= n * size
  {
    assert (k + 1) * size <= n * size;
  }

  lemma SlotsApart(j: nat, k: nat, size: nat)
    requires j < k
    ensures j * size + size <= k * size
  {
    assert (j + 1) * size <= k * size;
  }

  // The bitmap of a page body.
  function BitmapOf(l: Layout, body: seq<bv8>): seq<bv8>
    requires l.Valid() && |body| == l.Body()
  {
    body[..BitmapSize(l.n)]
  }

  lemma BucketInside(pos: nat, n: nat)
    requires pos < n
    ensures GetBucket(pos) < BitmapSize(n)
  {
  }

  predicate Live(l: Layout, body: seq<bv8>, k: nat)
    requires l.Valid() && |body| == l.Body() && k < l.n
  {
    BucketInside(k, l.n);
    IsSet(BitmapOf(l, body), k)
  }

  function Slot(l: Layout, body: seq<bv8>, k: nat): (s: seq<bv8>)
    requires l.Valid() && |body| == l.Body() && k < l.n
    ensures |s| == l.size
  {
    body[l.Offset(k)..l.Offset(k) + l.size]
  }

  // memcpy into a slot.
  function WriteSlot(l: Layout, body: seq<bv8>, k: nat, buf: seq<bv8>): (b: seq<bv8>)
    requires l.Valid() && |body| == l.Body() && k < l.n && |buf| == l.size
    ensures |b| == |body|
  {
    body[..l.Offset(k)] + buf + body[l.Offset(k) + l.size..]
  }

  function MarkSlot(l: Layout, body: seq<bv8>, k: nat): (b: seq<bv8>)
    requires l.Valid() && |body| == l.Body() && k < l.n
    ensures |b| == |body|
  {
    BucketInside(k, l.n);
    SetBit(body, k)
  }

  function ClearSlot(l: Layout, body: seq<bv8>, k: nat): (b: seq<bv8>)
    requires l.Valid() && |body| == l.Body() && k < l.n
    ensures |b| == |body|
  {
    BucketInside(k, l.n);
    ResetBit(body, k)
  }

  /** Writing a slot changes no other slot and no bit. */
  lemma WriteAlone(l: Layout, body: seq<bv8>, k: nat, buf: seq<bv8>, j: nat)
    requires l.Valid() && |body| == l.Body() && k < l.n && |buf| == l.size && j < l.n
    ensures Slot(l, WriteSlot(l, body, k, buf), j) == if j == k then buf else Slot(l, body, j)
    ensures BitmapOf(l, WriteSlot(l, body, k, buf)) == BitmapOf(l, body)
  {
    if j < k {
      SlotsApart(j, k, l.size);
    } else if k < j {
      SlotsApart(k, j, l.size);
    }
  }

  /** Changing a bit changes no slot and no other bit. */
  lemma MarkAlone(l: Layout, body: seq<bv8>, k: nat, j: nat)
    requires l.Valid() && |body| == l.Body() && k < l.n && j < l.n
    ensures Live(l, MarkSlot(l, body, k), j) <==> j == k || Live(l, body, j)
    ensures Live(l, ClearSlot(l, body, k), j) <==> j != k && Live(l, body, j)
    ensures Slot(l, MarkSlot(l, body, k), j) == Slot(l, ClearSlot(l, body, k), j) == Slot(l, body, j)
    ensures BitmapOf(l, MarkSlot(l, body, k)) == SetBit(BitmapOf(l, body), k)
    ensures BitmapOf(l, ClearSlot(l, body, k)) == ResetBit(BitmapOf(l, body), k)
  {
    BucketInside(k, l.n);
    BucketInside(j, l.n);
    assert BitmapOf(l, MarkSlot(l, body, k)) == SetBit(BitmapOf(l, body), k);
    assert BitmapOf(l, ClearSlot(l, body, k)) == ResetBit(BitmapOf(l, body), k);
    BitAlone(BitmapOf(l, body), k, j);
  }
}
