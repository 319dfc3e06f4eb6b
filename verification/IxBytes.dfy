/** Keys of an int column as a page stores them: four bytes each, the lowest first. What insert_pairs takes for equal
    keys are stretches of these bytes that begin one byte apart. */
module IxBytes {
  import opened IxNode

  /** Byte b of an int in two's complement. */
  function ByteOf(key: int, b: nat): (r: int)
    requires b < 4
    ensures 0 <= r < 256
  {
    key / (if b == 0 then 1 else if b == 1 then 0x100 else if b == 2 then 0x1_0000 else 0x100_0000) % 256
  }

  /** The byte at an offset behind the beginning of some keys. */
  function ByteAt(keys: seq<int>, offset: nat): (r: int)
    requires offset < 4 * |keys|
    ensures 0 <= r < 256
  {
    ByteOf(keys[offset / 4], offset % 4)
  }

  /** What the comparison reads there: four bytes, wherever a key begins. */
  function IntAt(keys: seq<int>, offset: nat): int
    requires offset + 3 < 4 * |keys|
  {
    ByteAt(keys, offset) + 0x100 * ByteAt(keys, offset + 1) + 0x1_0000 * ByteAt(keys, offset + 2) + 0x100_0000 * ByteAt(keys, offset + 3)
  }

  /** The comparison of insert_pairs for pair i of a block, given the keys up to that pair: the four bytes at offset i
      and those at offset i - 1. */
  predicate SameInt(keys: seq<int>) {
    |keys| >= 2 && IntAt(keys, |keys| - 1) == IntAt(keys, |keys| - 2)
  }

  // Numbers of four digits are equal if their digits are.
  lemma Digits(a: int, b: int, c: int, d: int, a': int, b': int, c': int, d': int)
    requires 0 <= a < 256 && 0 <= b < 256 && 0 <= c < 256 && 0 <= d < 256
    requires 0 <= a' < 256 && 0 <= b' < 256 && 0 <= c' < 256 && 0 <= d' < 256
    ensures a + 0x100 * b + 0x1_0000 * c + 0x100_0000 * d == a' + 0x100 * b' + 0x1_0000 * c' + 0x100_0000 * d'
       <==> a == a' && b == b' && c == c' && d == d'
  {
  }

  /** Pair i is taken for a repetition exactly if the five bytes from offset i - 1 on are the same. */
  lemma FiveBytes(keys: seq<int>)
    requires |keys| >= 2
    ensures SameInt(keys) <==> forall o :: |keys| - 2 <= o <= |keys| + 2 ==> ByteAt(keys, o) == ByteAt(keys, |keys| - 2)
  {
    hide ByteAt;
    var o := |keys| - 2;
    Digits(ByteAt(keys, o), ByteAt(keys, o + 1), ByteAt(keys, o + 2), ByteAt(keys, o + 3),
           ByteAt(keys, o + 1), ByteAt(keys, o + 2), ByteAt(keys, o + 3), ByteAt(keys, o + 4));
  }

  // The lowest byte of a key differs from the highest one, and from any highest one of its kind.
  predicate Plain(key: int) {
    -0x100_0000 <= key < 0x100_0000 && 0 < key % 256 < 255
  }

  lemma PlainBytes(key: int)
    requires Plain(key)
    ensures 0 < ByteOf(key, 0) < 255 && (ByteOf(key, 3) == 0 || ByteOf(key, 3) == 255)
  {
  }

  /** Keys of three bytes with a lowest byte other than 00 and FF all go through the filter. */
  lemma PlainClean(keys: seq<int>)
    requires forall i :: 0 <= i < |keys| ==> Plain(keys[i])
    ensures Clean(keys, SameInt)
  {
    hide ByteOf, SameInt;
    forall i | 2 <= i <= |keys| ensures !SameInt(keys[..i]) {
      var k, o := keys[..i], i - 2;
      FiveBytes(k);
      // among four bytes in a row there are a lowest and a highest one
      var a, b := (o + 3) / 4, o / 4;
      PlainBytes(k[a]);
      PlainBytes(k[b]);
      assert ByteAt(k, 4 * a) == ByteOf(k[a], 0) && ByteAt(k, 4 * b + 3) == ByteOf(k[b], 3);
    }
  }

  /** Two keys go through the filter if the two lowest bytes of the first differ. */
  lemma PairClean(a: int, b: int)
    requires ByteOf(a, 0) != ByteOf(a, 1)
    ensures Clean([a, b], SameInt)
  {
    hide ByteOf, SameInt;
    var k := [a, b];
    FiveBytes(k);
    assert ByteAt(k, 0) == ByteOf(a, 0) && ByteAt(k, 1) == ByteOf(a, 1);
    assert k[..2] == k;
  }

  /** Two keys -1 and 255 in a row at the beginning of a block: the second is lost. */
  lemma MinusOneHides(keys: seq<int>)
    requires |keys| >= 2 && keys[0] == -1 && keys[1] % 256 == 255
    ensures !Clean(keys, SameInt)
  {
    var k := keys[..2];
    FiveBytes(k);
    assert ByteAt(k, 0) == ByteAt(k, 1) == ByteAt(k, 2) == ByteAt(k, 3) == 255;
    assert ByteAt(k, 4) == 255;
    assert SameInt(k);
  }
}
