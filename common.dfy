/** Fixed-width integer views shared by every component of the model: bytes,
    16/32/64-bit unsigned values with C's unsigned wrap-around, the
    two's-complement reading of a 32-bit pattern as a C `int`, and the
    little-endian byte layouts that `EXTRACT_UINT` and the Python `struct`
    packers use. */
module Common {

  datatype Option<T> = None | Some(value: T)

  const TWO_8: int := 0x100
  const TWO_16: int := 0x1_0000
  const TWO_31: int := 0x8000_0000
  const TWO_32: int := 0x1_0000_0000
  const TWO_64: int := 0x1_0000_0000_0000_0000

  type byte = x: int | 0 <= x < 0x100
  type u16 = x: int | 0 <= x < 0x1_0000
  type u32 = x: int | 0 <= x < 0x1_0000_0000
  type u64 = x: int | 0 <= x < 0x1_0000_0000_0000_0000

  /** The smaller of two values. */
  function Min(a: int, b: int): int
  {
    if a > b then b else a
  }

  /** C `unsigned int` arithmetic: the result is congruent to `x` modulo 2^32
      and is `x` itself whenever `x` already fits. */
  function Wrap32(x: int): (r: u32)
    ensures 0 <= x < TWO_32 ==> r == x
  {
    x % TWO_32
  }

  /** C `uint64_t` arithmetic. */
  function Wrap64(x: int): (r: u64)
    ensures 0 <= x < TWO_64 ==> r == x
  {
    x % TWO_64
  }

  /** Counting `d` and then `e` more, each step modulo 2^32, is counting
      `d + e` modulo 2^32. */
  lemma WrapChain(c0: int, d: int, c1: u32, e: int, total: u32, n: int)
    requires c1 == Wrap32(c0 + d) && total == Wrap32(c1 + e) && n == d + e
    ensures total == Wrap32(c0 + n)
  {
  }

  /** The value a 32-bit pattern has when it is stored into a C `int` on a
      two's-complement target: patterns with the top bit set are negative. */
  function ToInt32(x: u32): (r: int)
    ensures -TWO_31 <= r < TWO_31
    ensures r < 0 <==> x >= TWO_31
    ensures Wrap32(r) == x
  {
    if x < TWO_31 then x else x - TWO_32
  }

  /** Four bytes, least significant first. */
  function Le32(x: u32): (r: seq<byte>)
    ensures |r| == 4
  {
    [x % 0x100, (x / 0x100) % 0x100, (x / 0x1_0000) % 0x100, x / 0x100_0000]
  }

  /** Two bytes, least significant first. */
  function Le16(x: u16): (r: seq<byte>)
    ensures |r| == 2
  {
    [x % 0x100, x / 0x100]
  }

  /** Eight bytes, least significant first (low word then high word). */
  function Le64(x: u64): (r: seq<byte>)
    ensures |r| == 8
  {
    Le32(x % TWO_32) + Le32(x / TWO_32)
  }

  /** The little-endian 32-bit value stored at `b[pos..pos+4]`. */
  function ReadLe32(b: seq<byte>, pos: nat): (r: u32)
    requires pos + 4 <= |b|
  {
    b[pos] as int + b[pos + 1] as int * 0x100 + b[pos + 2] as int * 0x1_0000 + b[pos + 3] as int * 0x100_0000
  }

  /** The little-endian 16-bit value stored at `b[pos..pos+2]`. */
  function ReadLe16(b: seq<byte>, pos: nat): (r: u16)
    requires pos + 2 <= |b|
  {
    b[pos] as int + b[pos + 1] as int * 0x100
  }

  /** The big-endian (network order) 16-bit value stored at `b[pos..pos+2]`. */
  function ReadBe16(b: seq<byte>, pos: nat): (r: u16)
    requires pos + 2 <= |b|
  {
    b[pos] as int * 0x100 + b[pos + 1] as int
  }

  /** The big-endian 32-bit value stored at `b[pos..pos+4]`. */
  function ReadBe32(b: seq<byte>, pos: nat): (r: u32)
    requires pos + 4 <= |b|
  {
    b[pos] as int * 0x100_0000 + b[pos + 1] as int * 0x1_0000 + b[pos + 2] as int * 0x100 + b[pos + 3] as int
  }

  /** Reading back what `Le32` wrote gives the value again. */
  lemma ReadLe32OfLe32(x: u32)
    ensures ReadLe32(Le32(x), 0) == x
  {
    var b := Le32(x);
    var q1 := x / 0x100;
    var q2 := q1 / 0x100;
    assert x / 0x1_0000 == q2;
    var q3 := q2 / 0x100;
    assert x / 0x100_0000 == q3;
    assert b[0] as int + b[1] as int * 0x100 == x % 0x1_0000 by {
      assert x == q1 * 0x100 + x % 0x100;
      assert q1 == q2 * 0x100 + q1 % 0x100;
    }
    assert x == q2 * 0x1_0000 + x % 0x1_0000;
    assert q2 == q3 * 0x100 + q2 % 0x100;
  }

  /** Writing back what `ReadLe32` read gives the same four bytes. */
  lemma Le32OfReadLe32(b: seq<byte>, pos: nat)
    requires pos + 4 <= |b|
    ensures Le32(ReadLe32(b, pos)) == b[pos..pos + 4]
  {
    var x := ReadLe32(b, pos);
    var b0, b1, b2, b3 := b[pos] as int, b[pos + 1] as int, b[pos + 2] as int, b[pos + 3] as int;
    var hi := b2 + b3 * 0x100;
    SplitBytes(b0, b1 + hi * 0x100, 0x100);
    SplitBytes(b1, hi, 0x100);
    SplitBytes(b0 + b1 * 0x100, hi, 0x1_0000);
    SplitBytes(b2, b3, 0x100);
    SplitBytes(b0 + b1 * 0x100 + b2 * 0x1_0000, b3, 0x100_0000);
    assert x / 0x100 == b1 + hi * 0x100;
  }

  /** Division by a power of two of a value written as low digits plus a
      multiple. */
  lemma SplitBytes(low: int, high: int, n: int)
    requires n == 0x100 || n == 0x1_0000 || n == 0x100_0000
    requires 0 <= low < n && 0 <= high
    ensures (low + high * n) / n == high && (low + high * n) % n == low
  {
  }

  /** A 32-bit value is determined by its little-endian bytes. */
  lemma Le32Injective(x: u32, y: u32)
    requires Le32(x) == Le32(y)
    ensures x == y
  {
    ReadLe32OfLe32(x);
    ReadLe32OfLe32(y);
  }

  /** The four-byte reversal used for byte swapping. */
  function Reverse4(b: seq<byte>): (r: seq<byte>)
    requires |b| == 4
    ensures |r| == 4
    ensures forall k :: 0 <= k < 4 ==> r[k] == b[3 - k]
  {
    [b[3], b[2], b[1], b[0]]
  }

  /** The little-endian and big-endian readings of four bytes are related by
      reversal. */
  lemma ReadLe32OfReverse(b: seq<byte>)
    requires |b| == 4
    ensures ReadLe32(Reverse4(b), 0) == ReadBe32(b, 0)
  {
  }
}
