/** Records written to a capture file field by field: each field is stored
    least significant byte first (the byte order of the little-endian
    hosts the listeners run on), one after another, with explicit padding
    where a C struct has it. Python's `struct.pack('I', ...)` and
    `struct.pack('h', ...)` writes and the `fwrite` of a C record are both
    such sequences of fields. */
module PackedFields {
  import opened Common

  datatype Field =
    | W8(b: byte)
    | W16(h: u16)
    | W32(w: u32)
    | W64(d: u64)
    | Pad(n: nat)   // padding bytes, written as zero

  function Size(f: Field): nat
  {
    match f
    case W8(_) => 1
    case W16(_) => 2
    case W32(_) => 4
    case W64(_) => 8
    case Pad(n) => n
  }

  /** The bytes of one field. */
  function Bytes(f: Field): (r: seq<byte>)
    ensures |r| == Size(f)
  {
    match f
    case W8(b) => [b]
    case W16(h) => Le16(h)
    case W32(w) => Le32(w)
    case W64(d) => Le64(d)
    case Pad(n) => seq(n, _ => 0)
  }

  /** The bytes of a record: its fields back to back. */
  function Pack(fs: seq<Field>): seq<byte>
  {
    if fs == [] then [] else Bytes(fs[0]) + Pack(fs[1..])
  }

  /** Where field `k` starts: the size of the fields before it. */
  function Offset(fs: seq<Field>, k: nat): nat
    requires k <= |fs|
  {
    if k == 0 then 0 else Offset(fs, k - 1) + Size(fs[k - 1])
  }

  /** Packing two field lists one after the other is packing them
      together. */
  lemma {:induction false} PackAppend(a: seq<Field>, b: seq<Field>)
    ensures Pack(a + b) == Pack(a) + Pack(b)
  {
    if a != [] {
      assert (a + b)[1..] == a[1..] + b;
      PackAppend(a[1..], b);
    } else {
      assert a + b == b;
    }
  }

  /** The fields before `k` pack to `Offset(fs, k)` bytes. */
  lemma {:induction false} PrefixLength(fs: seq<Field>, k: nat)
    requires k <= |fs|
    ensures |Pack(fs[..k])| == Offset(fs, k)
  {
    if k > 0 {
      PrefixLength(fs, k - 1);
      assert fs[..k] == fs[..k - 1] + [fs[k - 1]];
      PackAppend(fs[..k - 1], [fs[k - 1]]);
      assert Pack([fs[k - 1]]) == Bytes(fs[k - 1]) + Pack([]);
    }
  }

  /** A record is as long as its fields together. */
  lemma PackLength(fs: seq<Field>)
    ensures |Pack(fs)| == Offset(fs, |fs|)
  {
    PrefixLength(fs, |fs|);
    assert fs[..|fs|] == fs;
  }

  /** Field `k` of a record is found, byte for byte, at its offset. */
  lemma PackAt(fs: seq<Field>, k: nat)
    requires k < |fs|
    ensures Offset(fs, k) + Size(fs[k]) <= |Pack(fs)|
    ensures Pack(fs)[Offset(fs, k)..Offset(fs, k) + Size(fs[k])] == Bytes(fs[k])
  {
    var a, b, c := Pack(fs[..k]), Bytes(fs[k]), Pack(fs[k + 1..]);
    PackSplit(fs, k);
    PrefixLength(fs, k);
    SliceMiddle(a, b, c);
  }

  /** A record is the fields before `k`, field `k`, and the fields after. */
  lemma PackSplit(fs: seq<Field>, k: nat)
    requires k < |fs|
    ensures Pack(fs) == Pack(fs[..k]) + (Bytes(fs[k]) + Pack(fs[k + 1..]))
  {
    assert fs == fs[..k] + fs[k..];
    PackAppend(fs[..k], fs[k..]);
    PackFront(fs[k..]);
    assert fs[k..][0] == fs[k] && fs[k..][1..] == fs[k + 1..];
  }

  lemma PackFront(fs: seq<Field>)
    requires fs != []
    ensures Pack(fs) == Bytes(fs[0]) + Pack(fs[1..])
  {
  }

  lemma SliceMiddle<T>(a: seq<T>, b: seq<T>, c: seq<T>)
    ensures (a + (b + c))[|a|..|a| + |b|] == b
  {
  }

  /** Four bytes that are the little-endian form of `v` read back as `v`. */
  lemma ReadLe32Within(p: seq<byte>, o: nat, v: u32)
    requires o + 4 <= |p| && p[o..o + 4] == Le32(v)
    ensures ReadLe32(p, o) == v
  {
    ReadLe32OfLe32(v);
    assert p[o] == Le32(v)[0] && p[o + 1] == Le32(v)[1];
    assert p[o + 2] == Le32(v)[2] && p[o + 3] == Le32(v)[3];
  }

  /** A 32-bit field reads back, little-endian, as its value. */
  lemma ReadU32At(fs: seq<Field>, k: nat)
    requires k < |fs| && fs[k].W32?
    ensures Offset(fs, k) + 4 <= |Pack(fs)|
    ensures ReadLe32(Pack(fs), Offset(fs, k)) == fs[k].w
  {
    PackAt(fs, k);
    ReadLe32Within(Pack(fs), Offset(fs, k), fs[k].w);
  }

  /** A 16-bit field reads back, little-endian, as its value. */
  lemma ReadU16At(fs: seq<Field>, k: nat)
    requires k < |fs| && fs[k].W16?
    ensures Offset(fs, k) + 2 <= |Pack(fs)|
    ensures ReadLe16(Pack(fs), Offset(fs, k)) == fs[k].h
  {
    var p, o := Pack(fs), Offset(fs, k);
    PackAt(fs, k);
    assert p[o..o + 2] == Le16(fs[k].h);
    assert p[o] == Le16(fs[k].h)[0] && p[o + 1] == Le16(fs[k].h)[1];
  }

  /** An 8-bit field is its byte. */
  lemma ReadU8At(fs: seq<Field>, k: nat)
    requires k < |fs| && fs[k].W8?
    ensures Offset(fs, k) < |Pack(fs)|
    ensures Pack(fs)[Offset(fs, k)] == fs[k].b
  {
    PackAt(fs, k);
    var p, o := Pack(fs), Offset(fs, k);
    assert p[o..o + 1][0] == p[o];
  }

  /** A 64-bit field is its low word followed by its high word. */
  lemma ReadU64At(fs: seq<Field>, k: nat)
    requires k < |fs| && fs[k].W64?
    ensures Offset(fs, k) + 8 <= |Pack(fs)|
    ensures ReadLe32(Pack(fs), Offset(fs, k)) == fs[k].d % TWO_32
    ensures ReadLe32(Pack(fs), Offset(fs, k) + 4) == fs[k].d / TWO_32
  {
    var p, o := Pack(fs), Offset(fs, k);
    var lo, hi := fs[k].d % TWO_32, fs[k].d / TWO_32;
    PackAt(fs, k);
    assert p[o..o + 8] == Le32(lo) + Le32(hi);
    assert p[o..o + 4] == (p[o..o + 8])[..4];
    assert p[o + 4..o + 8] == (p[o..o + 8])[4..];
    ReadLe32Within(p, o, lo);
    ReadLe32Within(p, o + 4, hi);
  }
}
