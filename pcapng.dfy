/** The pcapng record declarations of module_pcapng/src/pcapng.h: the block
    type codes, the Section Header Block, the Interface Description Block with
    its single `if_tsresol` option, and the Enhanced Packet Block as the
    device lays it out in a capture buffer (General Block Structure and
    Section Header Block: sections 3.1 and 4.1 of draft-ietf-opsawg-pcapng;
    Interface Description Block: section 4.2).

    The records are field records. Their C sizes (`sizeof`) are computed by a
    small model of C struct layout: every field is placed at the next
    multiple of its alignment and the whole struct is padded to a multiple of
    its largest alignment. */
module Pcapng {
  import opened Common

  const PCAPNG_BLOCK_SECTION_HEADER: u32 := 0x0A0D0D0A
  const PCAPNG_BLOCK_INTERFACE_DESCRIPTION: u32 := 1
  const PCAPNG_BLOCK_SIMPLE_PACKET: u32 := 3
  const PCAPNG_BLOCK_NAME_RESOLUTION: u32 := 4
  const PCAPNG_BLOCK_ENHANCED_PACKET: u32 := 6

  /** The byte-order magic of a Section Header Block. */
  const BYTE_ORDER_MAGIC: u32 := 0x1A2B3C4D

  /** Option code of `if_tsresol` in an Interface Description Block. */
  const OPTION_IF_TSRESOL: u16 := 9

  datatype SectionHeaderBlock = SectionHeaderBlock(
    blockType: u32,
    blockTotalLenPre: u32,
    byteOrderMagic: u32,
    majorVersion: u16,
    minorVersion: u16,
    sectionLength: u64,
    options: u32,
    blockTotalLenPost: u32)

  datatype OptionIfTsresol = OptionIfTsresol(optionType: u16, length: u16, value: byte)

  datatype InterfaceDescriptionBlock = InterfaceDescriptionBlock(
    blockType: u32,
    blockTotalLenPre: u32,
    linkType: u16,
    reserved: u16,
    snapLen: u32,
    ifTsresol: OptionIfTsresol,
    blockTotalLenPost: u32)

  /** An Enhanced Packet Block as it sits in a capture buffer: the seven
      fixed words, then the frame bytes that start where the `data` member
      starts. */
  datatype EnhancedPacketBlock = EnhancedPacketBlock(
    blockType: u32,
    blockTotalLenPre: u32,
    interfaceId: u32,
    timestampHigh: u32,
    timestampLow: u32,
    capturedLen: u32,
    packetLen: u32,
    data: seq<byte>)

  /** The block types the header names. */
  function NamedBlockTypes(): (r: seq<u32>)
    ensures |r| == 5
  {
    [PCAPNG_BLOCK_SECTION_HEADER, PCAPNG_BLOCK_INTERFACE_DESCRIPTION, PCAPNG_BLOCK_SIMPLE_PACKET,
     PCAPNG_BLOCK_NAME_RESOLUTION, PCAPNG_BLOCK_ENHANCED_PACKET]
  }

  /** The named codes are pairwise distinct, so a block type identifies its
      kind. */
  lemma NamedBlockTypesDistinct()
    ensures forall i, j :: 0 <= i < j < |NamedBlockTypes()| ==> NamedBlockTypes()[i] != NamedBlockTypes()[j]
  {
  }

  // ---------------------------------------------------------------------
  // C struct layout

  /** One member of a C struct: its size and its alignment in bytes. */
  datatype Member = Member(size: nat, align: nat)

  /** The alignments a C compiler uses for scalar members. */
  predicate IsAlignment(a: nat)
  {
    a == 1 || a == 2 || a == 4 || a == 8
  }

  predicate WellAligned(ms: seq<Member>)
  {
    forall k :: 0 <= k < |ms| ==> IsAlignment(ms[k].align)
  }

  /** The smallest multiple of `a` that is at least `x`. */
  function AlignUp(x: nat, a: nat): (r: nat)
    requires IsAlignment(a)
    ensures r % a == 0 && x <= r < x + a
  {
    if x % a == 0 then x else x + (a - x % a)
  }

  function AlignsOf(ms: seq<Member>): set<nat>
  {
    set k | 0 <= k < |ms| :: ms[k].align
  }

  /** `offsets`, `align` and `size` are the layout a C compiler gives a
      struct with members `ms` in declaration order: the first member is at
      offset 0, every later member at the next multiple of its alignment
      after the end of the one before, the struct's alignment is the
      strictest of its members', and its size is the end of the last member
      rounded up to that alignment. */
  predicate IsCLayout(ms: seq<Member>, offsets: seq<nat>, align: nat, size: nat)
    requires WellAligned(ms)
  {
    && |offsets| == |ms| > 0
    && offsets[0] == 0
    && (forall k :: 0 < k < |ms| ==> offsets[k] == AlignUp(offsets[k - 1] + ms[k - 1].size, ms[k].align))
    && (forall k :: 0 <= k < |ms| ==> ms[k].align <= align)
    && align in AlignsOf(ms)
    && size == AlignUp(offsets[|ms| - 1] + ms[|ms| - 1].size, align)
  }

  /** A member list has at most one C layout, so the offsets and sizes
      stated below are the ones the compiler uses. */
  lemma {:induction false} CLayoutUnique(ms: seq<Member>, o1: seq<nat>, a1: nat, s1: nat, o2: seq<nat>, a2: nat, s2: nat)
    requires WellAligned(ms)
    requires IsCLayout(ms, o1, a1, s1) && IsCLayout(ms, o2, a2, s2)
    ensures o1 == o2 && a1 == a2 && s1 == s2
  {
    var k := 1;
    while k < |ms|
      invariant 1 <= k <= |ms|
      invariant forall j :: 0 <= j < k ==> o1[j] == o2[j]
    {
      assert o1[k] == AlignUp(o1[k - 1] + ms[k - 1].size, ms[k].align);
      assert o2[k] == AlignUp(o2[k - 1] + ms[k - 1].size, ms[k].align);
      k := k + 1;
    }
    assert a1 in AlignsOf(ms) && a2 in AlignsOf(ms);
    var i :| 0 <= i < |ms| && ms[i].align == a1;
    var j :| 0 <= j < |ms| && ms[j].align == a2;
    assert a1 <= a2 && a2 <= a1;
  }

  /** Every member of a C layout is aligned and lies inside the struct, and
      no two consecutive members overlap. */
  lemma CLayoutSound(ms: seq<Member>, offsets: seq<nat>, align: nat, size: nat)
    requires WellAligned(ms) && IsCLayout(ms, offsets, align, size)
    ensures forall k :: 0 <= k < |ms| ==> offsets[k] % ms[k].align == 0
    ensures forall k :: 0 < k < |ms| ==> offsets[k - 1] + ms[k - 1].size <= offsets[k]
    ensures forall k :: 0 <= k < |ms| ==> offsets[k] + ms[k].size <= size
    ensures size % align == 0
  {
    assert IsAlignment(ms[0].align);
    forall k | 0 < k < |ms|
      ensures offsets[k] % ms[k].align == 0
    {
      assert offsets[k] == AlignUp(offsets[k - 1] + ms[k - 1].size, ms[k].align);
    }
    forall k | 0 <= k < |ms|
      ensures offsets[k] + ms[k].size <= offsets[|ms| - 1] + ms[|ms| - 1].size
    {
      var j := k;
      while j < |ms| - 1
        invariant k <= j <= |ms| - 1
        invariant offsets[k] + ms[k].size <= offsets[j] + ms[j].size
      {
        assert offsets[j + 1] == AlignUp(offsets[j] + ms[j].size, ms[j + 1].align);
        j := j + 1;
      }
    }
  }

  const U8: Member := Member(1, 1)
  const U16: Member := Member(2, 2)
  const U32: Member := Member(4, 4)
  /** A `uint64_t`: 8-byte alignment on a 64-bit host; the 4-byte alignment
      of the 32-bit device gives the same layout here. */
  const U64: Member := Member(8, 8)
  /** A data pointer on the 32-bit xCORE device. */
  const PTR32: Member := Member(4, 4)

  /** `section_block_header_t`: type, pre-length, magic, major, minor,
      section length, options, post-length. */
  const SHB_MEMBERS: seq<Member> := [U32, U32, U32, U16, U16, U64, U32, U32]
  /** `option_if_tsresol_t`: type, length, value. */
  const TSRESOL_MEMBERS: seq<Member> := [U16, U16, U8]
  /** The option record as a member of another struct (size 6, alignment
      2; see `TsresolLayout`). */
  const TSRESOL: Member := Member(6, 2)
  /** `interface_description_block_t`: type, pre-length, link type,
      reserved, snap length, the option record, post-length. */
  const IDB_MEMBERS: seq<Member> := [U32, U32, U16, U16, U32, TSRESOL, U32]
  /** `enhanced_packet_block_t` on the device: seven words, the `data` and
      `options` pointers, post-length. */
  const EPB_MEMBERS: seq<Member> := [U32, U32, U32, U32, U32, U32, U32, PTR32, PTR32, U32]
  /** The index of the `data` member of the EPB. */
  const EPB_DATA_MEMBER: nat := 7

  /** The option record is 5 bytes of fields in a 6-byte, 2-aligned
      struct. */
  lemma TsresolLayout()
    ensures IsCLayout(TSRESOL_MEMBERS, [0, 2, 4], TSRESOL.align, TSRESOL.size)
  {
    assert TSRESOL_MEMBERS[0].align == 2;
  }

  /** The Section Header Block fields sit back to back with no padding,
      and the block is 32 bytes. */
  lemma SectionHeaderLayout()
    ensures IsCLayout(SHB_MEMBERS, [0, 4, 8, 12, 14, 16, 24, 28], 8, 32)
  {
    var offsets := [0, 4, 8, 12, 14, 16, 24, 28];
    assert SHB_MEMBERS[5].align in AlignsOf(SHB_MEMBERS);
    forall k | 0 < k < |SHB_MEMBERS|
      ensures offsets[k] == AlignUp(offsets[k - 1] + SHB_MEMBERS[k - 1].size, SHB_MEMBERS[k].align)
    {
      var x, a := offsets[k - 1] + SHB_MEMBERS[k - 1].size, SHB_MEMBERS[k].align;
      if k == 1 { assert x == 4 && a == 4 && AlignUp(4, 4) == 4; }
      else if k == 2 { assert x == 8 && a == 4 && AlignUp(8, 4) == 8; }
      else if k == 3 { assert x == 12 && a == 2 && AlignUp(12, 2) == 12; }
      else if k == 4 { assert x == 14 && a == 2 && AlignUp(14, 2) == 14; }
      else if k == 5 { assert x == 16 && a == 8 && AlignUp(16, 8) == 16; }
      else if k == 6 { assert x == 24 && a == 4 && AlignUp(24, 4) == 24; }
      else { assert x == 28 && a == 4 && AlignUp(28, 4) == 28; }
    }
    assert AlignUp(32, 8) == 32;
  }

  /** The Interface Description Block is 28 bytes: 16 bytes of fixed fields,
      the 6-byte option record at offset 16, 2 bytes of padding and the
      trailing length at offset 24. */
  lemma InterfaceDescriptionLayout()
    ensures IsCLayout(IDB_MEMBERS, [0, 4, 8, 10, 12, 16, 24], 4, 28)
  {
    var offsets := [0, 4, 8, 10, 12, 16, 24];
    assert IDB_MEMBERS[0].align in AlignsOf(IDB_MEMBERS);
    forall k | 0 <= k < |IDB_MEMBERS|
      ensures IsAlignment(IDB_MEMBERS[k].align) && IDB_MEMBERS[k].align <= 4
    {
    }
    forall k | 0 < k < |IDB_MEMBERS|
      ensures offsets[k] == AlignUp(offsets[k - 1] + IDB_MEMBERS[k - 1].size, IDB_MEMBERS[k].align)
    {
      var x, a := offsets[k - 1] + IDB_MEMBERS[k - 1].size, IDB_MEMBERS[k].align;
      if k == 1 { assert x == 4 && a == 4 && AlignUp(4, 4) == 4; }
      else if k == 2 { assert x == 8 && a == 2 && AlignUp(8, 2) == 8; }
      else if k == 3 { assert x == 10 && a == 2 && AlignUp(10, 2) == 10; }
      else if k == 4 { assert x == 12 && a == 4 && AlignUp(12, 4) == 12; }
      else if k == 5 { assert x == 16 && a == 2 && AlignUp(16, 2) == 16; }
      else { assert x == 22 && a == 4 && AlignUp(22, 4) == 24; }
    }
    assert AlignUp(28, 4) == 28;
  }

  /** On the device the EPB is ten 4-byte members, the frame bytes start at
      offset 28, and the record without its `data` member is
      `PCAPNG_EPB_OVERHEAD_BYTES` long. */
  lemma EnhancedPacketLayout()
    ensures IsCLayout(EPB_MEMBERS, [0, 4, 8, 12, 16, 20, 24, 28, 32, 36], 4, 40)
    ensures [0, 4, 8, 12, 16, 20, 24, 28, 32, 36][EPB_DATA_MEMBER] == EPB_DATA_OFFSET
    ensures 40 - EPB_MEMBERS[EPB_DATA_MEMBER].size == PCAPNG_EPB_OVERHEAD_BYTES
  {
    WordLayout(EPB_MEMBERS);
    assert WordOffsets(10) == [0, 4, 8, 12, 16, 20, 24, 28, 32, 36];
  }

  /** The offsets of a struct of `n` 4-byte words. */
  function WordOffsets(n: nat): (r: seq<nat>)
    ensures |r| == n && forall k :: 0 <= k < n ==> r[k] == 4 * k
  {
    seq(n, k => 4 * k)
  }

  /** A struct made only of 4-byte, 4-aligned members has them back to back
      and is 4 bytes per member. */
  lemma WordLayout(ms: seq<Member>)
    requires |ms| > 0 && forall k :: 0 <= k < |ms| ==> ms[k] == Member(4, 4)
    ensures WellAligned(ms) && IsCLayout(ms, WordOffsets(|ms|), 4, 4 * |ms|)
  {
    assert ms[0].align in AlignsOf(ms);
  }

  /** Offset of the frame bytes (the `data` member) in a device buffer. */
  const EPB_DATA_OFFSET: nat := 28
  /** `PCAPNG_EPB_OVERHEAD_BYTES` as the device computes it. */
  const PCAPNG_EPB_OVERHEAD_BYTES: nat := 36
}
