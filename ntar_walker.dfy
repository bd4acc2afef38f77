/** The pcapng file tester of host_application/pcapng_file_tester/ntartest.c:
    it reads a capture file block by block (General Block Structure,
    section 3.1 of draft-ietf-opsawg-pcapng), learns each section's byte
    order from the byte-order magic of its Section Header Block (section
    4.1), byte-swaps block headers as needed, names each block type, rounds
    block lengths up to a multiple of 4 and skips over the block bodies,
    stopping on short reads and on corrupted section headers.

    The file is a byte sequence; the machine's byte order (found at run time
    by `GetSystemEndianness`) and the section byte order in force before the
    first section header (an uninitialised variable in the source) are
    parameters. The printed lines become one `BlockReport` per block and an
    `Outcome` for how the walk ended. */
module NtarWalker {
  import opened Common
  import opened Pcapng
  import CaptureFiles

  /** `ENDIAN_UNKNOWN`, `ENDIAN_BIG`, `ENDIAN_LITTLE`. */
  datatype Endianness = EndianUnknown | EndianBig | EndianLittle

  /** `myBuffer`: where block bodies are read. */
  const BUFFER_BYTES: nat := 4096
  /** `sizeof(struct ntarHeader)`: block type and block length. */
  const HEADER_BYTES: nat := 8
  const MAGIC_BYTES: nat := 4

  // ---------------------------------------------------------------------
  // Byte order
  // ---------------------------------------------------------------------

  /** How a machine of the given byte order reads four bytes in memory as a
      `guint32`. */
  function NativeWord(system: Endianness, b: seq<byte>): u32
    requires |b| == 4 && system != EndianUnknown
  {
    if system == EndianBig then ReadBe32(b, 0) else ReadLe32(b, 0)
  }

  /** `GetDataWord`: the four bytes copied as they are when the section's
      byte order is the machine's, reversed otherwise, then read natively. */
  function GetDataWord(system: Endianness, endianType: Endianness, inData: seq<byte>): u32
    requires |inData| == 4 && system != EndianUnknown
  {
    NativeWord(system, if system == endianType then inData else Reverse4(inData))
  }

  /** Reading a word with the section's byte order gives the value the
      section's writer stored, whatever the machine's byte order; with an
      unknown section byte order the bytes are always swapped, so the word
      is read in the order opposite to the machine's. Swapping twice gives
      the bytes back. */
  lemma GetDataWordReadsSectionOrder(system: Endianness, section: Endianness, b: seq<byte>)
    requires |b| == 4 && system != EndianUnknown
    ensures section == EndianBig ==> GetDataWord(system, section, b) == ReadBe32(b, 0)
    ensures section == EndianLittle ==> GetDataWord(system, section, b) == ReadLe32(b, 0)
    ensures section == EndianUnknown ==>
              GetDataWord(system, section, b) == (if system == EndianBig then ReadLe32(b, 0) else ReadBe32(b, 0))
    ensures Reverse4(Reverse4(b)) == b
  {
    ReadLe32OfReverse(b);
    ReadLe32OfReverse(Reverse4(b));
    assert Reverse4(Reverse4(b)) == b;
  }

  /** `GetSectionEndianness`: the byte-order magic 0x1A2B3C4D as its four
      bytes appear in the file. */
  function GetSectionEndianness(inData: seq<byte>): (r: Endianness)
    requires |inData| == 4
    ensures r == EndianBig <==> inData == [0x1a, 0x2b, 0x3c, 0x4d]
    ensures r == EndianLittle <==> inData == [0x4d, 0x3c, 0x2b, 0x1a]
  {
    if inData[0] == 0x1a && inData[1] == 0x2b && inData[2] == 0x3c && inData[3] == 0x4d then EndianBig
    else if inData[0] == 0x4d && inData[1] == 0x3c && inData[2] == 0x2b && inData[3] == 0x1a then EndianLittle
    else EndianUnknown
  }

  /** The bytes a writer of the given byte order stores for a word. */
  function WordBytes(order: Endianness, w: u32): seq<byte>
    requires order != EndianUnknown
  {
    if order == EndianLittle then Le32(w) else Reverse4(Le32(w))
  }

  /** A section written in either byte order is recognised as that byte
      order, and its words then read back as written. */
  lemma SectionOrderRecognised(order: Endianness, system: Endianness, w: u32)
    requires order != EndianUnknown && system != EndianUnknown
    ensures GetSectionEndianness(WordBytes(order, BYTE_ORDER_MAGIC)) == order
    ensures GetDataWord(system, order, WordBytes(order, w)) == w
  {
    ReadLe32OfLe32(w);
    GetDataWordReadsSectionOrder(system, order, WordBytes(order, w));
    ReadLe32OfReverse(Le32(w));
    var b := Le32(w);
    assert ReadBe32(Reverse4(b), 0) == ReadLe32(b, 0);
  }

  // ---------------------------------------------------------------------
  // Block types and lengths
  // ---------------------------------------------------------------------

  datatype BlockKind =
    | InterfaceDescription
    | PacketBlock
    | SimplePacket
    | NameResolution
    | InterfaceStatistics
    | EnhancedPacket
    | SectionHeader
    | CorruptedSectionHeader
    | UnknownBlock

  /** The type switch of the main loop. */
  function Classify(t: u32): BlockKind
  {
    if t == 1 then InterfaceDescription
    else if t == 2 then PacketBlock
    else if t == 3 then SimplePacket
    else if t == 4 then NameResolution
    else if t == 5 then InterfaceStatistics
    else if t == 6 then EnhancedPacket
    else if t == PCAPNG_BLOCK_SECTION_HEADER then SectionHeader
    else if t == 0x0a0a0d0a || 0x0a0d0a00 <= t <= 0x0a0d0aff || 0x0d0d0a00 <= t <= 0x0d0d0aff then
      CorruptedSectionHeader
    else UnknownBlock
  }

  /** Exactly the three patterns of a damaged section header type stop the
      walk; the types 1 to 6 and the section header are named, everything
      else is an unknown block that is skipped; every type the device
      writes is named. */
  lemma ClassifyCases(t: u32)
    ensures Classify(t) == CorruptedSectionHeader <==>
              t == 0x0a0a0d0a || 0x0a0d0a00 <= t <= 0x0a0d0aff || 0x0d0d0a00 <= t <= 0x0d0d0aff
    ensures Classify(t) == UnknownBlock <==>
              !(1 <= t <= 6 || t == PCAPNG_BLOCK_SECTION_HEADER || Classify(t) == CorruptedSectionHeader)
    ensures Classify(t) == SectionHeader <==> t == PCAPNG_BLOCK_SECTION_HEADER
    ensures t in NamedBlockTypes() ==> Classify(t) != UnknownBlock && Classify(t) != CorruptedSectionHeader
  {
  }

  /** The block type of a section header reads the same in either byte
      order, so the test on the raw type (before the byte order is known)
      and the test on the swapped type agree. */
  lemma SectionHeaderTypeIsPalindrome(system: Endianness, section: Endianness, b: seq<byte>)
    requires |b| == 4 && system != EndianUnknown
    ensures NativeWord(system, b) == PCAPNG_BLOCK_SECTION_HEADER <==>
            GetDataWord(system, section, b) == PCAPNG_BLOCK_SECTION_HEADER
  {
    SectionHeaderBytes(system, b);
    SectionHeaderBytes(system, Reverse4(b));
    var shb: seq<byte> := [0x0a, 0x0d, 0x0d, 0x0a];
    assert Reverse4(b) == shb <==> b == shb;
  }

  /** The one byte sequence a machine of either byte order reads as the
      section header type. */
  lemma SectionHeaderBytes(system: Endianness, b: seq<byte>)
    requires |b| == 4 && system != EndianUnknown
    ensures NativeWord(system, b) == PCAPNG_BLOCK_SECTION_HEADER <==> b == [0x0a, 0x0d, 0x0d, 0x0a]
  {
    if NativeWord(system, b) == PCAPNG_BLOCK_SECTION_HEADER {
      var b0, b1, b2, b3 := b[0] as int, b[1] as int, b[2] as int, b[3] as int;
      if system == EndianBig {
        assert b0 * 0x100_0000 + (b1 * 0x1_0000 + b2 * 0x100 + b3) == 0x0a * 0x100_0000 + 0x0d0d0a;
      } else {
        assert b0 + (b1 + b2 * 0x100 + b3 * 0x1_0000) * 0x100 == 0x0a + 0x0a0d0d * 0x100;
      }
      assert b == [b[0], b[1], b[2], b[3]];
    }
  }

  /** The length rounded up to the next multiple of 4 in 32-bit unsigned
      arithmetic. */
  function AdjustedLength(len: u32): u32
  {
    if len % 4 == 1 then Wrap32(len + 3)
    else if len % 4 == 2 then Wrap32(len + 2)
    else if len % 4 == 3 then Wrap32(len + 1)
    else len
  }

  /** The adjusted length is the least multiple of 4 not below the reported
      one; the three largest lengths wrap round to 0. */
  lemma AdjustedLengthRounds(len: u32)
    ensures len <= TWO_32 - 4 ==>
              AdjustedLength(len) % 4 == 0 && len <= AdjustedLength(len) < len + 4
    ensures len > TWO_32 - 4 ==> AdjustedLength(len) == 0
  {
  }

  // ---------------------------------------------------------------------
  // The walk
  // ---------------------------------------------------------------------

  /** The source's accounting, or the corrected one (see the findings): the
      corrected tester keeps its body reads inside `myBuffer` and counts
      the byte-order magic in its running offset. */
  datatype Revision = AsWritten | Corrected

  /** What the tester prints for a block: the running offset `totalRead`,
      the block number, the type, its name, the reported and adjusted
      lengths, and the byte order the header was read in. */
  datatype BlockReport = BlockReport(
    offset: u32,
    number: u32,
    blockType: u32,
    kind: BlockKind,
    reportedLength: u32,
    adjustedLength: u32,
    section: Endianness)

  datatype Outcome =
    | CleanEnd                        // no bytes left for a header
    | UnknownSystem                   // the machine's byte order is unknown
    | ShortHeader(headerGot: nat)     // 1 to 7 header bytes
    | ShortMagic(magicGot: nat)
    | CorruptedSection(corruptType: u32)
    | ShortData(want: u32, got: nat)  // the body read returned fewer bytes than the block needs

  datatype WalkState = WalkState(totalRead: u32, blockNumber: u32, section: Endianness)

  datatype Step =
    | Next(report: BlockReport, next: nat, state: WalkState)
    | Stop(outcome: Outcome)

  datatype WalkResult = WalkResult(blocks: seq<BlockReport>, outcome: Outcome)

  /** Where a body read is stored in `myBuffer`: after the magic for a
      section header. */
  function BodyOffset(isSectionHeader: bool): nat
  {
    if isSectionHeader then MAGIC_BYTES else 0
  }

  /** At most how many body bytes one read asks for. */
  function ReadCap(rev: Revision, isSectionHeader: bool): nat
  {
    if rev == Corrected then BUFFER_BYTES - BodyOffset(isSectionHeader) else BUFFER_BYTES
  }

  /** Body bytes still to read once the header (and magic) are read. */
  function BodyWant(blockType: u32, adjusted: u32): u32
  {
    if blockType == PCAPNG_BLOCK_SECTION_HEADER then Wrap32(adjusted - 12) else Wrap32(adjusted - 8)
  }

  /** One pass of the main loop, at file offset `pos`: the header, the
      byte-order magic when the raw type is a section header's, then the
      rest of the block. */
  function BlockAt(file: seq<byte>, pos: nat, system: Endianness, st: WalkState, rev: Revision): (r: Step)
    requires pos <= |file| && system != EndianUnknown
    ensures r.Next? ==> pos + HEADER_BYTES <= r.next <= |file|
  {
    var avail := |file| - pos;
    if avail < HEADER_BYTES then
      if avail == 0 then Stop(CleanEnd) else Stop(ShortHeader(avail))
    else
      var rawType, rawLength := file[pos..pos + 4], file[pos + 4..pos + 8];
      var opensSection := NativeWord(system, rawType) == PCAPNG_BLOCK_SECTION_HEADER;
      if opensSection && avail < HEADER_BYTES + MAGIC_BYTES then
        Stop(ShortMagic(avail - HEADER_BYTES))
      else
        var section := if opensSection then GetSectionEndianness(file[pos + 8..pos + 12]) else st.section;
        BlockBody(file, pos + HEADER_BYTES + (if opensSection then MAGIC_BYTES else 0),
                  Wrap32(st.blockNumber + 1), st.totalRead,
                  GetDataWord(system, section, rawType), GetDataWord(system, section, rawLength), section, rev)
  }

  /** The rest of a pass once the header is read and swapped: name the
      type, stop on a corrupted section header, adjust the length and read
      the body from `start`. */
  function BlockBody(file: seq<byte>, start: nat, number: u32, totalRead: u32, blockType: u32, reported: u32,
                     section: Endianness, rev: Revision): (r: Step)
    requires start <= |file|
    ensures r.Next? ==> start <= r.next <= |file|
  {
    var kind := Classify(blockType);
    if kind == CorruptedSectionHeader then Stop(CorruptedSection(blockType))
    else
      var adjusted := AdjustedLength(reported);
      var isShb := blockType == PCAPNG_BLOCK_SECTION_HEADER;
      var want := BodyWant(blockType, adjusted);
      var got := Min(Min(want, ReadCap(rev, isShb)), |file| - start);
      if got != want then Stop(ShortData(want, got))
      else
        Next(BlockReport(totalRead, number, blockType, kind, reported, adjusted, section),
             start + got, WalkState(Wrap32(totalRead + Counted(rev, isShb, got)), number, section))
  }

  /** What the running offset counts for a block read in full: the header
      words and the body, and, corrected, a section header's magic. */
  function Counted(rev: Revision, isSectionHeader: bool, got: nat): nat
  {
    HEADER_BYTES + got + (if rev == Corrected && isSectionHeader then MAGIC_BYTES else 0)
  }

  function WalkFrom(file: seq<byte>, pos: nat, system: Endianness, st: WalkState, rev: Revision): WalkResult
    requires pos <= |file| && system != EndianUnknown
    decreases |file| - pos
  {
    match BlockAt(file, pos, system, st, rev)
    case Stop(o) => WalkResult([], o)
    case Next(report, next, st') => Prepend([report], WalkFrom(file, next, system, st', rev))
  }

  function Prepend(blocks: seq<BlockReport>, r: WalkResult): WalkResult
  {
    WalkResult(blocks + r.blocks, r.outcome)
  }

  /** The whole run: offsets and block numbers start at 0. */
  function Walk(file: seq<byte>, system: Endianness, initialSection: Endianness, rev: Revision): WalkResult
  {
    if system == EndianUnknown then WalkResult([], UnknownSystem)
    else WalkFrom(file, 0, system, WalkState(0, 0, initialSection), rev)
  }

  /** Bytes the first `k` blocks span, by their adjusted lengths. */
  function SpanBefore(bs: seq<BlockReport>, k: nat): nat
    requires k <= |bs|
  {
    if k == 0 then 0 else SpanBefore(bs, k - 1) + bs[k - 1].adjustedLength
  }

  /** How far the running offset falls behind the file offset over one
      block: as written, a section header's magic is not counted. */
  function LagOf(rev: Revision, b: BlockReport): nat
  {
    if rev == AsWritten && b.kind == SectionHeader then MAGIC_BYTES else 0
  }

  /** How far it falls behind over the first `k` blocks. */
  function LagBefore(rev: Revision, bs: seq<BlockReport>, k: nat): nat
    requires k <= |bs|
  {
    if k == 0 then 0 else LagBefore(rev, bs, k - 1) + LagOf(rev, bs[k - 1])
  }

  /** Putting a block in front adds its span and its lag to every prefix. */
  lemma {:induction false} PrefixCons(b: BlockReport, rest: seq<BlockReport>, k: nat, rev: Revision)
    requires 0 < k <= |rest| + 1
    ensures SpanBefore([b] + rest, k) == b.adjustedLength + SpanBefore(rest, k - 1)
    ensures LagBefore(rev, [b] + rest, k) == LagOf(rev, b) + LagBefore(rev, rest, k - 1)
  {
    if k > 1 {
      PrefixCons(b, rest, k - 1, rev);
      assert ([b] + rest)[k - 1] == rest[k - 2];
    }
  }

  /** The body read of a block read in full spans the rest of its adjusted
      length, which is a multiple of 4 and covers the header (and magic). */
  lemma BlockBodyFacts(file: seq<byte>, start: nat, number: u32, totalRead: u32, blockType: u32, reported: u32,
                       section: Endianness, rev: Revision)
    requires start <= |file|
    ensures var r := BlockBody(file, start, number, totalRead, blockType, reported, section, rev);
            var isShb := blockType == PCAPNG_BLOCK_SECTION_HEADER;
            r.Next? ==>
              && r.report == BlockReport(totalRead, number, blockType, Classify(blockType), reported,
                                         AdjustedLength(reported), section)
              && AdjustedLength(reported) % 4 == 0
              && AdjustedLength(reported) >= (if isShb then 12 else 8)
              && r.next == start + AdjustedLength(reported) - (if isShb then 12 else 8)
              && r.state == WalkState(Wrap32(totalRead + AdjustedLength(reported) - LagOf(rev, r.report)), number, section)
  {
    var r := BlockBody(file, start, number, totalRead, blockType, reported, section, rev);
    if r.Next? {
      AdjustedLengthRounds(reported);
      var adj := AdjustedLength(reported);
      var isShb := blockType == PCAPNG_BLOCK_SECTION_HEADER;
      var want := BodyWant(blockType, adj);
      var got := Min(Min(want, ReadCap(rev, isShb)), |file| - start);
      assert got == want && got <= BUFFER_BYTES;
      if isShb {
        assert adj >= 12 && want == adj - 12;
      } else {
        assert adj >= 8 && want == adj - 8;
      }
    }
  }

  /** One block read in full spans exactly its adjusted length, a multiple
      of 4 and at least a header; its type is the word at the block's start
      read in the byte order it reports; and the running offset advances by
      the adjusted length less the block's lag. */
  lemma BlockAtFacts(file: seq<byte>, pos: nat, system: Endianness, st: WalkState, rev: Revision)
    requires pos <= |file| && system != EndianUnknown
    ensures var r := BlockAt(file, pos, system, st, rev);
            r.Next? ==>
              && pos + HEADER_BYTES <= |file|
              && r.report.offset == st.totalRead
              && r.report.number == Wrap32(st.blockNumber + 1)
              && r.next == pos + r.report.adjustedLength
              && r.report.adjustedLength % 4 == 0 && r.report.adjustedLength >= HEADER_BYTES
              && r.report.blockType == GetDataWord(system, r.report.section, file[pos..pos + 4])
              && r.report.reportedLength == GetDataWord(system, r.report.section, file[pos + 4..pos + 8])
              && r.report.kind == Classify(r.report.blockType)
              && r.state.totalRead == RunningOffset(st.totalRead, r.report.adjustedLength, LagOf(rev, r.report))
              && r.state.blockNumber == r.report.number
  {
    var r := BlockAt(file, pos, system, st, rev);
    if r.Next? {
      var rawType, rawLength := file[pos..pos + 4], file[pos + 4..pos + 8];
      var opensSection := NativeWord(system, rawType) == PCAPNG_BLOCK_SECTION_HEADER;
      var section := if opensSection then GetSectionEndianness(file[pos + 8..pos + 12]) else st.section;
      var blockType := GetDataWord(system, section, rawType);
      var start := pos + HEADER_BYTES + (if opensSection then MAGIC_BYTES else 0);
      SectionHeaderTypeIsPalindrome(system, section, rawType);
      BlockBodyFacts(file, start, Wrap32(st.blockNumber + 1), st.totalRead, blockType,
                     GetDataWord(system, section, rawLength), section, rev);
    }
  }

  /** The running offset after starting at `t0` and counting `span` bytes,
      `lag` of which were not counted. */
  function RunningOffset(t0: int, span: int, lag: int): u32
  {
    Wrap32(t0 + span - lag)
  }

  /** Block `k` is reported at `t0` plus what the blocks before it span,
      less their lag. */
  predicate OffsetOk(t0: u32, bs: seq<BlockReport>, k: nat, rev: Revision)
    requires k < |bs|
  {
    bs[k].offset == RunningOffset(t0, SpanBefore(bs, k), LagBefore(rev, bs, k))
  }

  /** Counting a block and then the blocks after it is counting them all. */
  lemma RunningOffsetChain(t0: u32, adj: int, lag: int, t1: u32, span: int, lagRest: int, span2: int, lag2: int)
    requires t1 == RunningOffset(t0, adj, lag)
    requires span2 == adj + span && lag2 == lag + lagRest
    ensures RunningOffset(t1, span, lagRest) == RunningOffset(t0, span2, lag2)
  {
    WrapChain(t0, adj - lag, t1, span - lagRest, RunningOffset(t1, span, lagRest), span2 - lag2);
  }

  predicate OffsetsFrom(t0: u32, bs: seq<BlockReport>, rev: Revision)
  {
    forall k :: 0 <= k < |bs| ==> OffsetOk(t0, bs, k, rev)
  }

  /** The block's header is in the file at `at`, and the type it names is
      the word stored there, read in the block's byte order. */
  predicate TypeAt(file: seq<byte>, system: Endianness, at: nat, b: BlockReport)
    requires system != EndianUnknown
  {
    at + HEADER_BYTES <= |file| && b.blockType == GetDataWord(system, b.section, file[at..at + 4])
  }

  /** Block `k` starts at `pos` plus what the blocks before it span. */
  predicate PositionOk(file: seq<byte>, system: Endianness, pos: nat, bs: seq<BlockReport>, k: nat)
    requires system != EndianUnknown && k < |bs|
  {
    TypeAt(file, system, pos + SpanBefore(bs, k), bs[k])
  }

  predicate PositionsFrom(file: seq<byte>, system: Endianness, pos: nat, bs: seq<BlockReport>)
    requires system != EndianUnknown
  {
    forall k :: 0 <= k < |bs| ==> PositionOk(file, system, pos, bs, k)
  }

  lemma WalkFromNext(file: seq<byte>, pos: nat, system: Endianness, st: WalkState, rev: Revision)
    requires pos <= |file| && system != EndianUnknown && BlockAt(file, pos, system, st, rev).Next?
    ensures var s := BlockAt(file, pos, system, st, rev);
            WalkFrom(file, pos, system, st, rev).blocks == [s.report] + WalkFrom(file, s.next, system, s.state, rev).blocks
    ensures var s := BlockAt(file, pos, system, st, rev);
            WalkFrom(file, pos, system, st, rev).outcome == WalkFrom(file, s.next, system, s.state, rev).outcome
  {
  }

  /** Over a walk from `pos`, offsets are the running offset plus the span
      of the blocks before, less their lag. */
  lemma {:induction false} WalkFromOffsets(file: seq<byte>, pos: nat, system: Endianness, st: WalkState, rev: Revision)
    requires pos <= |file| && system != EndianUnknown
    ensures OffsetsFrom(st.totalRead, WalkFrom(file, pos, system, st, rev).blocks, rev)
    decreases |file| - pos
  {
    var s := BlockAt(file, pos, system, st, rev);
    if s.Next? {
      BlockAtFacts(file, pos, system, st, rev);
      WalkFromOffsets(file, s.next, system, s.state, rev);
      WalkFromNext(file, pos, system, st, rev);
      ConsOffsets(s.report, WalkFrom(file, s.next, system, s.state, rev).blocks, st.totalRead, s.state.totalRead, rev);
    }
  }

  lemma ConsOffsets(b: BlockReport, rest: seq<BlockReport>, t0: u32, t1: u32, rev: Revision)
    requires b.offset == t0 && t1 == RunningOffset(t0, b.adjustedLength, LagOf(rev, b))
    requires OffsetsFrom(t1, rest, rev)
    ensures OffsetsFrom(t0, [b] + rest, rev)
  {
    var bs := [b] + rest;
    forall k | 0 <= k < |bs|
      ensures OffsetOk(t0, bs, k, rev)
    {
      if k == 0 {
        assert RunningOffset(t0, 0, 0) == t0;
      } else {
        PrefixCons(b, rest, k, rev);
        assert bs[k] == rest[k - 1];
        assert OffsetOk(t1, rest, k - 1, rev);
        RunningOffsetChain(t0, b.adjustedLength, LagOf(rev, b), t1, SpanBefore(rest, k - 1), LagBefore(rev, rest, k - 1),
                           SpanBefore(bs, k), LagBefore(rev, bs, k));
      }
    }
  }

  /** Over a walk from `pos`: block `k` starts at `pos` plus what the blocks
      before it span, and the type it names is the word stored there. */
  lemma {:induction false} WalkFromPositions(file: seq<byte>, pos: nat, system: Endianness, st: WalkState, rev: Revision)
    requires pos <= |file| && system != EndianUnknown
    ensures PositionsFrom(file, system, pos, WalkFrom(file, pos, system, st, rev).blocks)
    decreases |file| - pos
  {
    var s := BlockAt(file, pos, system, st, rev);
    if s.Next? {
      BlockAtFacts(file, pos, system, st, rev);
      WalkFromPositions(file, s.next, system, s.state, rev);
      WalkFromNext(file, pos, system, st, rev);
      ConsPositions(file, system, pos, s.next, s.report, WalkFrom(file, s.next, system, s.state, rev).blocks);
    }
  }

  lemma ConsPositions(file: seq<byte>, system: Endianness, pos: nat, next: nat, b: BlockReport, rest: seq<BlockReport>)
    requires system != EndianUnknown && next == pos + b.adjustedLength
    requires TypeAt(file, system, pos, b)
    requires PositionsFrom(file, system, next, rest)
    ensures PositionsFrom(file, system, pos, [b] + rest)
  {
    var bs := [b] + rest;
    forall k | 0 <= k < |bs|
      ensures PositionOk(file, system, pos, bs, k)
    {
      if k == 0 {
        assert pos + SpanBefore(bs, 0) == pos;
      } else {
        PrefixCons(b, rest, k, Corrected);
        assert bs[k] == rest[k - 1];
        assert PositionOk(file, system, next, rest, k - 1);
        assert pos + SpanBefore(bs, k) == next + SpanBefore(rest, k - 1);
      }
    }
  }

  /** A walk from `pos` that ends cleanly has spanned the file to its end. */
  lemma {:induction false} WalkFromCleanEnd(file: seq<byte>, pos: nat, system: Endianness, st: WalkState, rev: Revision)
    requires pos <= |file| && system != EndianUnknown
    ensures var r := WalkFrom(file, pos, system, st, rev);
            r.outcome == CleanEnd ==> pos + SpanBefore(r.blocks, |r.blocks|) == |file|
    decreases |file| - pos
  {
    var s := BlockAt(file, pos, system, st, rev);
    if s.Next? {
      BlockAtFacts(file, pos, system, st, rev);
      var rest := WalkFrom(file, s.next, system, s.state, rev).blocks;
      WalkFromCleanEnd(file, s.next, system, s.state, rev);
      WalkFromNext(file, pos, system, st, rev);
      var bs := [s.report] + rest;
      assert |bs| == |rest| + 1;
      PrefixCons(s.report, rest, |rest| + 1, rev);
      assert pos + SpanBefore(bs, |bs|) == s.next + SpanBefore(rest, |rest|);
    }
  }

  /** The corrected walk prints, for every block, its true offset in the
      file (modulo 2^32). */
  lemma CorrectedOffsetsAreFilePositions(file: seq<byte>, system: Endianness, initialSection: Endianness)
    requires system != EndianUnknown
    ensures var bs := Walk(file, system, initialSection, Corrected).blocks;
            forall k {:trigger bs[k].offset} :: 0 <= k < |bs| ==> bs[k].offset == Wrap32(SpanBefore(bs, k))
  {
    var st := WalkState(0, 0, initialSection);
    var bs := Walk(file, system, initialSection, Corrected).blocks;
    assert bs == WalkFrom(file, 0, system, st, Corrected).blocks;
    WalkFromOffsets(file, 0, system, st, Corrected);
    forall k | 0 <= k < |bs|
      ensures bs[k].offset == Wrap32(SpanBefore(bs, k))
    {
      NoLagWhenCorrected(bs, k);
      assert OffsetOk(0, bs, k, Corrected);
      RunningOffsetWithoutLag(SpanBefore(bs, k));
    }
  }

  /** Every block the walk reports starts at the offset the blocks before
      it span, and the type it names is the word stored there; a walk that
      ends cleanly covers the whole file. */
  lemma WalkReadsBlocksInPlace(file: seq<byte>, system: Endianness, initialSection: Endianness, rev: Revision)
    requires system != EndianUnknown
    ensures var bs := Walk(file, system, initialSection, rev).blocks;
            forall k {:trigger bs[k].blockType} :: 0 <= k < |bs| ==>
              var at := SpanBefore(bs, k);
              at + HEADER_BYTES <= |file| && bs[k].blockType == GetDataWord(system, bs[k].section, file[at..at + 4])
    ensures var r := Walk(file, system, initialSection, rev);
            r.outcome == CleanEnd ==> SpanBefore(r.blocks, |r.blocks|) == |file|
  {
    var st := WalkState(0, 0, initialSection);
    var bs := Walk(file, system, initialSection, rev).blocks;
    assert Walk(file, system, initialSection, rev) == WalkFrom(file, 0, system, st, rev);
    WalkFromPositions(file, 0, system, st, rev);
    WalkFromCleanEnd(file, 0, system, st, rev);
    forall k | 0 <= k < |bs|
      ensures SpanBefore(bs, k) + HEADER_BYTES <= |file|
      ensures bs[k].blockType == GetDataWord(system, bs[k].section, file[SpanBefore(bs, k)..SpanBefore(bs, k) + 4])
    {
      assert PositionOk(file, system, 0, bs, k);
    }
  }

  lemma {:induction false} NoLagWhenCorrected(bs: seq<BlockReport>, k: nat)
    requires k <= |bs|
    ensures LagBefore(Corrected, bs, k) == 0
  {
    if k > 0 {
      NoLagWhenCorrected(bs, k - 1);
    }
  }

  lemma RunningOffsetWithoutLag(span: int)
    ensures RunningOffset(0, span, 0) == Wrap32(span)
  {
  }

  /** As written, every block is reported 4 bytes before where it starts
      for each section header before it. */
  lemma AsWrittenOffsetsLag(file: seq<byte>, system: Endianness, initialSection: Endianness)
    requires system != EndianUnknown
    ensures var bs := Walk(file, system, initialSection, AsWritten).blocks;
            forall k {:trigger bs[k].offset} :: 0 <= k < |bs| ==>
              bs[k].offset == RunningOffset(0, SpanBefore(bs, k), LagBefore(AsWritten, bs, k))
  {
    var st := WalkState(0, 0, initialSection);
    assert Walk(file, system, initialSection, AsWritten) == WalkFrom(file, 0, system, st, AsWritten);
    var bs := Walk(file, system, initialSection, AsWritten).blocks;
    WalkFromOffsets(file, 0, system, st, AsWritten);
    forall k | 0 <= k < |bs|
      ensures bs[k].offset == RunningOffset(0, SpanBefore(bs, k), LagBefore(AsWritten, bs, k))
    {
      assert OffsetOk(0, bs, k, AsWritten);
    }
  }

  // ---------------------------------------------------------------------
  // The capture listener's own preamble
  // ---------------------------------------------------------------------

  /** The file the listeners start in pcapng mode: a section header and two
      interface descriptions. On a little-endian machine the tester reads
      it as those three blocks and ends cleanly; corrected, it reports them
      at 0, 32 and 60, where they start; as written it reports the
      interface descriptions at 28 and 56, 4 bytes before they start. */
  lemma PreambleWalk(initialSection: Endianness)
    ensures var r := Walk(CaptureFiles.Preamble(false), EndianLittle, initialSection, Corrected);
            && r.outcome == CleanEnd && |r.blocks| == 3
            && r.blocks[0].kind == SectionHeader && r.blocks[0].section == EndianLittle
            && r.blocks[1].kind == InterfaceDescription && r.blocks[2].kind == InterfaceDescription
            && r.blocks[0].adjustedLength == 32 && r.blocks[1].adjustedLength == 28
            && r.blocks[0].offset == 0 && r.blocks[1].offset == 32 && r.blocks[2].offset == 60
    ensures var r := Walk(CaptureFiles.Preamble(false), EndianLittle, initialSection, AsWritten);
            && r.outcome == CleanEnd && |r.blocks| == 3
            && r.blocks[0].offset == 0 && r.blocks[1].offset == 28 && r.blocks[2].offset == 56
  {
    var f := CaptureFiles.Preamble(false);
    var st0 := WalkState(0, 0, initialSection);
    CaptureFiles.PreambleBlocks(false);
    PreambleWalkRevision(f, initialSection, Corrected);
    PreambleWalkRevision(f, initialSection, AsWritten);
    assert Walk(f, EndianLittle, initialSection, Corrected) == WalkFrom(f, 0, EndianLittle, st0, Corrected);
    assert Walk(f, EndianLittle, initialSection, AsWritten) == WalkFrom(f, 0, EndianLittle, st0, AsWritten);
  }

  /** The walk over any 88 bytes laid out as the preamble. */
  lemma PreambleWalkRevision(f: seq<byte>, initialSection: Endianness, rev: Revision)
    requires |f| == 88
    requires ReadLe32(f, 0) == PCAPNG_BLOCK_SECTION_HEADER && ReadLe32(f, 4) == 32
    requires ReadLe32(f, 8) == BYTE_ORDER_MAGIC
    requires ReadLe32(f, 32) == PCAPNG_BLOCK_INTERFACE_DESCRIPTION && ReadLe32(f, 36) == 28
    requires ReadLe32(f, 60) == PCAPNG_BLOCK_INTERFACE_DESCRIPTION && ReadLe32(f, 64) == 28
    ensures var r := WalkFrom(f, 0, EndianLittle, WalkState(0, 0, initialSection), rev);
            && r.outcome == CleanEnd && |r.blocks| == 3
            && r.blocks[0].kind == SectionHeader && r.blocks[0].section == EndianLittle
            && r.blocks[1].kind == InterfaceDescription && r.blocks[2].kind == InterfaceDescription
            && r.blocks[0].adjustedLength == 32 && r.blocks[1].adjustedLength == 28
            && r.blocks[0].offset == 0
            && r.blocks[1].offset == (if rev == Corrected then 32 else 28)
            && r.blocks[2].offset == (if rev == Corrected then 60 else 56)
  {
    var sys := EndianLittle;
    var st0 := WalkState(0, 0, initialSection);
    LittleSectionHeaderAt(f, 0, st0, rev, 32);
    var s0 := BlockAt(f, 0, sys, st0, rev);
    var st1 := s0.state;
    assert st1.totalRead == (if rev == Corrected then 32 else 28);
    LittleBlockAt(f, 32, st1, rev, PCAPNG_BLOCK_INTERFACE_DESCRIPTION, 28);
    var s1 := BlockAt(f, 32, sys, st1, rev);
    var st2 := s1.state;
    assert st2.totalRead == (if rev == Corrected then 60 else 56);
    LittleBlockAt(f, 60, st2, rev, PCAPNG_BLOCK_INTERFACE_DESCRIPTION, 28);
    var s2 := BlockAt(f, 60, sys, st2, rev);
    assert WalkFrom(f, 88, sys, s2.state, rev) == WalkResult([], CleanEnd);
    WalkFromNext(f, 60, sys, st2, rev);
    assert WalkFrom(f, 60, sys, st2, rev).blocks == [s2.report];
    WalkFromNext(f, 32, sys, st1, rev);
    assert WalkFrom(f, 32, sys, st1, rev).blocks == [s1.report, s2.report];
    WalkFromNext(f, 0, sys, st0, rev);
    var bs := WalkFrom(f, 0, sys, st0, rev).blocks;
    assert bs == [s0.report] + [s1.report, s2.report];
  }

  /** A little-endian section header of length `len` at `pos`. */
  lemma LittleSectionHeaderAt(f: seq<byte>, pos: nat, st: WalkState, rev: Revision, len: u32)
    requires pos + len <= |f| && len % 4 == 0 && 12 <= len <= 12 + BUFFER_BYTES - MAGIC_BYTES
    requires ReadLe32(f, pos) == PCAPNG_BLOCK_SECTION_HEADER && ReadLe32(f, pos + 4) == len
    requires ReadLe32(f, pos + 8) == BYTE_ORDER_MAGIC
    ensures var number := Wrap32(st.blockNumber + 1);
            BlockAt(f, pos, EndianLittle, st, rev)
            == Next(BlockReport(st.totalRead, number, PCAPNG_BLOCK_SECTION_HEADER, SectionHeader, len, len, EndianLittle),
                    pos + len, WalkState(Wrap32(st.totalRead + len - (if rev == AsWritten then 4 else 0)), number, EndianLittle))
  {
    assert ReadLe32(f[pos..pos + 4], 0) == ReadLe32(f, pos);
    assert ReadLe32(f[pos + 4..pos + 8], 0) == ReadLe32(f, pos + 4);
    Le32OfReadLe32(f, pos + 8);
    assert Le32(BYTE_ORDER_MAGIC) == [0x4d, 0x3c, 0x2b, 0x1a];
    var start := pos + 12;
    BlockBodyFacts(f, start, Wrap32(st.blockNumber + 1), st.totalRead, PCAPNG_BLOCK_SECTION_HEADER, len, EndianLittle, rev);
  }

  /** A little-endian block of another named type and length `len` at `pos`,
      inside a little-endian section. */
  lemma LittleBlockAt(f: seq<byte>, pos: nat, st: WalkState, rev: Revision, t: u32, len: u32)
    requires st.section == EndianLittle
    requires pos + len <= |f| && len % 4 == 0 && 8 <= len <= 8 + BUFFER_BYTES
    requires ReadLe32(f, pos) == t && ReadLe32(f, pos + 4) == len
    requires 1 <= t <= 6
    ensures var number := Wrap32(st.blockNumber + 1);
            BlockAt(f, pos, EndianLittle, st, rev)
            == Next(BlockReport(st.totalRead, number, t, Classify(t), len, len, EndianLittle),
                    pos + len, WalkState(Wrap32(st.totalRead + len), number, EndianLittle))
  {
    assert ReadLe32(f[pos..pos + 4], 0) == ReadLe32(f, pos);
    assert ReadLe32(f[pos + 4..pos + 8], 0) == ReadLe32(f, pos + 4);
    BlockBodyFacts(f, pos + 8, Wrap32(st.blockNumber + 1), st.totalRead, t, len, EndianLittle, rev);
  }

  // ---------------------------------------------------------------------
  // The body read and `myBuffer`
  // ---------------------------------------------------------------------

  /** As written, a section header whose adjusted length is 4108 has 4096
      body bytes stored from `myBuffer[4]`: four past the end of the
      4096-byte buffer. */
  lemma AsWrittenSectionBodyOverruns()
    ensures var f := LongSectionHeader();
            var s := BlockAt(f, 0, EndianLittle, WalkState(0, 0, EndianLittle), AsWritten);
            && s.Next? && s.report.kind == SectionHeader
            && BodyOffset(true) + (s.next - HEADER_BYTES - MAGIC_BYTES) > BUFFER_BYTES
  {
    var f := LongSectionHeader();
    ReadLe32OfLe32(PCAPNG_BLOCK_SECTION_HEADER);
    ReadLe32OfLe32(4108);
    assert f[0..4] == Le32(PCAPNG_BLOCK_SECTION_HEADER);
    assert f[4..8] == Le32(4108);
    assert f[8..12] == Le32(BYTE_ORDER_MAGIC);
    assert Le32(BYTE_ORDER_MAGIC) == [0x4d, 0x3c, 0x2b, 0x1a];
    var st := WalkState(0, 0, EndianLittle);
    BlockBodyFacts(f, 12, 1, 0, PCAPNG_BLOCK_SECTION_HEADER, 4108, EndianLittle, AsWritten);
  }

  /** A little-endian section header of length 4108 followed by its body. */
  function LongSectionHeader(): (f: seq<byte>)
    ensures |f| == 4108
  {
    Le32(PCAPNG_BLOCK_SECTION_HEADER) + Le32(4108) + Le32(BYTE_ORDER_MAGIC) + seq(4096, _ => 0)
  }

  /** Corrected, every body read (successful or not) stays inside
      `myBuffer`: it starts at the body offset and asks for at most the
      room left there. */
  lemma CorrectedBodyReadFits(blockType: u32, adjusted: u32)
    ensures var isShb := blockType == PCAPNG_BLOCK_SECTION_HEADER;
            BodyOffset(isShb) + Min(BodyWant(blockType, adjusted), ReadCap(Corrected, isShb)) <= BUFFER_BYTES
  {
  }

  /** `fread` from the file at `pos` into `buf[at..]`: as many of the `n`
      bytes as the file still has, setting the end-of-file flag when it
      runs out. */
  method Read(file: seq<byte>, pos: nat, buf: array<byte>, at: nat, n: nat) returns (got: nat, eof: bool)
    requires pos <= |file| && at + n <= buf.Length
    modifies buf
    ensures got == Min(n, |file| - pos) && eof == (got < n)
    ensures buf[at..at + got] == file[pos..pos + got]
  {
    got := 0;
    while got < n && pos + got < |file|
      invariant got <= n && pos + got <= |file|
      invariant buf[at..at + got] == file[pos..pos + got]
      decreases n - got
    {
      buf[at + got] := file[pos + got];
      got := got + 1;
    }
    eof := got < n;
  }

  /** Lines 249-362 of one pass, corrected: name the type, stop on a
      corrupted section header, adjust the length, read the body into
      `myBuffer` and advance the running offset. */
  method ReadBody(file: seq<byte>, start: nat, myBuffer: array<byte>, number: u32, totalRead: u32,
                  blockType: u32, blockLength: u32, section: Endianness) returns (step: Step)
    requires start <= |file| && myBuffer.Length == BUFFER_BYTES
    modifies myBuffer
    ensures step == BlockBody(file, start, number, totalRead, blockType, blockLength, section, Corrected)
  {
    var kind := Classify(blockType);
    if kind == CorruptedSectionHeader {
      return Stop(CorruptedSection(blockType));
    }
    var adjustedBlockLength := AdjustedLength(blockLength);
    var isShb := blockType == PCAPNG_BLOCK_SECTION_HEADER;
    var want := BodyWant(blockType, adjustedBlockLength);
    CorrectedBodyReadFits(blockType, adjustedBlockLength);
    var readLength, eof := Read(file, start, myBuffer, BodyOffset(isShb), Min(want, ReadCap(Corrected, isShb)));
    if readLength != want {
      return Stop(ShortData(want, readLength));
    }
    var counted := HEADER_BYTES + readLength + (if isShb then MAGIC_BYTES else 0);
    step := Next(BlockReport(totalRead, number, blockType, kind, blockLength, adjustedBlockLength, section),
                 start + readLength, WalkState(Wrap32(totalRead + counted), number, section));
  }

  /** The main loop of `main`, with the corrected accounting: the header is
      read into `myHeader`, the magic and the body into `myBuffer`, and the
      result is the corrected walk. */
  method WalkFile(file: seq<byte>, system: Endianness, initialSection: Endianness)
      returns (blocks: seq<BlockReport>, outcome: Outcome)
    ensures WalkResult(blocks, outcome) == Walk(file, system, initialSection, Corrected)
  {
    if system == EndianUnknown {
      return [], UnknownSystem;
    }
    var myBuffer := new byte[BUFFER_BYTES];
    var myHeader := new byte[HEADER_BYTES];
    var pos: nat := 0;
    var st := WalkState(0, 0, initialSection);
    blocks := [];
    while true
      invariant pos <= |file|
      invariant Walk(file, system, initialSection, Corrected)
                == Prepend(blocks, WalkFrom(file, pos, system, st, Corrected))
      decreases |file| - pos
    {
      var step := ReadBlock(file, pos, system, st, myBuffer, myHeader);
      match step
      case Stop(o) =>
        outcome := o;
        assert WalkFrom(file, pos, system, st, Corrected) == WalkResult([], o);
        return;
      case Next(report, next, st') =>
        assert WalkFrom(file, pos, system, st, Corrected)
               == Prepend([report], WalkFrom(file, next, system, st', Corrected));
        blocks := blocks + [report];
        pos, st := next, st';
    }
  }

  /** Lines 200-245 of one pass: read the header (a clean end when no byte
      is left), the magic when the raw type is a section header's, swap
      the header words, then the rest of the block. */
  method ReadBlock(file: seq<byte>, pos: nat, system: Endianness, st: WalkState,
                   myBuffer: array<byte>, myHeader: array<byte>) returns (step: Step)
    requires pos <= |file| && system != EndianUnknown
    requires myBuffer.Length == BUFFER_BYTES && myHeader.Length == HEADER_BYTES && myBuffer != myHeader
    modifies myBuffer, myHeader
    ensures step == BlockAt(file, pos, system, st, Corrected)
  {
    var readLength, eof := Read(file, pos, myHeader, 0, HEADER_BYTES);
    if readLength < HEADER_BYTES {
      if readLength == 0 && eof {
        return Stop(CleanEnd);
      }
      return Stop(ShortHeader(readLength));
    }
    var rawType, rawLength := myHeader[..4], myHeader[4..8];
    assert rawType == file[pos..pos + 4] && rawLength == file[pos + 4..pos + 8];
    var section := st.section;
    var start := pos + HEADER_BYTES;
    if NativeWord(system, rawType) == PCAPNG_BLOCK_SECTION_HEADER {
      readLength, eof := Read(file, start, myBuffer, 0, MAGIC_BYTES);
      if readLength != MAGIC_BYTES {
        return Stop(ShortMagic(readLength));
      }
      assert myBuffer[..4] == file[start..start + 4];
      section := GetSectionEndianness(myBuffer[..4]);
      start := start + MAGIC_BYTES;
    }
    var blockType := GetDataWord(system, section, rawType);
    var blockLength := GetDataWord(system, section, rawLength);
    step := ReadBody(file, start, myBuffer, Wrap32(st.blockNumber + 1), st.totalRead, blockType, blockLength, section);
  }
}
