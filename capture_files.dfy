/** What the host listeners write to the capture file: the libpcap file
    header (section 4 of draft-ietf-opsawg-pcap), the pcapng Section Header
    Block and Interface Description Blocks (sections 4.1 and 4.2 of
    draft-ietf-opsawg-pcapng), and, per captured frame, either the device's
    Enhanced Packet Block unchanged or a libpcap record (section 5 of
    draft-ietf-opsawg-pcap) converted from it.

    The same emitters appear in host_pcapng/pcapng_listener.c, in
    host_application/common/shared.c and (section header and interface
    description only) in pcapng_listener/c/pcapng_listener.c; the same
    data hook in host_pcapng/pcapng_listener.c,
    host_application/avb_tester/avb_tester.c and
    host_application/traffic_gen_controller/traffic_gen_controller.c.
    Records are written as packed little-endian fields. */
module CaptureFiles {
  import opened Common
  import opened Pcapng
  import opened PackedFields

  /** `CAPTURE_LENGTH`: the snap length declared in every header. */
  const CAPTURE_LENGTH: u32 := 64
  /** `DATA_LINK_ETHERNET`: LINKTYPE_ETHERNET of draft-ietf-opsawg-pcaplinktype. */
  const DATA_LINK_ETHERNET: u32 := 1
  const PCAP_MAGIC: u32 := 0xA1B2C3D4
  /** The `if_tsresol` value: the device counts in units of 10^-8 s. */
  const TSRESOL_EXPONENT: byte := 8
  /** Device timestamp ticks per microsecond. */
  const TICKS_PER_MICROSECOND: nat := 100
  const MICROSECONDS_PER_SECOND: nat := 1_000_000

  /** `sizeof` of the records as written. */
  const PCAP_HEADER_BYTES: nat := 24
  const PCAP_RECORD_HEADER_BYTES: nat := 16
  const SHB_BYTES: nat := 32
  const IDB_BYTES: nat := 28

  /** `pcap_hdr_t`. */
  datatype PcapHeader = PcapHeader(
    magic: u32,
    versionMajor: u16,
    versionMinor: u16,
    thisZone: u32,
    sigFigs: u32,
    snapLen: u32,
    network: u32)

  /** `pcaprec_hdr_t`. */
  datatype PcapRecordHeader = PcapRecordHeader(tsSec: u32, tsUsec: u32, inclLen: u32, origLen: u32)

  // ---------------------------------------------------------------------
  // The header records and their bytes
  // ---------------------------------------------------------------------

  /** `emit_pcap_header`: version 2.4, GMT, no accuracy, Ethernet. */
  function EmittedPcapHeader(): PcapHeader
  {
    PcapHeader(PCAP_MAGIC, 2, 4, 0, 0, CAPTURE_LENGTH, DATA_LINK_ETHERNET)
  }

  /** `emit_pcapng_section_header_block`: version 1.0, section length
      unspecified (all ones), no options. */
  function EmittedSectionHeader(): SectionHeaderBlock
  {
    SectionHeaderBlock(PCAPNG_BLOCK_SECTION_HEADER, SHB_BYTES, BYTE_ORDER_MAGIC, 1, 0,
                       0xFFFF_FFFF_FFFF_FFFF, 0, SHB_BYTES)
  }

  /** `emit_pcapng_interface_description_block`: Ethernet, snap length 64,
      one `if_tsresol` option of 8; both lengths are the struct's size. */
  function EmittedInterfaceDescription(): InterfaceDescriptionBlock
  {
    InterfaceDescriptionBlock(PCAPNG_BLOCK_INTERFACE_DESCRIPTION, IDB_BYTES, DATA_LINK_ETHERNET, 0,
                              CAPTURE_LENGTH, OptionIfTsresol(OPTION_IF_TSRESOL, 1, TSRESOL_EXPONENT),
                              IDB_BYTES)
  }

  function PcapHeaderFields(h: PcapHeader): seq<Field>
  {
    [W32(h.magic), W16(h.versionMajor), W16(h.versionMinor), W32(h.thisZone),
     W32(h.sigFigs), W32(h.snapLen), W32(h.network)]
  }

  function RecordHeaderFields(r: PcapRecordHeader): seq<Field>
  {
    [W32(r.tsSec), W32(r.tsUsec), W32(r.inclLen), W32(r.origLen)]
  }

  /** The Section Header Block's members lie back to back. */
  function SectionHeaderFields(h: SectionHeaderBlock): seq<Field>
  {
    [W32(h.blockType), W32(h.blockTotalLenPre), W32(h.byteOrderMagic), W16(h.majorVersion),
     W16(h.minorVersion), W64(h.sectionLength), W32(h.options), W32(h.blockTotalLenPost)]
  }

  /** The option record is 5 bytes of fields padded to 6, and the struct
      pads 2 more bytes before the trailing length. */
  function InterfaceDescriptionFields(b: InterfaceDescriptionBlock): seq<Field>
  {
    [W32(b.blockType), W32(b.blockTotalLenPre), W16(b.linkType), W16(b.reserved), W32(b.snapLen),
     W16(b.ifTsresol.optionType), W16(b.ifTsresol.length), W8(b.ifTsresol.value), Pad(1), Pad(2),
     W32(b.blockTotalLenPost)]
  }

  function PcapHeaderBytes(): (r: seq<byte>)
    ensures |r| == PCAP_HEADER_BYTES
  {
    var fs := PcapHeaderFields(EmittedPcapHeader());
    PackLength(fs);
    Pack(fs)
  }

  function SectionHeaderBytes(): (r: seq<byte>)
    ensures |r| == SHB_BYTES
  {
    var fs := SectionHeaderFields(EmittedSectionHeader());
    PackLength(fs);
    Pack(fs)
  }

  function InterfaceDescriptionBytes(): (r: seq<byte>)
    ensures |r| == IDB_BYTES
  {
    InterfaceDescriptionLength(EmittedInterfaceDescription());
    Pack(InterfaceDescriptionFields(EmittedInterfaceDescription()))
  }

  /** Every Interface Description Block packs to `IDB_BYTES` bytes. */
  lemma InterfaceDescriptionLength(b: InterfaceDescriptionBlock)
    ensures |Pack(InterfaceDescriptionFields(b))| == IDB_BYTES
  {
    var fs := InterfaceDescriptionFields(b);
    PackLength(fs);
    assert Offset(fs, 1) == 4;
    assert Offset(fs, 2) == 8;
    assert Offset(fs, 3) == 10;
    assert Offset(fs, 4) == 12;
    assert Offset(fs, 5) == 16;
    assert Offset(fs, 6) == 18;
    assert Offset(fs, 7) == 20;
    assert Offset(fs, 8) == 21;
    assert Offset(fs, 9) == 22;
    assert Offset(fs, 10) == 24;
  }

  /** The libpcap file header is 24 bytes that start with the magic number
      and declare version 2.4, time zone 0, timestamp accuracy 0, snap
      length 64 and Ethernet. */
  lemma PcapHeaderWellFormed()
    ensures |PcapHeaderBytes()| == PCAP_HEADER_BYTES
    ensures ReadLe32(PcapHeaderBytes(), 0) == PCAP_MAGIC
    ensures ReadLe16(PcapHeaderBytes(), 4) == 2 && ReadLe16(PcapHeaderBytes(), 6) == 4
    ensures ReadLe32(PcapHeaderBytes(), 8) == 0 && ReadLe32(PcapHeaderBytes(), 12) == 0
    ensures ReadLe32(PcapHeaderBytes(), 16) == CAPTURE_LENGTH
    ensures ReadLe32(PcapHeaderBytes(), 20) == DATA_LINK_ETHERNET
  {
    var fs := PcapHeaderFields(EmittedPcapHeader());
    PackLength(fs);
    assert Offset(fs, 1) == 4;
    assert Offset(fs, 2) == 6;
    assert Offset(fs, 3) == 8;
    assert Offset(fs, 4) == 12;
    assert Offset(fs, 5) == 16;
    assert Offset(fs, 6) == 20;
    assert Offset(fs, 7) == 24;
    ReadU32At(fs, 0);
    ReadU16At(fs, 1);
    ReadU16At(fs, 2);
    ReadU32At(fs, 3);
    ReadU32At(fs, 4);
    ReadU32At(fs, 5);
    ReadU32At(fs, 6);
  }

  /** The Section Header Block is 32 bytes, both of its length fields say
      so, and it carries the block type, the byte-order magic, version 1.0
      and an unspecified (all ones) section length. */
  lemma SectionHeaderWellFormed()
    ensures |SectionHeaderBytes()| == SHB_BYTES
    ensures ReadLe32(SectionHeaderBytes(), 0) == PCAPNG_BLOCK_SECTION_HEADER
    ensures ReadLe32(SectionHeaderBytes(), 4) == |SectionHeaderBytes()|
    ensures ReadLe32(SectionHeaderBytes(), 28) == |SectionHeaderBytes()|
    ensures ReadLe32(SectionHeaderBytes(), 8) == BYTE_ORDER_MAGIC
    ensures ReadLe16(SectionHeaderBytes(), 12) == 1 && ReadLe16(SectionHeaderBytes(), 14) == 0
    ensures ReadLe32(SectionHeaderBytes(), 16) == 0xFFFF_FFFF && ReadLe32(SectionHeaderBytes(), 20) == 0xFFFF_FFFF
  {
    var fs := SectionHeaderFields(EmittedSectionHeader());
    PackLength(fs);
    assert Offset(fs, 1) == 4;
    assert Offset(fs, 2) == 8;
    assert Offset(fs, 3) == 12;
    assert Offset(fs, 4) == 14;
    assert Offset(fs, 5) == 16;
    assert Offset(fs, 6) == 24;
    assert Offset(fs, 7) == 28;
    assert Offset(fs, 8) == 32;
    ReadU32At(fs, 0);
    ReadU32At(fs, 1);
    ReadU32At(fs, 2);
    ReadU16At(fs, 3);
    ReadU16At(fs, 4);
    ReadU64At(fs, 5);
    ReadU32At(fs, 7);
  }

  /** The fields written for the Section Header Block sit at the offsets
      the C layout of `section_block_header_t` gives them. */
  lemma SectionHeaderFollowsCLayout()
    ensures |SectionHeaderFields(EmittedSectionHeader())| == |SHB_MEMBERS|
    ensures forall k :: 0 <= k < |SHB_MEMBERS| ==>
              Offset(SectionHeaderFields(EmittedSectionHeader()), k) == [0, 4, 8, 12, 14, 16, 24, 28][k]
    ensures IsCLayout(SHB_MEMBERS, [0, 4, 8, 12, 14, 16, 24, 28], 8, |SectionHeaderBytes()|)
  {
    var fs := SectionHeaderFields(EmittedSectionHeader());
    PackLength(fs);
    SectionHeaderLayout();
    assert Offset(fs, 1) == 4;
    assert Offset(fs, 2) == 8;
    assert Offset(fs, 3) == 12;
    assert Offset(fs, 4) == 14;
    assert Offset(fs, 5) == 16;
    assert Offset(fs, 6) == 24;
    assert Offset(fs, 7) == 28;
    assert Offset(fs, 8) == 32;
  }

  /** The Interface Description Block is 28 bytes (`IDB_BYTES`, the size
      `Pcapng.InterfaceDescriptionLayout` gives the C struct), a multiple of 4, and
      both of its length fields say so; it declares Ethernet and snap
      length 64. */
  lemma InterfaceDescriptionWellFormed()
    ensures |InterfaceDescriptionBytes()| == IDB_BYTES && IDB_BYTES % 4 == 0
    ensures ReadLe32(InterfaceDescriptionBytes(), 0) == PCAPNG_BLOCK_INTERFACE_DESCRIPTION
    ensures ReadLe32(InterfaceDescriptionBytes(), 4) == |InterfaceDescriptionBytes()|
    ensures ReadLe32(InterfaceDescriptionBytes(), 24) == |InterfaceDescriptionBytes()|
    ensures ReadLe16(InterfaceDescriptionBytes(), 8) == DATA_LINK_ETHERNET
    ensures ReadLe32(InterfaceDescriptionBytes(), 12) == CAPTURE_LENGTH
  {
    var fs := InterfaceDescriptionFields(EmittedInterfaceDescription());
    IdbOffsets();
    ReadU32At(fs, 0);
    ReadU32At(fs, 1);
    ReadU16At(fs, 2);
    ReadU32At(fs, 4);
    ReadU32At(fs, 10);
  }

  /** The `if_tsresol` option sits at offset 16 of the Interface
      Description Block: code 9, length 1, value 8. */
  lemma InterfaceDescriptionTsresol()
    ensures |InterfaceDescriptionBytes()| == IDB_BYTES
    ensures ReadLe16(InterfaceDescriptionBytes(), 16) == OPTION_IF_TSRESOL
    ensures ReadLe16(InterfaceDescriptionBytes(), 18) == 1
    ensures InterfaceDescriptionBytes()[20] == TSRESOL_EXPONENT
  {
    var fs := InterfaceDescriptionFields(EmittedInterfaceDescription());
    IdbOffsets();
    PackLength(fs);
    ReadU16At(fs, 5);
    ReadU16At(fs, 6);
    ReadU8At(fs, 7);
  }

  lemma IdbOffsets()
    ensures var fs := InterfaceDescriptionFields(EmittedInterfaceDescription());
            && Offset(fs, 1) == 4 && Offset(fs, 2) == 8 && Offset(fs, 4) == 12 && Offset(fs, 5) == 16
            && Offset(fs, 6) == 18 && Offset(fs, 7) == 20 && Offset(fs, 10) == 24 && Offset(fs, 11) == 28
  {
    var fs := InterfaceDescriptionFields(EmittedInterfaceDescription());
    assert Offset(fs, 1) == 4;
    assert Offset(fs, 2) == 8;
    assert Offset(fs, 3) == 10;
    assert Offset(fs, 4) == 12;
    assert Offset(fs, 5) == 16;
    assert Offset(fs, 6) == 18;
    assert Offset(fs, 7) == 20;
    assert Offset(fs, 8) == 21;
    assert Offset(fs, 9) == 22;
    assert Offset(fs, 10) == 24;
    assert Offset(fs, 11) == 28;
  }

  /** Units per second of an `if_tsresol` value (section 4.2 of
      draft-ietf-opsawg-pcapng): a negative power of 10 when the top bit is
      clear, of 2 when it is set. */
  function TsresolUnitsPerSecond(v: byte): (r: nat)
    ensures r >= 1
  {
    if v < 0x80 then Pow(10, v) else Pow(2, v - 0x80)
  }

  function Pow(b: nat, e: nat): (r: nat)
    requires b >= 1
    ensures r >= 1
  {
    if e == 0 then 1 else b * Pow(b, e - 1)
  }

  // ---------------------------------------------------------------------
  // The capture hook
  // ---------------------------------------------------------------------

  /** The Enhanced Packet Block a data message carries, as the hook reads it
      through `enhanced_packet_block_t *`: seven words, then the frame bytes
      from `EPB_DATA_OFFSET`. */
  function EpbView(data: seq<byte>): (e: EnhancedPacketBlock)
    requires |data| >= EPB_DATA_OFFSET
    ensures e.data == data[EPB_DATA_OFFSET..]
    ensures e.capturedLen == ReadLe32(data, 20) && e.packetLen == ReadLe32(data, 24)
  {
    EnhancedPacketBlock(ReadLe32(data, 0), ReadLe32(data, 4), ReadLe32(data, 8), ReadLe32(data, 12),
                        ReadLe32(data, 16), ReadLe32(data, 20), ReadLe32(data, 24), data[EPB_DATA_OFFSET..])
  }

  /** The device timestamp in ticks: `(timestamp_high << 32) | timestamp_low`. */
  function Ticks(e: EnhancedPacketBlock): (t: u64)
  {
    e.timestampHigh * TWO_32 + e.timestampLow
  }

  /** The libpcap record header built from an EPB: `packet_time` is the
      timestamp in microseconds (ticks / 100); its seconds are truncated to
      32 bits and its microseconds are the remainder. */
  function RecordHeaderOf(e: EnhancedPacketBlock): PcapRecordHeader
  {
    var packetTime := Ticks(e) / TICKS_PER_MICROSECOND;
    PcapRecordHeader(Wrap32(packetTime / MICROSECONDS_PER_SECOND), packetTime % MICROSECONDS_PER_SECOND,
                     e.capturedLen, e.packetLen)
  }

  /** The record header's time is the EPB's timestamp, read at the
      resolution the Interface Description Block declares, rounded down to
      a microsecond: the microseconds are below a million, and the seconds
      are the whole seconds modulo 2^32 (exact below 2^32 seconds, about
      136 years). Lengths are copied. */
  lemma RecordHeaderTime(e: EnhancedPacketBlock)
    ensures var h := RecordHeaderOf(e);
            var perSecond := TsresolUnitsPerSecond(EmittedInterfaceDescription().ifTsresol.value);
            && h.tsUsec < MICROSECONDS_PER_SECOND
            && h.tsSec == (Ticks(e) / perSecond) % TWO_32
            && (Ticks(e) / perSecond < TWO_32 ==>
                  h.tsSec * MICROSECONDS_PER_SECOND + h.tsUsec == Ticks(e) * MICROSECONDS_PER_SECOND / perSecond)
            && h.inclLen == e.capturedLen && h.origLen == e.packetLen
  {
    var t: nat := Ticks(e);
    assert TsresolUnitsPerSecond(TSRESOL_EXPONENT) == 100_000_000 by {
      assert Pow(10, 8) == 100_000_000;
    }
    TimeDivisions(t);
  }

  /** Ticks of 10 ns: whole seconds and microseconds. */
  lemma TimeDivisions(t: nat)
    ensures t / 100 / 1_000_000 == t / 100_000_000
    ensures t * 1_000_000 / 100_000_000 == t / 100
  {
    var q, r := t / 100_000_000, t % 100_000_000;
    assert t == 100_000_000 * q + r;
    assert t / 100 == 1_000_000 * q + r / 100;
    var p, m := t / 100, t % 100;
    assert t * 1_000_000 == 100_000_000 * p + m * 1_000_000;
    assert 0 <= m * 1_000_000 < 100_000_000;
  }

  /** `hook_data_received`: in pcapng mode the device's EPB bytes go to the
      file unchanged; in libpcap mode a 16-byte record header goes first,
      then the `captured_len` frame bytes. The hook trusts the device for
      the EPB header and for `captured_len`. */
  function HookOutput(libpcapMode: bool, data: seq<byte>): (out: seq<byte>)
    requires libpcapMode ==> |data| >= EPB_DATA_OFFSET
    requires libpcapMode ==> EpbView(data).capturedLen <= |data| - EPB_DATA_OFFSET
  {
    if libpcapMode then
      var e := EpbView(data);
      Pack(RecordHeaderFields(RecordHeaderOf(e))) + e.data[..e.capturedLen]
    else
      data
  }

  /** The libpcap record the hook writes reads back as a record header whose
      lengths are the EPB's and whose payload is the captured frame bytes;
      in pcapng mode the data passes through untouched. */
  lemma HookOutputRecord(libpcapMode: bool, data: seq<byte>)
    requires libpcapMode ==> |data| >= EPB_DATA_OFFSET
    requires libpcapMode ==> EpbView(data).capturedLen <= |data| - EPB_DATA_OFFSET
    ensures !libpcapMode ==> HookOutput(libpcapMode, data) == data
    ensures libpcapMode ==>
              var out, e := HookOutput(libpcapMode, data), EpbView(data);
              && |out| == PCAP_RECORD_HEADER_BYTES + e.capturedLen
              && ReadLe32(out, 0) == RecordHeaderOf(e).tsSec
              && ReadLe32(out, 4) == RecordHeaderOf(e).tsUsec
              && ReadLe32(out, 8) == e.capturedLen
              && ReadLe32(out, 12) == e.packetLen
              && out[PCAP_RECORD_HEADER_BYTES..] == data[EPB_DATA_OFFSET..EPB_DATA_OFFSET + e.capturedLen]
  {
    if libpcapMode {
      var e := EpbView(data);
      var fs := RecordHeaderFields(RecordHeaderOf(e));
      var out := HookOutput(libpcapMode, data);
      PackLength(fs);
      assert Offset(fs, 1) == 4;
      assert Offset(fs, 2) == 8;
      assert Offset(fs, 3) == 12;
      assert Offset(fs, 4) == 16;
      ReadU32At(fs, 0);
      ReadU32At(fs, 1);
      ReadU32At(fs, 2);
      ReadU32At(fs, 3);
      var hdr := Pack(fs);
      assert out == hdr + e.data[..e.capturedLen];
      assert out[..16] == hdr;
      assert ReadLe32(out, 0) == ReadLe32(hdr, 0);
      assert ReadLe32(out, 4) == ReadLe32(hdr, 4);
      assert ReadLe32(out, 8) == ReadLe32(hdr, 8);
      assert ReadLe32(out, 12) == ReadLe32(hdr, 12);
    }
  }

  // ---------------------------------------------------------------------
  // What each listener writes before the first frame
  // ---------------------------------------------------------------------

  /** The start of the file in host_pcapng and traffic_gen_controller: the
      libpcap header alone, or a section header and one interface
      description per tap port. */
  function Preamble(libpcapMode: bool): seq<byte>
  {
    if libpcapMode then PcapHeaderBytes()
    else SectionHeaderBytes() + InterfaceDescriptionBytes() + InterfaceDescriptionBytes()
  }

  /** The older C listener always writes pcapng. */
  function LegacyPreamble(): seq<byte>
  {
    SectionHeaderBytes() + InterfaceDescriptionBytes() + InterfaceDescriptionBytes()
  }

  /** In pcapng mode the preamble is three blocks back to back, each
      declaring its own length: a section header at 0, interface
      descriptions at 32 and 60, ending at 88. In libpcap mode it is the
      24-byte libpcap header. The older listener writes the pcapng one. */
  lemma PreambleBlocks(libpcapMode: bool)
    ensures var r := Preamble(libpcapMode);
            if libpcapMode then
              |r| == PCAP_HEADER_BYTES && ReadLe32(r, 0) == PCAP_MAGIC
            else
              && |r| == SHB_BYTES + 2 * IDB_BYTES
              && ReadLe32(r, 0) == PCAPNG_BLOCK_SECTION_HEADER && ReadLe32(r, 4) == SHB_BYTES
              && ReadLe32(r, 8) == BYTE_ORDER_MAGIC
              && ReadLe32(r, SHB_BYTES) == PCAPNG_BLOCK_INTERFACE_DESCRIPTION
              && ReadLe32(r, SHB_BYTES + 4) == IDB_BYTES
              && ReadLe32(r, SHB_BYTES + IDB_BYTES) == PCAPNG_BLOCK_INTERFACE_DESCRIPTION
              && ReadLe32(r, SHB_BYTES + IDB_BYTES + 4) == IDB_BYTES
    ensures LegacyPreamble() == Preamble(false)
  {
    PcapHeaderWellFormed();
    SectionHeaderWellFormed();
    InterfaceDescriptionWellFormed();
    ThreeBlocks(SectionHeaderBytes(), InterfaceDescriptionBytes());
  }

  /** Words of a block followed by two copies of another, read at their
      own offsets. */
  lemma ThreeBlocks(s: seq<byte>, i: seq<byte>)
    requires |s| == SHB_BYTES && |i| == IDB_BYTES
    ensures ReadLe32(s + i + i, 0) == ReadLe32(s, 0) && ReadLe32(s + i + i, 4) == ReadLe32(s, 4)
    ensures ReadLe32(s + i + i, 8) == ReadLe32(s, 8)
    ensures ReadLe32(s + i + i, 32) == ReadLe32(i, 0) && ReadLe32(s + i + i, 36) == ReadLe32(i, 4)
    ensures ReadLe32(s + i + i, 60) == ReadLe32(i, 0) && ReadLe32(s + i + i, 64) == ReadLe32(i, 4)
  {
    ReadShifted(s + i, i, 0);
    ReadShifted(s + i, i, 4);
    ReadShifted(s + i, i, 8);
    ReadShifted(s, i, 0);
    ReadShifted(s, i, 4);
    ReadShifted(s, i, 8);
    ReadShifted(s + i, i, 0);
  }

  /** A word read inside the front part of `a + b`, or inside `b` shifted by
      `|a|`, reads the same as in that part. */
  lemma ReadShifted(a: seq<byte>, b: seq<byte>, pos: nat)
    ensures pos + 4 <= |a| ==> ReadLe32(a + b, pos) == ReadLe32(a, pos)
    ensures pos + 4 <= |b| ==> ReadLe32(a + b, |a| + pos) == ReadLe32(b, pos)
  {
  }
}
