/** The two Python capture listeners: pcapng_listener/pcapng_listener.py
    and its successor pcapng_listener/python/pcapng_listener.py. Both write
    a pcapng Section Header Block and two Interface Description Blocks
    (sections 4.1 and 4.2 of draft-ietf-opsawg-pcapng) with `struct.pack`,
    then turn every 16-byte xscope record received from the socket into the
    one capture byte it carries at offset 4.

    `struct.pack('I', ...)` and `struct.pack('h', ...)` are native and
    unaligned on a little-endian host, so each emitter is a list of packed
    little-endian fields. Python's `IndexError` on a read past the end of
    the received data is not caught and ends the listener; the successor's
    `struct.error` on a short drop-count slice is caught and reported. */
module PyListener {
  import opened Common
  import opened PackedFields
  import opened Pcapng
  import CaptureFiles

  /** `XSCOPE_PACKET_SIZE`: a record is four 32-bit words. */
  const RECORD_BYTES: nat := 16
  /** Offset of the data word of a record. */
  const DATA_OFFSET: nat := 4
  /** The read length after which the successor starts the next read at
      offset 4. */
  const FULL_READ: nat := 16332
  const PY_SHB_BYTES: nat := 32
  const PY_IDB_BYTES: nat := 24

  // ---------------------------------------------------------------------
  // The emitters

  /** `emit_section_header_block`: the 64-bit section length is written as
      two all-ones words, and the options word is 0. */
  function SectionHeaderFields(): seq<Field>
  {
    [W32(PCAPNG_BLOCK_SECTION_HEADER), W32(32), W32(BYTE_ORDER_MAGIC), W16(1), W16(0),
     W32(0xFFFF_FFFF), W32(0xFFFF_FFFF), W32(0), W32(32)]
  }

  /** `emit_interface_description_block`: Ethernet, snap length 64, an
      options word of 0 and no `if_tsresol` option. */
  function InterfaceDescriptionFields(): seq<Field>
  {
    [W32(PCAPNG_BLOCK_INTERFACE_DESCRIPTION), W32(24), W16(1), W16(0),
     W32(CaptureFiles.CAPTURE_LENGTH), W32(0), W32(24)]
  }

  function SectionHeaderBytes(): (r: seq<byte>)
    ensures |r| == PY_SHB_BYTES
  {
    var fs := SectionHeaderFields();
    PackLength(fs);
    Pack(fs)
  }

  function InterfaceDescriptionBytes(): (r: seq<byte>)
    ensures |r| == PY_IDB_BYTES
  {
    var fs := InterfaceDescriptionFields();
    PackLength(fs);
    Pack(fs)
  }

  /** The start of the capture file: one section header, then one
      interface description per tap port. */
  function Preamble(): (r: seq<byte>)
    ensures |r| == PY_SHB_BYTES + 2 * PY_IDB_BYTES
  {
    SectionHeaderBytes() + InterfaceDescriptionBytes() + InterfaceDescriptionBytes()
  }

  /** The Python Section Header Block is 32 bytes, both its length fields
      say so, and it carries the block type, the byte-order magic, version
      1.0 and an all-ones section length. */
  lemma SectionHeaderWellFormed()
    ensures var r := SectionHeaderBytes();
            && ReadLe32(r, 0) == PCAPNG_BLOCK_SECTION_HEADER
            && ReadLe32(r, 4) == |r| && ReadLe32(r, 28) == |r|
            && ReadLe32(r, 8) == BYTE_ORDER_MAGIC
            && ReadLe16(r, 12) == 1 && ReadLe16(r, 14) == 0
            && ReadLe32(r, 16) == 0xFFFF_FFFF && ReadLe32(r, 20) == 0xFFFF_FFFF
  {
    var fs := SectionHeaderFields();
    assert Offset(fs, 1) == 4;
    assert Offset(fs, 2) == 8;
    assert Offset(fs, 3) == 12;
    assert Offset(fs, 4) == 14;
    assert Offset(fs, 5) == 16;
    assert Offset(fs, 6) == 20;
    assert Offset(fs, 7) == 24;
    assert Offset(fs, 8) == 28;
    ReadU32At(fs, 0);
    ReadU32At(fs, 1);
    ReadU32At(fs, 2);
    ReadU16At(fs, 3);
    ReadU16At(fs, 4);
    ReadU32At(fs, 5);
    ReadU32At(fs, 6);
    ReadU32At(fs, 8);
  }

  /** The Python Interface Description Block is 24 bytes, both its length
      fields say so, and it declares Ethernet and snap length 64. */
  lemma InterfaceDescriptionWellFormed()
    ensures var r := InterfaceDescriptionBytes();
            && ReadLe32(r, 0) == PCAPNG_BLOCK_INTERFACE_DESCRIPTION
            && ReadLe32(r, 4) == |r| && ReadLe32(r, 20) == |r|
            && ReadLe16(r, 8) == CaptureFiles.DATA_LINK_ETHERNET
            && ReadLe32(r, 12) == CaptureFiles.CAPTURE_LENGTH
  {
    var fs := InterfaceDescriptionFields();
    assert Offset(fs, 1) == 4;
    assert Offset(fs, 2) == 8;
    assert Offset(fs, 3) == 10;
    assert Offset(fs, 4) == 12;
    assert Offset(fs, 5) == 16;
    assert Offset(fs, 6) == 20;
    ReadU32At(fs, 0);
    ReadU32At(fs, 1);
    ReadU16At(fs, 2);
    ReadU32At(fs, 4);
    ReadU32At(fs, 6);
  }

  /** The Python section header is byte for byte the one the C listeners
      write: the two all-ones words are the low and high halves of the C
      record's 64-bit section length. */
  lemma SectionHeaderMatchesC()
    ensures SectionHeaderBytes() == CaptureFiles.SectionHeaderBytes()
  {
    var py := SectionHeaderFields();
    var c := CaptureFiles.SectionHeaderFields(CaptureFiles.EmittedSectionHeader());
    var front := py[..5];
    assert py == front + [W32(0xFFFF_FFFF), W32(0xFFFF_FFFF)] + py[7..];
    assert c == front + [W64(0xFFFF_FFFF_FFFF_FFFF)] + py[7..];
    SplitWide(front, 0xFFFF_FFFF_FFFF_FFFF, py[7..]);
  }

  /** A 64-bit field packs as its low word followed by its high word. */
  lemma SplitWide(front: seq<Field>, d: u64, back: seq<Field>)
    ensures Pack(front + [W64(d)] + back) == Pack(front + [W32(d % TWO_32), W32(d / TWO_32)] + back)
  {
    var wide := [W64(d)];
    var pair := [W32(d % TWO_32), W32(d / TWO_32)];
    PackAppend(front + wide, back);
    PackAppend(front, wide);
    PackAppend(front + pair, back);
    PackAppend(front, pair);
    PackFront(wide);
    assert wide[1..] == [];
    PackFront(pair);
    PackFront(pair[1..]);
    assert pair[1..][1..] == [];
    assert Pack(wide) == Le64(d) == Le32(d % TWO_32) + Le32(d / TWO_32) == Pack(pair);
  }

  /** The preamble is three blocks back to back, each declaring its own
      length: a section header at 0, interface descriptions at 32 and 56,
      ending at 80. */
  lemma PreambleBlocks()
    ensures var r := Preamble();
            && ReadLe32(r, 0) == PCAPNG_BLOCK_SECTION_HEADER && ReadLe32(r, 4) == PY_SHB_BYTES
            && ReadLe32(r, 8) == BYTE_ORDER_MAGIC
            && ReadLe32(r, 32) == PCAPNG_BLOCK_INTERFACE_DESCRIPTION && ReadLe32(r, 36) == PY_IDB_BYTES
            && ReadLe32(r, 56) == PCAPNG_BLOCK_INTERFACE_DESCRIPTION && ReadLe32(r, 60) == PY_IDB_BYTES
            && |r| == 80
  {
    SectionHeaderWellFormed();
    InterfaceDescriptionWellFormed();
    ThreeBlocks(SectionHeaderBytes(), InterfaceDescriptionBytes());
  }

  /** Words of a 32-byte block followed by two copies of a 24-byte one,
      read at their own offsets. */
  lemma ThreeBlocks(s: seq<byte>, i: seq<byte>)
    requires |s| == PY_SHB_BYTES && |i| == PY_IDB_BYTES
    ensures ReadLe32(s + i + i, 0) == ReadLe32(s, 0) && ReadLe32(s + i + i, 4) == ReadLe32(s, 4)
    ensures ReadLe32(s + i + i, 8) == ReadLe32(s, 8)
    ensures ReadLe32(s + i + i, 32) == ReadLe32(i, 0) && ReadLe32(s + i + i, 36) == ReadLe32(i, 4)
    ensures ReadLe32(s + i + i, 56) == ReadLe32(i, 0) && ReadLe32(s + i + i, 60) == ReadLe32(i, 4)
  {
    CaptureFiles.ReadShifted(s + i, i, 0);
    CaptureFiles.ReadShifted(s + i, i, 4);
    CaptureFiles.ReadShifted(s + i, i, 8);
    CaptureFiles.ReadShifted(s, i, 0);
    CaptureFiles.ReadShifted(s, i, 4);
    CaptureFiles.ReadShifted(s, i, 8);
  }

  // ---------------------------------------------------------------------
  // The first listener: one byte per record

  datatype Extraction = Extraction(capture: seq<byte>, fatal: bool)

  /** The loop `for i in range(0, len(data), 16): f.write(data[i+4])` from
      record start `i` on: a record whose data byte lies past the end raises
      `IndexError`, which ends the listener. */
  function ExtractFrom(data: seq<byte>, i: nat): Extraction
    decreases |data| - i
  {
    if i >= |data| then Extraction([], false)
    else if i + DATA_OFFSET >= |data| then Extraction([], true)
    else
      var rest := ExtractFrom(data, i + RECORD_BYTES);
      Extraction([data[i + DATA_OFFSET]] + rest.capture, rest.fatal)
  }

  /** The listener stops exactly when the read ends 1 to 4 bytes into a
      record; otherwise it writes one byte per record, the byte at offset 4
      of each. */
  lemma {:induction false} ExtractFromFacts(data: seq<byte>, i: nat)
    ensures var r := ExtractFrom(data, i);
            && (r.fatal <==> i < |data| && 1 <= (|data| - i) % RECORD_BYTES <= 4)
            && i + RECORD_BYTES * |r.capture| + DATA_OFFSET >= |data|
            && (forall k :: 0 <= k < |r.capture| ==>
                  i + RECORD_BYTES * k + DATA_OFFSET < |data| &&
                  r.capture[k] == data[i + RECORD_BYTES * k + DATA_OFFSET])
    decreases |data| - i
  {
    var r := ExtractFrom(data, i);
    if i < |data| && i + DATA_OFFSET < |data| {
      var j := i + RECORD_BYTES;
      ExtractFromFacts(data, j);
      var rest := ExtractFrom(data, j);
      assert (|data| - i) % RECORD_BYTES == (|data| - j) % RECORD_BYTES || j >= |data|;
      forall k | 0 <= k < |r.capture|
        ensures i + RECORD_BYTES * k + DATA_OFFSET < |data|
        ensures r.capture[k] == data[i + RECORD_BYTES * k + DATA_OFFSET]
      {
        if k > 0 {
          assert r.capture[k] == rest.capture[k - 1];
          assert j + RECORD_BYTES * (k - 1) == i + RECORD_BYTES * k;
        }
      }
    }
  }

  /** The first listener's receive loop. */
  method ExtractRecords(data: seq<byte>) returns (capture: seq<byte>, fatal: bool)
    ensures Extraction(capture, fatal) == ExtractFrom(data, 0)
  {
    var i := 0;
    capture := [];
    fatal := false;
    while i < |data|
      invariant ExtractFrom(data, 0) == Extraction(capture + ExtractFrom(data, i).capture, ExtractFrom(data, i).fatal)
      decreases |data| - i
    {
      if i + DATA_OFFSET >= |data| {
        fatal := true;
        assert ExtractFrom(data, i) == Extraction([], true);
        return;
      }
      var rest := ExtractFrom(data, i + RECORD_BYTES);
      assert ExtractFrom(data, i).capture == [data[i + DATA_OFFSET]] + rest.capture;
      capture := capture + [data[i + DATA_OFFSET]];
      i := i + RECORD_BYTES;
    }
  }

  // ---------------------------------------------------------------------
  // The successor: drop records and the start offset

  /** What the successor writes to its log file, or reports on stdout when
      the drop count cannot be unpacked. */
  datatype LogEntry =
    | DropCount(count: int, record: seq<byte>)
    | StructError(at: nat, length: nat)

  datatype Scan = Scan(capture: seq<byte>, log: seq<LogEntry>, fatal: bool)

  /** What the successor does with the record at `i`. */
  datatype RecordStep = Raise | Log(entry: LogEntry) | Write(b: byte)

  /** Byte 1 of a record flags a drop record, whose signed 32-bit drop
      count at offsets 4..8 is logged; any other record contributes its
      byte 4. A drop count cut off by the end of the read is a caught
      `struct.error`; a flag byte or a data byte past the end is an
      uncaught `IndexError`. */
  function Classify(data: seq<byte>, i: nat): RecordStep
  {
    if i + 1 >= |data| then Raise
    else if data[i + 1] != 0 then
      if i + 8 <= |data|
      then Log(DropCount(ToInt32(ReadLe32(data, i + 4)), data[i..Min(i + RECORD_BYTES, |data|)]))
      else Log(StructError(i, |data|))
    else if i + DATA_OFFSET >= |data| then Raise
    else Write(data[i + DATA_OFFSET])
  }

  /** The successor's loop from record start `i`. */
  function ScanFrom(data: seq<byte>, i: nat): Scan
    decreases |data| - i
  {
    if i >= |data| then Scan([], [], false)
    else match Classify(data, i)
      case Raise => Scan([], [], true)
      case Log(e) =>
        var rest := ScanFrom(data, i + RECORD_BYTES);
        Scan(rest.capture, [e] + rest.log, rest.fatal)
      case Write(b) =>
        var rest := ScanFrom(data, i + RECORD_BYTES);
        Scan([b] + rest.capture, rest.log, rest.fatal)
  }

  /** One scan followed by another: their outputs concatenated, fatal when
      the second one is. */
  function Join(a: Scan, b: Scan): Scan
  {
    Scan(a.capture + b.capture, a.log + b.log, b.fatal)
  }

  /** What a record that does not raise adds to the output. */
  function StepOutput(step: RecordStep): Scan
  {
    match step
    case Raise => Scan([], [], true)
    case Log(e) => Scan([], [e], false)
    case Write(b) => Scan([b], [], false)
  }

  /** A record that does not raise adds its output in front of the scan of
      the rest. */
  lemma ScanStep(data: seq<byte>, i: nat)
    requires i < |data| && !Classify(data, i).Raise?
    ensures ScanFrom(data, i) == Join(StepOutput(Classify(data, i)), ScanFrom(data, i + RECORD_BYTES))
  {
  }

  lemma JoinAssociative(a: Scan, b: Scan, c: Scan)
    ensures Join(Join(a, b), c) == Join(a, Join(b, c))
  {
    assert (a.capture + b.capture) + c.capture == a.capture + (b.capture + c.capture);
    assert (a.log + b.log) + c.log == a.log + (b.log + c.log);
  }

  /** Where the successor's written bytes come from: offset 4 of every
      record up to the first fatal one whose flag byte is 0. */
  function WrittenPositions(data: seq<byte>, i: nat): seq<nat>
    decreases |data| - i
  {
    if i + 1 >= |data| then []
    else if data[i + 1] != 0 then WrittenPositions(data, i + RECORD_BYTES)
    else if i + DATA_OFFSET >= |data| then []
    else [i + DATA_OFFSET] + WrittenPositions(data, i + RECORD_BYTES)
  }

  /** A position the scan from `i` writes from lies at offset 4 of a record
      whose flag byte is 0. */
  predicate FromDataRecord(data: seq<byte>, i: nat, p: nat)
  {
    && i + DATA_OFFSET <= p < |data|
    && (p - DATA_OFFSET - i) % RECORD_BYTES == 0
    && data[p - DATA_OFFSET + 1] == 0
  }

  /** The capture is an in-order subsequence of the received bytes: the
      bytes at strictly increasing positions, each at offset 4 of a record
      whose flag byte is 0. */
  lemma {:induction false} ScanSubsequence(data: seq<byte>, i: nat)
    ensures var r := ScanFrom(data, i);
            var ps := WrittenPositions(data, i);
            && |r.capture| == |ps|
            && (forall k :: 0 <= k < |ps| ==> FromDataRecord(data, i, ps[k]) && r.capture[k] == data[ps[k]])
            && (forall k, l :: 0 <= k < l < |ps| ==> ps[k] < ps[l])
    decreases |data| - i
  {
    var ps := WrittenPositions(data, i);
    var r := ScanFrom(data, i);
    if i + 1 < |data| {
      var j := i + RECORD_BYTES;
      ScanSubsequence(data, j);
      var qs := WrittenPositions(data, j);
      forall k | 0 <= k < |qs|
        ensures FromDataRecord(data, i, qs[k])
      {
        assert FromDataRecord(data, j, qs[k]);
        assert (qs[k] - DATA_OFFSET - i) == (qs[k] - DATA_OFFSET - j) + RECORD_BYTES;
      }
      if data[i + 1] == 0 && i + DATA_OFFSET < |data| {
        assert ps == [i + DATA_OFFSET] + qs;
        forall k | 0 <= k < |ps|
          ensures FromDataRecord(data, i, ps[k]) && r.capture[k] == data[ps[k]]
        {
          if k > 0 {
            assert ps[k] == qs[k - 1];
          }
        }
      }
    }
  }

  /** Every record from `i` on whose flag byte is 0 and whose byte 4 was
      received is written, whatever follows it: the records before it are
      whole, so none of them raises. */
  lemma {:induction false} DataRecordsWritten(data: seq<byte>, i: nat, p: nat)
    requires FromDataRecord(data, i, p)
    ensures p in WrittenPositions(data, i)
    decreases |data| - i
  {
    if p != i + DATA_OFFSET {
      assert i + 1 < |data|;
      DataRecordsWritten(data, i + RECORD_BYTES, p);
    }
  }

  /** A record with a non-zero flag byte is never written. */
  lemma DropRecordsNotWritten(data: seq<byte>, i: nat, p: nat)
    requires i + DATA_OFFSET <= p < |data| && (p - DATA_OFFSET - i) % RECORD_BYTES == 0
    requires data[p - DATA_OFFSET + 1] != 0
    ensures p !in WrittenPositions(data, i)
  {
    ScanSubsequence(data, i);
  }

  /** The scan is fatal only when the read ends 1 to 4 bytes into a record. */
  lemma {:induction false} ScanFatal(data: seq<byte>, i: nat)
    requires ScanFrom(data, i).fatal
    ensures i < |data| && 1 <= (|data| - i) % RECORD_BYTES <= 4
    decreases |data| - i
  {
    if i + 1 < |data| && (data[i + 1] != 0 || i + DATA_OFFSET < |data|) {
      ScanFatal(data, i + RECORD_BYTES);
    }
  }

  /** A full read, scanned from either start, never raises: 16332 is 12
      bytes into a record, and 8 bytes into one when counted from offset
      4, so the last record always holds its flag, data byte and drop count.
      The 4 bytes of that record which the read lacks begin the next read,
      which is why the next scan starts at 4. */
  lemma FullReadNeverFatal(data: seq<byte>)
    requires |data| == FULL_READ
    ensures !ScanFrom(data, 0).fatal && !ScanFrom(data, 4).fatal
    ensures (FULL_READ + 4) % RECORD_BYTES == 0
  {
    if ScanFrom(data, 0).fatal {
      ScanFatal(data, 0);
    }
    if ScanFrom(data, 4).fatal {
      ScanFatal(data, 4);
    }
  }

  /** The successor's state across reads: the flag remembering a full read,
      and what has been written to the capture file and the log. An
      uncaught exception ends the listener. */
  class Listener {
    var prevFull: bool
    var capture: seq<byte>
    var log: seq<LogEntry>
    var stopped: bool

    /** The listener opens its files; nothing is written yet. */
    constructor ()
      ensures !prevFull && capture == [] && log == [] && !stopped
    {
      prevFull := false;
      capture := [];
      log := [];
      stopped := false;
    }

    /** The file starts with the section header and two interface
        descriptions. */
    method EmitPreamble()
      modifies this
      ensures capture == old(capture) + Preamble()
      ensures prevFull == old(prevFull) && log == old(log) && stopped == old(stopped)
    {
      capture := capture + Preamble();
    }

    /** One received chunk: the scan starts at 4 exactly when the previous
        chunk was a full read, and the flag is then set for the next one. */
    method Receive(data: seq<byte>)
      requires !stopped
      modifies this
      ensures prevFull <==> |data| == FULL_READ
      ensures var r := ScanFrom(data, if old(prevFull) then 4 else 0);
              && capture == old(capture) + r.capture
              && log == old(log) + r.log
              && stopped == r.fatal
    {
      var start := if prevFull then 4 else 0;
      prevFull := |data| == FULL_READ;
      var i := start;
      ghost var capture0, log0 := capture, log;
      ghost var written: seq<byte>, logged: seq<LogEntry> := [], [];
      assert Join(Scan([], [], false), ScanFrom(data, i)) == ScanFrom(data, i);
      while i < |data|
        invariant prevFull <==> |data| == FULL_READ
        invariant capture == capture0 + written && log == log0 + logged
        invariant ScanFrom(data, start) == Join(Scan(written, logged, false), ScanFrom(data, i))
        invariant !stopped
        decreases |data| - i
      {
        ghost var done := Scan(written, logged, false);
        if i + 1 >= |data| {
          stopped := true;
          assert Classify(data, i) == Raise;
          break;
        }
        if data[i + 1] != 0 {
          var entry;
          if i + 8 <= |data| {
            entry := DropCount(ToInt32(ReadLe32(data, i + 4)), data[i..Min(i + RECORD_BYTES, |data|)]);
          } else {
            entry := StructError(i, |data|);
          }
          assert Classify(data, i) == Log(entry);
          log := log + [entry];
          logged := logged + [entry];
        } else if i + DATA_OFFSET >= |data| {
          stopped := true;
          assert Classify(data, i) == Raise;
          break;
        } else {
          assert Classify(data, i) == Write(data[i + DATA_OFFSET]);
          capture := capture + [data[i + DATA_OFFSET]];
          written := written + [data[i + DATA_OFFSET]];
        }
        ScanStep(data, i);
        JoinAssociative(done, StepOutput(Classify(data, i)), ScanFrom(data, i + RECORD_BYTES));
        assert Join(done, StepOutput(Classify(data, i))) == Scan(written, logged, false);
        i := i + RECORD_BYTES;
      }
    }
  }
}
