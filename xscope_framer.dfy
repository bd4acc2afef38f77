/** The host side of the xSCOPE socket protocol
    (host_application/common/shared.c with the constants of
    host_application/common/shared.h, and its older copy in
    pcapng_listener/c/pcapng_listener.c): a receive loop that splits the
    byte stream from the xSCOPE server into print, data and upload
    acknowledgement messages, keeping an incomplete trailing message for
    the next read; and the upload request, of which only one may be
    outstanding.

    The two copies differ in two places, selected by `Variant`: the newer
    one reads a data length of 0 as 8 bytes of data, and reports the tag of
    the corrupted message where the older one reports the first byte of the
    receive buffer. */
module XscopeFramer {
  import opened Common

  const XSCOPE_EP_SUCCESS: int := 0
  const XSCOPE_EP_FAILURE: int := 1

  const XSCOPE_SOCKET_MSG_EVENT_DATA: byte := 0x2
  const XSCOPE_SOCKET_MSG_EVENT_TARGET_DATA: byte := 4
  const XSCOPE_SOCKET_MSG_EVENT_PRINT: byte := 0x8

  /** Tag, 8-byte timestamp, 4-byte length. */
  const PRINT_EVENT_BYTES: nat := 13
  /** Offset of the print length field. */
  const PRINT_LENGTH_OFFSET: nat := 9
  /** Tag, probe, two flag bytes, 4-byte length. */
  const DATA_EVENT_HEADER_BYTES: nat := 8
  /** Offset of the data length field. */
  const DATA_LENGTH_OFFSET: nat := 4
  /** The data header and the 8-byte timestamp that follows the data. */
  const DATA_EVENT_BYTES: nat := 16
  /** Tag and four bytes. */
  const TARGET_DATA_EVENT_BYTES: nat := 5
  const MAX_RECV_BYTES: nat := 16384

  /** The byte sent on connection to subscribe to data and print events. */
  function SubscriptionByte(): (r: byte)
    ensures r == XSCOPE_SOCKET_MSG_EVENT_DATA + XSCOPE_SOCKET_MSG_EVENT_PRINT
  {
    ((XSCOPE_SOCKET_MSG_EVENT_DATA as bv8) | (XSCOPE_SOCKET_MSG_EVENT_PRINT as bv8)) as int
  }

  /** Whether a byte is the tag of one of the three messages the target
      sends. */
  predicate IsEventTag(t: byte)
  {
    t == XSCOPE_SOCKET_MSG_EVENT_DATA || t == XSCOPE_SOCKET_MSG_EVENT_TARGET_DATA || t == XSCOPE_SOCKET_MSG_EVENT_PRINT
  }

  /** The three tags are distinct, and the subscription byte is none of
      them. */
  lemma TagsDistinct()
    ensures XSCOPE_SOCKET_MSG_EVENT_DATA != XSCOPE_SOCKET_MSG_EVENT_TARGET_DATA
    ensures XSCOPE_SOCKET_MSG_EVENT_DATA != XSCOPE_SOCKET_MSG_EVENT_PRINT
    ensures XSCOPE_SOCKET_MSG_EVENT_TARGET_DATA != XSCOPE_SOCKET_MSG_EVENT_PRINT
    ensures !IsEventTag(SubscriptionByte())
    ensures XSCOPE_EP_SUCCESS != XSCOPE_EP_FAILURE
  {
  }

  datatype Variant = Common | Legacy

  /** What a complete message hands on: print text for the console, a data
      event's probe and bytes for the capture hook, or the
      acknowledgement of an upload. */
  datatype Message =
    | Print(text: seq<byte>)
    | Data(probe: byte, payload: seq<byte>)
    | Ack

  /** The message at an offset of a buffer: complete (with its size in
      bytes), not complete yet, a tag that is none of the three, or a print
      length the receive buffer could never hold (the `assert` that stops
      the host). */
  datatype Parse =
    | Complete(msg: Message, size: nat)
    | Incomplete
    | BadTag
    | PrintTooLong(length: u32)

  /** The number of data bytes a data event carries, read as the unsigned
      32-bit field it is sent as. */
  function DataLength(field: u32, v: Variant): (r: nat)
    ensures field != 0 ==> r == field
    ensures field == 0 ==> r == if v == Common then 8 else 0
  {
    if field == 0 && v == Common then 8 else field
  }

  /** The message that starts at offset `i` of the bytes `b` held. */
  function ParseAt(b: seq<byte>, i: nat, v: Variant): (r: Parse)
    requires i < |b|
    ensures r.Complete? ==> 0 < r.size <= |b| - i
    ensures r.BadTag? <==> !IsEventTag(b[i])
  {
    if b[i] == XSCOPE_SOCKET_MSG_EVENT_PRINT then
      if |b| < i + PRINT_EVENT_BYTES then Incomplete
      else
        var len := ReadLe32(b, i + PRINT_LENGTH_OFFSET);
        if len >= MAX_RECV_BYTES then PrintTooLong(len)
        else if i + PRINT_EVENT_BYTES + len <= |b| then
          Complete(Print(b[i + PRINT_EVENT_BYTES..i + PRINT_EVENT_BYTES + len]), PRINT_EVENT_BYTES + len)
        else Incomplete
    else if b[i] == XSCOPE_SOCKET_MSG_EVENT_DATA then
      if |b| < i + DATA_EVENT_HEADER_BYTES then Incomplete
      else
        var len := DataLength(ReadLe32(b, i + DATA_LENGTH_OFFSET), v);
        if i + len + DATA_EVENT_BYTES <= |b| then
          Complete(Data(b[i + 1], b[i + DATA_EVENT_HEADER_BYTES..i + DATA_EVENT_HEADER_BYTES + len]), len + DATA_EVENT_BYTES)
        else Incomplete
    else if b[i] == XSCOPE_SOCKET_MSG_EVENT_TARGET_DATA then
      if |b| < i + TARGET_DATA_EVENT_BYTES then Incomplete
      else Complete(Ack, TARGET_DATA_EVENT_BYTES)
    else BadTag
  }

  /** How each complete message is framed: a print message is its 13-byte
      header and `len` bytes of text, with `len` at offset 9; a data message
      is its 8-byte header, `len` bytes and an 8-byte trailer, with `len` at
      offset 4 and the probe at offset 1; an acknowledgement is 5 bytes. */
  lemma ParseAtFraming(b: seq<byte>, i: nat, v: Variant)
    requires i < |b| && ParseAt(b, i, v).Complete?
    ensures var r := ParseAt(b, i, v);
      match r.msg
      case Print(text) =>
        && b[i] == XSCOPE_SOCKET_MSG_EVENT_PRINT && i + PRINT_EVENT_BYTES <= |b|
        && r.size == PRINT_EVENT_BYTES + ReadLe32(b, i + PRINT_LENGTH_OFFSET)
        && text == b[i + PRINT_EVENT_BYTES..i + r.size]
      case Data(probe, payload) =>
        && b[i] == XSCOPE_SOCKET_MSG_EVENT_DATA && i + DATA_EVENT_HEADER_BYTES <= |b|
        && r.size == DATA_EVENT_BYTES + DataLength(ReadLe32(b, i + DATA_LENGTH_OFFSET), v)
        && probe == b[i + 1] && payload == b[i + DATA_EVENT_HEADER_BYTES..i + r.size - 8]
      case Ack =>
        b[i] == XSCOPE_SOCKET_MSG_EVENT_TARGET_DATA && r.size == TARGET_DATA_EVENT_BYTES
  {
  }

  /** A message that is complete, corrupt or too long stays so whatever
      bytes arrive after it. */
  lemma ParseAtExtends(b: seq<byte>, c: seq<byte>, i: nat, v: Variant)
    requires i < |b| && !ParseAt(b, i, v).Incomplete?
    ensures ParseAt(b + c, i, v) == ParseAt(b, i, v)
  {
    assert (b + c)[i] == b[i];
    if b[i] == XSCOPE_SOCKET_MSG_EVENT_PRINT {
      ExtendPrint(b, c, i, v);
    } else if b[i] == XSCOPE_SOCKET_MSG_EVENT_DATA {
      ExtendData(b, c, i, v);
    }
  }

  lemma ExtendPrint(b: seq<byte>, c: seq<byte>, i: nat, v: Variant)
    requires i < |b| && b[i] == XSCOPE_SOCKET_MSG_EVENT_PRINT && !ParseAt(b, i, v).Incomplete?
    ensures ParseAt(b + c, i, v) == ParseAt(b, i, v)
  {
    var bc := b + c;
    assert bc[i] == b[i];
    var len := ReadLe32(b, i + PRINT_LENGTH_OFFSET);
    assert ReadLe32(bc, i + PRINT_LENGTH_OFFSET) == len by {
      assert bc[i + PRINT_LENGTH_OFFSET] == b[i + PRINT_LENGTH_OFFSET];
      assert bc[i + PRINT_LENGTH_OFFSET + 1] == b[i + PRINT_LENGTH_OFFSET + 1];
      assert bc[i + PRINT_LENGTH_OFFSET + 2] == b[i + PRINT_LENGTH_OFFSET + 2];
      assert bc[i + PRINT_LENGTH_OFFSET + 3] == b[i + PRINT_LENGTH_OFFSET + 3];
    }
    if len < MAX_RECV_BYTES {
      assert bc[i + PRINT_EVENT_BYTES..i + PRINT_EVENT_BYTES + len] == b[i + PRINT_EVENT_BYTES..i + PRINT_EVENT_BYTES + len];
    }
  }

  lemma ExtendData(b: seq<byte>, c: seq<byte>, i: nat, v: Variant)
    requires i < |b| && b[i] == XSCOPE_SOCKET_MSG_EVENT_DATA && !ParseAt(b, i, v).Incomplete?
    ensures ParseAt(b + c, i, v) == ParseAt(b, i, v)
  {
    var bc := b + c;
    assert bc[i] == b[i] && bc[i + 1] == b[i + 1];
    var len := DataLength(ReadLe32(b, i + DATA_LENGTH_OFFSET), v);
    assert ReadLe32(bc, i + DATA_LENGTH_OFFSET) == ReadLe32(b, i + DATA_LENGTH_OFFSET) by {
      assert bc[i + DATA_LENGTH_OFFSET] == b[i + DATA_LENGTH_OFFSET];
      assert bc[i + DATA_LENGTH_OFFSET + 1] == b[i + DATA_LENGTH_OFFSET + 1];
      assert bc[i + DATA_LENGTH_OFFSET + 2] == b[i + DATA_LENGTH_OFFSET + 2];
      assert bc[i + DATA_LENGTH_OFFSET + 3] == b[i + DATA_LENGTH_OFFSET + 3];
    }
    assert bc[i + DATA_EVENT_HEADER_BYTES..i + DATA_EVENT_HEADER_BYTES + len] == b[i + DATA_EVENT_HEADER_BYTES..i + DATA_EVENT_HEADER_BYTES + len];
  }

  /** A message is parsed the same wherever in the buffer it starts. */
  lemma ParseAtShift(p: seq<byte>, q: seq<byte>, j: nat, v: Variant)
    requires j < |q|
    ensures ParseAt(p + q, |p| + j, v) == ParseAt(q, j, v)
  {
    assert (p + q)[|p| + j] == q[j];
    if q[j] == XSCOPE_SOCKET_MSG_EVENT_PRINT {
      ShiftPrint(p, q, j, v);
    } else if q[j] == XSCOPE_SOCKET_MSG_EVENT_DATA {
      ShiftData(p, q, j, v);
    }
  }

  lemma ShiftPrint(p: seq<byte>, q: seq<byte>, j: nat, v: Variant)
    requires j < |q| && q[j] == XSCOPE_SOCKET_MSG_EVENT_PRINT
    ensures ParseAt(p + q, |p| + j, v) == ParseAt(q, j, v)
  {
    var pq := p + q;
    var i := |p| + j;
    assert pq[i] == q[j];
    if |q| >= j + PRINT_EVENT_BYTES {
      var len := ReadLe32(q, j + PRINT_LENGTH_OFFSET);
      assert ReadLe32(pq, i + PRINT_LENGTH_OFFSET) == len by {
        assert pq[i + PRINT_LENGTH_OFFSET] == q[j + PRINT_LENGTH_OFFSET];
        assert pq[i + PRINT_LENGTH_OFFSET + 1] == q[j + PRINT_LENGTH_OFFSET + 1];
        assert pq[i + PRINT_LENGTH_OFFSET + 2] == q[j + PRINT_LENGTH_OFFSET + 2];
        assert pq[i + PRINT_LENGTH_OFFSET + 3] == q[j + PRINT_LENGTH_OFFSET + 3];
      }
      if j + PRINT_EVENT_BYTES + len <= |q| {
        assert pq[i + PRINT_EVENT_BYTES..i + PRINT_EVENT_BYTES + len] == q[j + PRINT_EVENT_BYTES..j + PRINT_EVENT_BYTES + len];
      }
    }
  }

  lemma ShiftData(p: seq<byte>, q: seq<byte>, j: nat, v: Variant)
    requires j < |q| && q[j] == XSCOPE_SOCKET_MSG_EVENT_DATA
    ensures ParseAt(p + q, |p| + j, v) == ParseAt(q, j, v)
  {
    var pq := p + q;
    var i := |p| + j;
    assert pq[i] == q[j];
    if |q| >= j + DATA_EVENT_HEADER_BYTES {
      assert pq[i + 1] == q[j + 1];
      var len := DataLength(ReadLe32(q, j + DATA_LENGTH_OFFSET), v);
      assert ReadLe32(pq, i + DATA_LENGTH_OFFSET) == ReadLe32(q, j + DATA_LENGTH_OFFSET) by {
        assert pq[i + DATA_LENGTH_OFFSET] == q[j + DATA_LENGTH_OFFSET];
        assert pq[i + DATA_LENGTH_OFFSET + 1] == q[j + DATA_LENGTH_OFFSET + 1];
        assert pq[i + DATA_LENGTH_OFFSET + 2] == q[j + DATA_LENGTH_OFFSET + 2];
        assert pq[i + DATA_LENGTH_OFFSET + 3] == q[j + DATA_LENGTH_OFFSET + 3];
      }
      if j + len + DATA_EVENT_BYTES <= |q| {
        assert pq[i + DATA_EVENT_HEADER_BYTES..i + DATA_EVENT_HEADER_BYTES + len] == q[j + DATA_EVENT_HEADER_BYTES..j + DATA_EVENT_HEADER_BYTES + len];
      }
    }
  }

  // ---------------------------------------------------------------------
  // One pass over the receive buffer

  datatype Fatal =
    | Corrupted(reported: byte)  // "Message format corrupted (received %u)"
    | PrintOverflow(length: u32) // `assert(string_len < MAX_RECV_BYTES)`

  datatype Stop =
    | Drained           // every byte belonged to a complete message
    | Partial           // the bytes from `end` on are an incomplete message
    | Full              // a session only: an incomplete message fills the buffer
    | Stopped(why: Fatal)

  datatype ScanResult = ScanResult(msgs: seq<Message>, end: nat, stop: Stop)

  /** A pass preceded by messages already handed on. */
  function After(handed: seq<Message>, r: ScanResult): ScanResult
  {
    ScanResult(handed + r.msgs, r.end, r.stop)
  }

  /** The messages of `b` from offset `i` on, in order, the offset where the
      pass ends, and how it ends. `first` is the first byte of the receive
      buffer, which the older copy reports for a corrupted message. */
  function ScanFrom(b: seq<byte>, i: nat, v: Variant, first: byte): (r: ScanResult)
    requires i <= |b|
    ensures i <= r.end <= |b|
    ensures r.stop.Drained? <==> r.end == |b|
    decreases |b| - i, 1
  {
    if i == |b| then ScanResult([], i, Drained)
    else ScanParsed(b, i, v, first)
  }

  /** The pass from offset `i` once the message there has been parsed. */
  function ScanParsed(b: seq<byte>, i: nat, v: Variant, first: byte): (r: ScanResult)
    requires i < |b|
    ensures i <= r.end <= |b|
    ensures r.stop.Drained? <==> r.end == |b|
    decreases |b| - i, 0
  {
    match ParseAt(b, i, v)
    case Complete(m, size) =>
      var rest := ScanFrom(b, i + size, v, first);
      ScanResult([m] + rest.msgs, rest.end, rest.stop)
    case Incomplete => ScanResult([], i, Partial)
    case BadTag => ScanResult([], i, Stopped(Corrupted(if v == Common then b[i] else first)))
    case PrintTooLong(len) => ScanResult([], i, Stopped(PrintOverflow(len)))
  }

  /** A pass that meets no fatal error ends at the end of the bytes or at a
      message that is not complete yet. */
  lemma {:induction false} ScanEndsAtIncomplete(b: seq<byte>, i: nat, v: Variant, f: byte)
    requires i <= |b| && !ScanFrom(b, i, v, f).stop.Stopped?
    ensures var r := ScanFrom(b, i, v, f);
      r.end == |b| || ParseAt(b, r.end, v).Incomplete?
    decreases |b| - i
  {
    if i < |b| && ParseAt(b, i, v).Complete? {
      ScanEndsAtIncomplete(b, i + ParseAt(b, i, v).size, v, f);
    }
  }

  /** Whether two passes end the same way, whatever byte a corruption
      report shows. */
  predicate SameEnd(x: Stop, y: Stop)
  {
    match x
    case Stopped(Corrupted(_)) => y.Stopped? && y.why.Corrupted?
    case _ => x == y
  }

  /** More bytes after a pass that ended without a fatal error change
      nothing before where it ended: a pass over the longer bytes hands on
      the same messages and then goes on from there. */
  lemma {:induction false} ScanExtends(b: seq<byte>, c: seq<byte>, i: nat, v: Variant, f: byte)
    requires i <= |b| && !ScanFrom(b, i, v, f).stop.Stopped?
    ensures var r := ScanFrom(b, i, v, f);
      var after := ScanFrom(b + c, r.end, v, f);
      ScanFrom(b + c, i, v, f) == After(r.msgs, after)
    decreases |b| - i
  {
    if i < |b| && ParseAt(b, i, v).Complete? {
      var p := ParseAt(b, i, v);
      ScanComplete(b, i, v, f);
      ScanExtends(b, c, i + p.size, v, f);
      ParseAtExtends(b, c, i, v);
      ScanExtendsStep(b, b + c, i, v, f, p.msg, p.size);
    } else {
      ScanHalts(b, i, v, f);
      var w := ScanFrom(b + c, i, v, f);
      assert [] + w.msgs == w.msgs;
    }
  }

  /** A pass that has handed on `handed` and is at a complete message hands
      that message on next. */
  lemma PassGoesOn(b: seq<byte>, i: nat, v: Variant, f: byte, handed: seq<Message>, whole: ScanResult)
    requires i < |b| && ParseAt(b, i, v).Complete?
    requires whole == After(handed, ScanFrom(b, i, v, f))
    ensures var p := ParseAt(b, i, v);
      whole == After(handed + [p.msg], ScanFrom(b, i + p.size, v, f))
  {
    var p := ParseAt(b, i, v);
    ScanComplete(b, i, v, f);
    ConcatAssoc(handed, [p.msg], ScanFrom(b, i + p.size, v, f).msgs);
  }

  /** A pass that has handed on `handed` and is at a message that is not
      complete ends there, as that message says. */
  lemma PassHalts(b: seq<byte>, i: nat, v: Variant, f: byte, handed: seq<Message>, whole: ScanResult)
    requires i < |b| && !ParseAt(b, i, v).Complete?
    requires whole == After(handed, ScanFrom(b, i, v, f))
    ensures whole.msgs == handed && whole.end == i
    ensures whole.stop == match ParseAt(b, i, v)
      case Incomplete => Partial
      case BadTag => Stopped(Corrupted(if v == Common then b[i] else f))
      case PrintTooLong(len) => Stopped(PrintOverflow(len))
      case Complete(_, _) => Drained
  {
    ScanHalts(b, i, v, f);
    assert handed + [] == handed;
  }

  /** A pass that does not start at a complete message hands on nothing and
      ends where it starts. */
  lemma ScanHalts(b: seq<byte>, i: nat, v: Variant, f: byte)
    requires i <= |b| && (i == |b| || !ParseAt(b, i, v).Complete?)
    ensures ScanFrom(b, i, v, f).msgs == [] && ScanFrom(b, i, v, f).end == i
  {
  }

  /** The step of `ScanExtends` over one complete message, for any bytes
      `d` that hold the same message at `i`. */
  lemma ScanExtendsStep(b: seq<byte>, d: seq<byte>, i: nat, v: Variant, f: byte, m: Message, size: nat)
    requires i < |b| <= |d| && ParseAt(b, i, v) == Complete(m, size) && ParseAt(d, i, v) == Complete(m, size)
    requires var r := ScanFrom(b, i + size, v, f);
      ScanFrom(d, i + size, v, f) == After(r.msgs, ScanFrom(d, r.end, v, f))
    ensures var r := ScanFrom(b, i, v, f);
      ScanFrom(d, i, v, f) == After(r.msgs, ScanFrom(d, r.end, v, f))
  {
    var r := ScanFrom(b, i + size, v, f);
    ScanCompleteAt(b, i, v, f, m, size);
    ScanCompleteAt(d, i, v, f, m, size);
    ConcatAssoc([m], r.msgs, ScanFrom(d, r.end, v, f).msgs);
  }

  /** A pass that starts at a complete message hands it on and goes on after
      it. */
  lemma ScanComplete(b: seq<byte>, i: nat, v: Variant, f: byte)
    requires i < |b| && ParseAt(b, i, v).Complete?
    ensures var p := ParseAt(b, i, v);
      var rest := ScanFrom(b, i + p.size, v, f);
      ScanFrom(b, i, v, f) == ScanResult([p.msg] + rest.msgs, rest.end, rest.stop)
  {
  }

  /** Two passes that hand on the same messages and end the same way, the
      first `o` bytes further along. */
  predicate Shifted(s: ScanResult, t: ScanResult, o: int)
  {
    s.msgs == t.msgs && s.end == o + t.end && SameEnd(t.stop, s.stop)
  }

  /** `ScanComplete` for a message and size given by name. */
  lemma ScanCompleteAt(b: seq<byte>, i: nat, v: Variant, f: byte, m: Message, size: nat)
    requires i < |b| && ParseAt(b, i, v) == Complete(m, size)
    ensures i + size <= |b|
    ensures var rest := ScanFrom(b, i + size, v, f);
      ScanFrom(b, i, v, f) == ScanResult([m] + rest.msgs, rest.end, rest.stop)
  {
    ScanComplete(b, i, v, f);
  }

  /** A pass over bytes behind a prefix is the same pass, moved along by the
      prefix's length. */
  lemma ScanShift(p: seq<byte>, q: seq<byte>, j: nat, v: Variant, f: byte, g: byte)
    requires j <= |q|
    ensures Shifted(ScanFrom(p + q, |p| + j, v, f), ScanFrom(q, j, v, g), |p|)
  {
    assert (p + q)[|p|..] == q;
    ScanShiftIn(p + q, q, |p|, j, v, f, g);
  }

  /** `ScanShift` for bytes `d` that end with `q` from offset `o` on. */
  lemma {:induction false} ScanShiftIn(d: seq<byte>, q: seq<byte>, o: nat, j: nat, v: Variant, f: byte, g: byte)
    requires o <= |d| && d[o..] == q && j <= |q|
    ensures Shifted(ScanFrom(d, o + j, v, f), ScanFrom(q, j, v, g), o)
    decreases |q| - j
  {
    if j < |q| {
      ParseAtShiftIn(d, q, o, j, v);
      var t := ParseAt(q, j, v);
      if t.Complete? {
        ScanShiftIn(d, q, o, j + t.size, v, f, g);
        ScanShiftStep(d, q, o, j, v, f, g, t.msg, t.size);
      } else {
        ScanShiftHalt(d, q, o, j, v, f, g);
      }
    }
  }

  /** `ParseAtShift` for bytes `d` that end with `q` from offset `o` on. */
  lemma ParseAtShiftIn(d: seq<byte>, q: seq<byte>, o: nat, j: nat, v: Variant)
    requires o <= |d| && d[o..] == q && j < |q|
    ensures ParseAt(d, o + j, v) == ParseAt(q, j, v)
  {
    assert d == d[..o] + q;
    ParseAtShift(d[..o], q, j, v);
  }

  /** The step of `ScanShift` over one complete message. */
  lemma ScanShiftStep(d: seq<byte>, q: seq<byte>, o: nat, j: nat, v: Variant, f: byte, g: byte, m: Message, size: nat)
    requires j < |q| && o + |q| == |d|
    requires ParseAt(d, o + j, v) == Complete(m, size) && ParseAt(q, j, v) == Complete(m, size)
    requires Shifted(ScanFrom(d, o + (j + size), v, f), ScanFrom(q, j + size, v, g), o)
    ensures Shifted(ScanFrom(d, o + j, v, f), ScanFrom(q, j, v, g), o)
  {
    ScanCompleteAt(d, o + j, v, f, m, size);
    ScanCompleteAt(q, j, v, g, m, size);
  }

  /** `ScanShift` where the message is not complete. */
  lemma ScanShiftHalt(d: seq<byte>, q: seq<byte>, o: nat, j: nat, v: Variant, f: byte, g: byte)
    requires j < |q| && o + |q| == |d|
    requires ParseAt(d, o + j, v) == ParseAt(q, j, v) && !ParseAt(q, j, v).Complete?
    ensures Shifted(ScanFrom(d, o + j, v, f), ScanFrom(q, j, v, g), o)
  {
  }

  /** The first-byte parameter only shows in a corruption report. */
  lemma {:induction false} ScanSameButReport(b: seq<byte>, i: nat, v: Variant, f: byte, g: byte)
    requires i <= |b|
    ensures ScanFrom(b, i, v, f).msgs == ScanFrom(b, i, v, g).msgs
    ensures ScanFrom(b, i, v, f).end == ScanFrom(b, i, v, g).end
    ensures SameEnd(ScanFrom(b, i, v, f).stop, ScanFrom(b, i, v, g).stop)
    decreases |b| - i
  {
    if i < |b| && ParseAt(b, i, v).Complete? {
      ScanSameButReport(b, i + ParseAt(b, i, v).size, v, f, g);
    }
  }

  // ---------------------------------------------------------------------
  // A session of reads

  datatype SessionResult = SessionResult(msgs: seq<Message>, leftover: seq<byte>, stop: Stop)

  lemma SliceOfPrefix(s: seq<byte>, n: nat, lo: nat, hi: nat)
    requires lo <= hi <= n <= |s|
    ensures s[..n][lo..hi] == s[lo..hi]
  {
  }

  function Concat(chunks: seq<seq<byte>>): seq<byte>
    decreases |chunks|, 1
  {
    if chunks == [] then [] else ConcatAfter(chunks[0], chunks[1..])
  }

  function ConcatAfter(chunk: seq<byte>, chunks: seq<seq<byte>>): seq<byte>
    decreases |chunks| + 1, 0
  {
    chunk + Concat(chunks)
  }

  /** What one read takes from the bytes the server has sent, and the
      bytes that still wait for the reads that follow. */
  datatype ReadResult = ReadResult(taken: seq<byte>, later: seq<seq<byte>>)

  /** What is left to read: the bytes still to come, and one step for each
      read the server's sends would answer. */
  function Backlog(chunks: seq<seq<byte>>): nat
  {
    |Concat(chunks)| + |chunks|
  }

  /** One `read` given `room` bytes of the receive buffer: it returns the
      bytes of the next send, or only as many of them as fit, in which case
      the rest is what the next read returns first. */
  function ReadInto(room: nat, chunks: seq<seq<byte>>): (r: ReadResult)
    requires 0 < room && chunks != []
    ensures |r.taken| == Min(room, |chunks[0]|)
    ensures r.taken + Concat(r.later) == Concat(chunks)
    ensures Backlog(r.later) < Backlog(chunks)
  {
    if |chunks[0]| <= room then ReadResult(chunks[0], chunks[1..])
    else
      var later := [chunks[0][room..]] + chunks[1..];
      assert later[1..] == chunks[1..];
      assert chunks[0] == chunks[0][..room] + chunks[0][room..];
      ReadResult(chunks[0][..room], later)
  }

  /** The receive loop over successive reads: each read gets the room left
      after the kept bytes and its bytes are appended to them; the loop ends
      when the server's sends run out, at the first fatal error, or when the
      kept incomplete message fills the whole buffer, since the read then
      gets no room and returns 0. The kept bytes never outgrow the
      buffer. */
  function Session(leftover: seq<byte>, chunks: seq<seq<byte>>, v: Variant): (r: SessionResult)
    ensures |leftover| <= MAX_RECV_BYTES ==> |r.leftover| <= MAX_RECV_BYTES
    ensures r.stop.Full? ==> |r.leftover| >= MAX_RECV_BYTES
    ensures !r.stop.Drained?
    decreases Backlog(chunks), 1
  {
    if chunks == [] then SessionResult([], leftover, Partial)
    else if |leftover| >= MAX_RECV_BYTES then SessionResult([], leftover, Full)
    else
      var rd := ReadInto(MAX_RECV_BYTES - |leftover|, chunks);
      var buf := leftover + rd.taken;
      SessionAfter(buf, ScanFrom(buf, 0, v, if buf == [] then 0 else buf[0]), rd.later, v)
  }

  /** The rest of a session once the pass over the bytes held has ended
      with `ra`. */
  function SessionAfter(buf: seq<byte>, ra: ScanResult, chunks: seq<seq<byte>>, v: Variant): (r: SessionResult)
    requires ra.end <= |buf|
    ensures |buf| <= MAX_RECV_BYTES ==> |r.leftover| <= MAX_RECV_BYTES
    ensures r.stop.Full? ==> |r.leftover| >= MAX_RECV_BYTES
    ensures ra.stop.Stopped? ==> r.stop == ra.stop
    ensures !ra.stop.Drained? ==> !r.stop.Drained?
    decreases Backlog(chunks) + 1, 0
  {
    if ra.stop.Stopped? then SessionResult(ra.msgs, buf[ra.end..], ra.stop)
    else
      var rest := Session(buf[ra.end..], chunks, v);
      SessionResult(ra.msgs + rest.msgs, rest.leftover, rest.stop)
  }

  /** A session's result after `handed` has already been handed on. */
  function Handed(handed: seq<Message>, r: SessionResult): SessionResult
  {
    SessionResult(handed + r.msgs, r.leftover, r.stop)
  }

  /** Where the reads split the stream does not matter: a session that ends
      because the server's sends ran out hands on exactly the messages of
      one pass over the kept bytes and all the reads together, and keeps the
      same incomplete tail. */
  lemma {:induction false} SessionIsOneScan(leftover: seq<byte>, chunks: seq<seq<byte>>, v: Variant, f: byte)
    requires leftover == [] || ParseAt(leftover, 0, v).Incomplete?
    requires Session(leftover, chunks, v).stop == Partial
    ensures var whole := ScanFrom(leftover + Concat(chunks), 0, v, f);
      && Session(leftover, chunks, v).msgs == whole.msgs
      && Session(leftover, chunks, v).leftover == (leftover + Concat(chunks))[whole.end..]
      && !whole.stop.Stopped?
    decreases Backlog(chunks), 1
  {
    if chunks == [] {
      assert leftover + Concat(chunks) == leftover;
    } else {
      SessionStep(leftover, chunks, v, f);
    }
  }

  /** The step of `SessionIsOneScan` for one more read. */
  lemma {:induction false} SessionStep(leftover: seq<byte>, chunks: seq<seq<byte>>, v: Variant, f: byte)
    requires chunks != []
    requires leftover == [] || ParseAt(leftover, 0, v).Incomplete?
    requires Session(leftover, chunks, v).stop == Partial
    ensures var whole := ScanFrom(leftover + Concat(chunks), 0, v, f);
      && Session(leftover, chunks, v).msgs == whole.msgs
      && Session(leftover, chunks, v).leftover == (leftover + Concat(chunks))[whole.end..]
      && !whole.stop.Stopped?
    decreases Backlog(chunks), 0
  {
    assert |leftover| < MAX_RECV_BYTES;
    var rd := ReadInto(MAX_RECV_BYTES - |leftover|, chunks);
    var buf := leftover + rd.taken;
    var first: byte := if buf == [] then 0 else buf[0];
    var ra := ScanFrom(buf, 0, v, first);
    var tailBytes := Concat(rd.later);
    var next := buf[ra.end..];
    var s := Session(leftover, chunks, v);
    var r := Session(next, rd.later, v);
    SessionGoesOn(leftover, chunks, v, rd, buf, ra, r);
    ConcatAssoc(leftover, rd.taken, tailBytes);
    assert leftover + Concat(chunks) == buf + tailBytes;
    ScanSplit(buf, tailBytes, v, first, f);
    SessionIsOneScan(next, rd.later, v, f);
    var t := ScanFrom(next + tailBytes, 0, v, f);
    var whole := ScanFrom(buf + tailBytes, 0, v, f);
    assert r.msgs == t.msgs && r.leftover == (next + tailBytes)[t.end..] && !t.stop.Stopped?;
    JoinSteps(buf, tailBytes, ra.end, ra.msgs, r, t, whole, s);
    assert ScanFrom(leftover + Concat(chunks), 0, v, f) == whole;
    assert s.msgs == whole.msgs && s.leftover == (leftover + Concat(chunks))[whole.end..] && !whole.stop.Stopped?;
  }

  /** A session whose first pass meets no fatal error goes on from the tail
      that pass keeps. */
  lemma SessionGoesOn(leftover: seq<byte>, chunks: seq<seq<byte>>, v: Variant, rd: ReadResult, buf: seq<byte>, ra: ScanResult, r: SessionResult)
    requires chunks != [] && |leftover| < MAX_RECV_BYTES
    requires rd == ReadInto(MAX_RECV_BYTES - |leftover|, chunks) && buf == leftover + rd.taken
    requires ra == ScanFrom(buf, 0, v, if buf == [] then 0 else buf[0])
    requires r == Session(buf[ra.end..], rd.later, v)
    requires !Session(leftover, chunks, v).stop.Stopped?
    ensures !ra.stop.Stopped? && Session(leftover, chunks, v) == SessionResult(ra.msgs + r.msgs, r.leftover, r.stop)
  {
    SessionFront(leftover, chunks, v, rd, buf, ra);
  }

  /** The two halves of a session step put together: the first pass's
      messages and end, then the rest of the session over what it left and
      the later reads. */
  lemma JoinSteps(buf: seq<byte>, tailBytes: seq<byte>, end: nat, msgs: seq<Message>, r: SessionResult, t: ScanResult, whole: ScanResult, s: SessionResult)
    requires end <= |buf| && t.end <= |buf| - end + |tailBytes|
    requires s == SessionResult(msgs + r.msgs, r.leftover, r.stop)
    requires whole.msgs == msgs + t.msgs && whole.end == end + t.end
    requires SameEnd(t.stop, whole.stop) && !t.stop.Stopped?
    requires r.msgs == t.msgs && r.leftover == (buf[end..] + tailBytes)[t.end..]
    ensures s.msgs == whole.msgs && s.leftover == (buf + tailBytes)[whole.end..] && !whole.stop.Stopped?
  {
    DropAcrossSplit(buf, tailBytes, end, t.end);
  }

  /** A session's first read, when the buffer has room: its pass, then
      the rest of the session from what the pass leaves. */
  lemma SessionFront(leftover: seq<byte>, chunks: seq<seq<byte>>, v: Variant, rd: ReadResult, buf: seq<byte>, ra: ScanResult)
    requires chunks != [] && |leftover| < MAX_RECV_BYTES
    requires rd == ReadInto(MAX_RECV_BYTES - |leftover|, chunks) && buf == leftover + rd.taken
    requires ra == ScanFrom(buf, 0, v, if buf == [] then 0 else buf[0])
    ensures Session(leftover, chunks, v) == SessionAfter(buf, ra, rd.later, v)
  {
  }

  /** A session that ends because the buffer is full keeps a whole buffer
      of bytes that begin one message, still incomplete: the loop has ended
      although the rest of that message may still be on its way. */
  lemma {:induction false} SessionFillsBuffer(leftover: seq<byte>, chunks: seq<seq<byte>>, v: Variant)
    requires |leftover| <= MAX_RECV_BYTES
    requires leftover == [] || ParseAt(leftover, 0, v).Incomplete?
    requires Session(leftover, chunks, v).stop == Full
    ensures var r := Session(leftover, chunks, v);
      |r.leftover| == MAX_RECV_BYTES && ParseAt(r.leftover, 0, v).Incomplete?
    decreases Backlog(chunks)
  {
    assert chunks != [];
    if |leftover| < MAX_RECV_BYTES {
      var rd := ReadInto(MAX_RECV_BYTES - |leftover|, chunks);
      var buf := leftover + rd.taken;
      var first: byte := if buf == [] then 0 else buf[0];
      var ra := ScanFrom(buf, 0, v, first);
      var next := buf[ra.end..];
      SessionFront(leftover, chunks, v, rd, buf, ra);
      var r := Session(next, rd.later, v);
      assert !ra.stop.Stopped? && Session(leftover, chunks, v) == SessionResult(ra.msgs + r.msgs, r.leftover, r.stop);
      KeptTailIncomplete(buf, v, first);
      assert |next| <= MAX_RECV_BYTES && r.stop == Full;
      SessionFillsBuffer(next, rd.later, v);
    }
  }

  /** What a pass without a fatal error leaves is nothing or the start of an
      incomplete message. */
  lemma KeptTailIncomplete(buf: seq<byte>, v: Variant, first: byte)
    requires !ScanFrom(buf, 0, v, first).stop.Stopped?
    ensures var next := buf[ScanFrom(buf, 0, v, first).end..];
      next == [] || ParseAt(next, 0, v).Incomplete?
  {
    var ra := ScanFrom(buf, 0, v, first);
    ScanEndsAtIncomplete(buf, 0, v, first);
    if ra.end < |buf| {
      ParseAtShiftIn(buf, buf[ra.end..], ra.end, 0, v);
    }
  }

  /** A data event of 20000 bytes does not fit the receive buffer. Sent as
      16384 bytes and then the other 3632, the session hands on nothing and
      ends with the buffer full, although one pass over all its bytes would
      hand the event on. */
  lemma LongDataEventFillsBuffer()
    ensures var e := [XSCOPE_SOCKET_MSG_EVENT_DATA, 0, 0, 0] + Le32(20000) + seq(20008, _ => 0);
      && |e| == 20016
      && ParseAt(e, 0, Common) == Complete(Data(0, seq(20000, _ => 0)), 20016)
      && Session([], [e[..MAX_RECV_BYTES], e[MAX_RECV_BYTES..]], Common) == SessionResult([], e[..MAX_RECV_BYTES], Full)
  {
    var e := [XSCOPE_SOCKET_MSG_EVENT_DATA, 0, 0, 0] + Le32(20000) + seq(20008, _ => 0);
    assert e[DATA_LENGTH_OFFSET..DATA_LENGTH_OFFSET + 4] == Le32(20000);
    Le32OfReadLe32(e, DATA_LENGTH_OFFSET);
    Le32Injective(ReadLe32(e, DATA_LENGTH_OFFSET), 20000);
    assert e[DATA_EVENT_HEADER_BYTES..DATA_EVENT_HEADER_BYTES + 20000] == seq(20000, _ => 0);
    var chunks := [e[..MAX_RECV_BYTES], e[MAX_RECV_BYTES..]];
    var buf := e[..MAX_RECV_BYTES];
    assert ReadLe32(buf, DATA_LENGTH_OFFSET) == ReadLe32(e, DATA_LENGTH_OFFSET) by {
      assert buf[DATA_LENGTH_OFFSET..DATA_LENGTH_OFFSET + 4] == e[DATA_LENGTH_OFFSET..DATA_LENGTH_OFFSET + 4];
    }
    assert ParseAt(buf, 0, Common) == Incomplete;
    var rd := ReadInto(MAX_RECV_BYTES, chunks);
    assert rd == ReadResult(buf, [e[MAX_RECV_BYTES..]]);
    assert [] + buf == buf && buf[0..] == buf;
    assert ScanFrom(buf, 0, Common, buf[0]) == ScanResult([], 0, Partial);
    assert Session(buf, rd.later, Common) == SessionResult([], buf, Full);
  }

  /** Dropping `j + k` elements of `x + y` is dropping `j` of `x` and then
      `k` of what is left followed by `y`. */
  lemma DropAcrossSplit<T>(x: seq<T>, y: seq<T>, j: nat, k: nat)
    requires j <= |x| && k <= |x| - j + |y|
    ensures (x + y)[j + k..] == (x[j..] + y)[k..]
  {
    assert x + y == x[..j] + (x[j..] + y);
    DropAfterPrefix(x[..j], x[j..] + y, k);
  }

  /** Chunk-split invariance of one read: when a pass over the bytes held
      ends without a fatal error, re-scanning what it leaves together with
      the bytes that arrive next gives exactly the messages a single pass
      over everything would give after those of the first pass, and ends
      the same way; what it leaves is nothing or the start of a message
      that is not complete yet. */
  lemma ScanSplit(buf: seq<byte>, tail: seq<byte>, v: Variant, first: byte, f: byte)
    requires !ScanFrom(buf, 0, v, first).stop.Stopped?
    ensures var ra := ScanFrom(buf, 0, v, first);
      var next := buf[ra.end..];
      var rest := ScanFrom(next + tail, 0, v, f);
      var whole := ScanFrom(buf + tail, 0, v, f);
      && whole.msgs == ra.msgs + rest.msgs
      && whole.end == ra.end + rest.end
      && SameEnd(rest.stop, whole.stop)
      && (next == [] || ParseAt(next, 0, v).Incomplete?)
  {
    var ra := ScanFrom(buf, 0, v, first);
    var next := buf[ra.end..];
    ScanSameButReport(buf, 0, v, first, f);
    ScanExtends(buf, tail, 0, v, f);
    assert (buf + tail)[ra.end..] == next + tail;
    ScanShiftIn(buf + tail, next + tail, ra.end, 0, v, f, f);
    var mid := ScanFrom(buf + tail, ra.end, v, f);
    assert ScanFrom(buf + tail, 0, v, f) == After(ra.msgs, mid);
    assert Shifted(mid, ScanFrom(next + tail, 0, v, f), ra.end);
    ScanEndsAtIncomplete(buf, 0, v, first);
    if next != [] {
      ParseAtShiftIn(buf, next, ra.end, 0, v);
    }
  }

  lemma DropAfterPrefix<T>(p: seq<T>, q: seq<T>, k: nat)
    requires k <= |q|
    ensures (p + q)[|p| + k..] == q[k..]
  {
  }

  lemma ConcatAssoc<T>(x: seq<T>, y: seq<T>, z: seq<T>)
    ensures x + (y + z) == (x + y) + z
  {
  }

  // ---------------------------------------------------------------------
  // The as-written data length

  /** The data length as the source reads it: the field is stored into a C
      `int`, so a field with the top bit set is a negative length. */
  function AsWrittenDataLength(field: u32, v: Variant): int
  {
    if ToInt32(field) == 0 && v == Common then 8 else ToInt32(field)
  }

  /** The completeness test as written, in C `int` arithmetic. */
  predicate AsWrittenDataComplete(i: nat, field: u32, n: nat, v: Variant)
  {
    i + AsWrittenDataLength(field, v) + DATA_EVENT_BYTES <= n
  }

  /** A data event whose length field is 0xFFFFFFF0, at the start of a
      buffer holding only its 8-byte header, passes the completeness test
      as written: the capture hook is called with length -16 and the message
      advances the scan by 0 bytes. Read as unsigned, the same message is
      incomplete. */
  lemma AsWrittenNegativeDataLength(v: Variant)
    ensures AsWrittenDataComplete(0, 0xFFFF_FFF0, DATA_EVENT_HEADER_BYTES, v)
    ensures AsWrittenDataLength(0xFFFF_FFF0, v) == -16
    ensures AsWrittenDataLength(0xFFFF_FFF0, v) + DATA_EVENT_BYTES == 0
    ensures var b := [XSCOPE_SOCKET_MSG_EVENT_DATA, 0, 0, 0, 0xF0, 0xFF, 0xFF, 0xFF];
      ReadLe32(b, DATA_LENGTH_OFFSET) == 0xFFFF_FFF0 && ParseAt(b, 0, v).Incomplete?
  {
  }

  /** Below 2^31 the two readings agree. */
  lemma DataLengthAgrees(field: u32, v: Variant)
    requires field < TWO_31
    ensures AsWrittenDataLength(field, v) == DataLength(field, v)
  {
  }

  // ---------------------------------------------------------------------
  // The NUL terminator of a print message

  /** A print message that ends exactly at the end of a full receive buffer
      is complete, and the source then writes its NUL terminator at index
      `MAX_RECV_BYTES`, one past the end of the buffer. */
  lemma PrintAtBufferEndCounterexample()
    ensures var len := MAX_RECV_BYTES - PRINT_EVENT_BYTES;
      var b := [XSCOPE_SOCKET_MSG_EVENT_PRINT] + seq(8, _ => 0) + Le32(len) + seq(len, _ => 0x41);
      && |b| == MAX_RECV_BYTES
      && ParseAt(b, 0, Common).Complete?
      && ParseAt(b, 0, Common).size == MAX_RECV_BYTES
  {
    var len := MAX_RECV_BYTES - PRINT_EVENT_BYTES;
    var b := [XSCOPE_SOCKET_MSG_EVENT_PRINT] + seq(8, _ => 0) + Le32(len) + seq(len, _ => 0x41);
    assert b[PRINT_LENGTH_OFFSET..PRINT_LENGTH_OFFSET + 4] == Le32(len);
    Le32OfReadLe32(b, PRINT_LENGTH_OFFSET);
    Le32Injective(ReadLe32(b, PRINT_LENGTH_OFFSET), len);
  }

  // ---------------------------------------------------------------------
  // Upload requests

  /** The bytes of an upload request: the target-data tag, the length as a
      little-endian word (the host's native order), then the payload. */
  function UploadMessage(data: seq<byte>): (r: seq<byte>)
    requires |data| < TWO_32
    ensures |r| == TARGET_DATA_EVENT_BYTES + |data|
  {
    [XSCOPE_SOCKET_MSG_EVENT_TARGET_DATA] + Le32(|data|) + data
  }

  /** A request reads back as its tag, its length and its payload. */
  lemma UploadMessageDecodes(data: seq<byte>)
    requires |data| < TWO_32
    ensures var m := UploadMessage(data);
      && m[0] == XSCOPE_SOCKET_MSG_EVENT_TARGET_DATA
      && ReadLe32(m, 1) == |data|
      && m[TARGET_DATA_EVENT_BYTES..] == data
  {
    var m := UploadMessage(data);
    assert m[1..5] == Le32(|data|);
    ReadLe32OfLe32(|data|);
    assert ReadLe32(m, 1) == ReadLe32(Le32(|data|), 0);
  }

  /** The request as `xscope_ep_request_upload` assembles it, in a buffer
      filled one field at a time. */
  method BuildUploadRequest(data: seq<byte>) returns (request: seq<byte>)
    requires |data| < TWO_32
    ensures request == UploadMessage(data)
  {
    var requestBuffer := new byte[TARGET_DATA_EVENT_BYTES + |data|];
    var requestBufIndex := 0;
    requestBuffer[requestBufIndex] := XSCOPE_SOCKET_MSG_EVENT_TARGET_DATA;
    requestBufIndex := requestBufIndex + 1;
    var lengthBytes := Le32(|data|);
    for k := 0 to 4
      invariant requestBuffer[0] == XSCOPE_SOCKET_MSG_EVENT_TARGET_DATA
      invariant forall j :: 0 <= j < k ==> requestBuffer[1 + j] == lengthBytes[j]
    {
      requestBuffer[requestBufIndex + k] := lengthBytes[k];
    }
    requestBufIndex := requestBufIndex + 4;
    for k := 0 to |data|
      invariant requestBuffer[0] == XSCOPE_SOCKET_MSG_EVENT_TARGET_DATA
      invariant forall j :: 0 <= j < 4 ==> requestBuffer[1 + j] == lengthBytes[j]
      invariant forall j :: 0 <= j < k ==> requestBuffer[TARGET_DATA_EVENT_BYTES + j] == data[j]
    {
      requestBuffer[requestBufIndex + k] := data[k];
    }
    requestBufIndex := requestBufIndex + |data|;
    request := requestBuffer[..requestBufIndex];
    assert request == UploadMessage(data);
  }

  /** The upload is pending after the pass exactly when it was before and
      no acknowledgement came. */
  function PendingAfter(pending: bool, msgs: seq<Message>): (r: bool)
    ensures r <==> pending && Ack !in msgs
  {
    pending && Ack !in msgs
  }

  // ---------------------------------------------------------------------
  // The host's state

  class HostSession {
    const variant: Variant
    /** `recv_buffer`; its first `numRemaining` bytes are the incomplete
        message kept from the previous read. */
    var recvBuffer: array<byte>
    var numRemaining: nat
    /** `xscope_ep_upload_pending`. */
    var uploadPending: bool
    /** The messages handed on so far: print text written to the console,
        data passed to the capture hook (or, in the older copy, written to
        the capture file). */
    var dispatched: seq<Message>
    /** The bytes sent to the server by upload requests. */
    var sent: seq<byte>

    ghost predicate Valid()
      reads this
    {
      recvBuffer.Length == MAX_RECV_BYTES && numRemaining <= MAX_RECV_BYTES
    }

    ghost function Leftover(): seq<byte>
      reads this, recvBuffer
      requires Valid()
    {
      recvBuffer[..numRemaining]
    }

    constructor (v: Variant)
      ensures Valid() && fresh(recvBuffer)
      ensures variant == v && numRemaining == 0 && !uploadPending && dispatched == [] && sent == []
    {
      variant := v;
      recvBuffer := new byte[MAX_RECV_BYTES](_ => 0);
      numRemaining := 0;
      uploadPending := false;
      dispatched := [];
      sent := [];
    }

    /** `xscope_ep_request_upload`: refused while an upload is pending;
        otherwise the request is built byte by byte and sent, and the
        upload becomes pending. */
    method RequestUpload(data: seq<byte>) returns (status: int)
      requires Valid() && |data| < TWO_32
      modifies this
      ensures Valid() && recvBuffer == old(recvBuffer) && numRemaining == old(numRemaining)
      ensures dispatched == old(dispatched)
      ensures old(uploadPending) ==> status == XSCOPE_EP_FAILURE && uploadPending && sent == old(sent)
      ensures !old(uploadPending) ==> status == XSCOPE_EP_SUCCESS && uploadPending && sent == old(sent) + UploadMessage(data)
    {
      if uploadPending {
        return XSCOPE_EP_FAILURE;
      }
      var request := BuildUploadRequest(data);
      sent := sent + request;
      uploadPending := true;
      status := XSCOPE_EP_SUCCESS;
    }

    /** Appends the bytes of one read after the kept bytes. */
    method AppendChunk(chunk: seq<byte>)
      requires Valid() && numRemaining + |chunk| <= MAX_RECV_BYTES
      modifies recvBuffer
      ensures recvBuffer[..numRemaining + |chunk|] == old(Leftover()) + chunk
    {
      for k := 0 to |chunk|
        invariant recvBuffer[..numRemaining] == old(Leftover())
        invariant recvBuffer[numRemaining..numRemaining + k] == chunk[..k]
      {
        recvBuffer[numRemaining + k] := chunk[k];
        assert recvBuffer[numRemaining..numRemaining + k + 1] == recvBuffer[numRemaining..numRemaining + k] + [chunk[k]];
      }
      assert recvBuffer[..numRemaining + |chunk|] == recvBuffer[..numRemaining] + recvBuffer[numRemaining..numRemaining + |chunk|];
    }

    /** The body of the receive loop for the message at offset `i` of the
        `n` bytes held: a complete message is handed on and its size
        returned; an incomplete one gives 0; a bad tag or an impossible print
        length is fatal. `first` is the first byte of the buffer. */
    method HandleMessage(i: nat, n: nat, ghost buf: seq<byte>, first: byte) returns (increment: nat, fatal: Option<Fatal>)
      requires Valid() && i < n <= MAX_RECV_BYTES && recvBuffer[..n] == buf
      modifies this`dispatched, this`uploadPending, recvBuffer
      ensures recvBuffer[..] == old(recvBuffer[..])
      ensures var p := ParseAt(buf, i, variant);
        match p
        case Complete(m, size) =>
          && fatal == None && increment == size
          && dispatched == old(dispatched) + [m] && uploadPending == PendingAfter(old(uploadPending), [m])
        case Incomplete =>
          fatal == None && increment == 0 && dispatched == old(dispatched) && uploadPending == old(uploadPending)
        case BadTag =>
          && fatal == Some(Corrupted(if variant == Common then buf[i] else first))
          && dispatched == old(dispatched) && uploadPending == old(uploadPending)
        case PrintTooLong(len) =>
          && fatal == Some(PrintOverflow(len))
          && dispatched == old(dispatched) && uploadPending == old(uploadPending)
    {
      increment, fatal := 0, None;
      var tag := recvBuffer[i];
      assert buf[i] == tag;
      if tag == XSCOPE_SOCKET_MSG_EVENT_PRINT {
        if i + PRINT_EVENT_BYTES <= n {
          var stringLen := ReadLe32(recvBuffer[..n], i + PRINT_LENGTH_OFFSET);
          assert stringLen == ReadLe32(buf, i + PRINT_LENGTH_OFFSET);
          var stringStart := i + PRINT_EVENT_BYTES;
          var stringEnd := i + PRINT_EVENT_BYTES + stringLen;
          if stringLen >= MAX_RECV_BYTES {
            fatal := Some(PrintOverflow(stringLen));
            return;
          }
          if stringEnd <= n {
            SliceOfPrefix(recvBuffer[..], n, stringStart, stringEnd);
            assert recvBuffer[..n] == recvBuffer[..][..n];
            var text := PrintText(stringStart, stringEnd, n);
            assert text == buf[stringStart..stringEnd] by {
              assert recvBuffer[stringStart..stringEnd] == recvBuffer[..][stringStart..stringEnd];
            }
            assert ParseAt(buf, i, variant) == Complete(Print(text), PRINT_EVENT_BYTES + stringLen);
            dispatched := dispatched + [Print(text)];
            increment := PRINT_EVENT_BYTES + stringLen;
          }
        }
      } else if tag == XSCOPE_SOCKET_MSG_EVENT_DATA {
        if i + DATA_EVENT_HEADER_BYTES <= n {
          var probe := recvBuffer[i + 1];
          var packetLen := DataLength(ReadLe32(recvBuffer[..n], i + DATA_LENGTH_OFFSET), variant);
          assert packetLen == DataLength(ReadLe32(buf, i + DATA_LENGTH_OFFSET), variant);
          if i + packetLen + DATA_EVENT_BYTES <= n {
            var dataStart := i + DATA_EVENT_HEADER_BYTES;
            var payload := recvBuffer[dataStart..dataStart + packetLen];
            SliceOfPrefix(recvBuffer[..], n, dataStart, dataStart + packetLen);
            assert recvBuffer[..n] == recvBuffer[..][..n];
            assert payload == recvBuffer[..][dataStart..dataStart + packetLen];
            assert probe == buf[i + 1];
            assert ParseAt(buf, i, variant) == Complete(Data(probe, payload), packetLen + DATA_EVENT_BYTES);
            dispatched := dispatched + [Data(probe, payload)];
            increment := packetLen + DATA_EVENT_BYTES;
          }
        }
      } else if tag == XSCOPE_SOCKET_MSG_EVENT_TARGET_DATA {
        if i + TARGET_DATA_EVENT_BYTES <= n {
          uploadPending := false;
          dispatched := dispatched + [Ack];
          increment := TARGET_DATA_EVENT_BYTES;
        }
      } else {
        var reported := if variant == Common then tag else first;
        fatal := Some(Corrupted(reported));
      }
    }

    /** One iteration of the receive loop of `handle_socket`: the bytes of
        one read are appended to the kept bytes, every complete message is
        handed on in order, and an incomplete trailing message is moved to
        the start of the buffer. A read never returns more than the free
        space it is given. */
    method ReceiveChunk(chunk: seq<byte>) returns (stop: Stop)
      requires Valid() && numRemaining + |chunk| <= MAX_RECV_BYTES
      modifies this, recvBuffer
      ensures Valid() && recvBuffer == old(recvBuffer) && sent == old(sent)
      ensures var buf := old(Leftover()) + chunk;
        var r := ScanFrom(buf, 0, variant, if buf == [] then 0 else buf[0]);
        && stop == r.stop
        && dispatched == old(dispatched) + r.msgs
        && uploadPending == PendingAfter(old(uploadPending), r.msgs)
        && (!r.stop.Stopped? ==> Leftover() == buf[r.end..])
    {
      ghost var buf := Leftover() + chunk;
      AppendChunk(chunk);
      var n := numRemaining + |chunk|;
      numRemaining := 0;
      var first: byte := if n == 0 then 0 else recvBuffer[0];
      assert first == if buf == [] then 0 else buf[0];
      stop := DispatchAll(n, buf, first);
    }

    /** The loop of `handle_socket` over the server's sends: each read is
        given the room after the kept bytes and handled as above, until the
        sends run out, a fatal error stops the host, or the kept bytes fill
        the buffer and the read, given no room, returns 0. */
    method HandleSocket(sends: seq<seq<byte>>) returns (stop: Stop)
      requires Valid()
      modifies this, recvBuffer
      ensures Valid() && recvBuffer == old(recvBuffer) && sent == old(sent)
      ensures var r := Session(old(Leftover()), sends, variant);
        && stop == r.stop
        && dispatched == old(dispatched) + r.msgs
        && uploadPending == PendingAfter(old(uploadPending), r.msgs)
        && (!r.stop.Stopped? ==> Leftover() == r.leftover)
    {
      ghost var total := Session(Leftover(), sends, variant);
      ghost var handed: seq<Message> := [];
      var rest := sends;
      while rest != [] && numRemaining < MAX_RECV_BYTES
        invariant Valid() && recvBuffer == old(recvBuffer) && sent == old(sent)
        invariant total == Handed(handed, Session(Leftover(), rest, variant))
        invariant dispatched == old(dispatched) + handed
        invariant uploadPending == PendingAfter(old(uploadPending), handed)
        decreases Backlog(rest)
      {
        var rd := ReadInto(MAX_RECV_BYTES - numRemaining, rest);
        ghost var before := Leftover();
        ghost var buf := before + rd.taken;
        ghost var ra := ScanFrom(buf, 0, variant, if buf == [] then 0 else buf[0]);
        SessionFront(before, rest, variant, rd, buf, ra);
        stop := ReceiveChunk(rd.taken);
        if stop.Stopped? {
          assert Session(before, rest, variant) == SessionResult(ra.msgs, buf[ra.end..], ra.stop);
          ConcatAssoc(old(dispatched), handed, ra.msgs);
          return;
        }
        ghost var next := Session(Leftover(), rd.later, variant);
        assert Session(before, rest, variant) == SessionResult(ra.msgs + next.msgs, next.leftover, next.stop);
        ConcatAssoc(handed, ra.msgs, next.msgs);
        ConcatAssoc(old(dispatched), handed, ra.msgs);
        handed := handed + ra.msgs;
        rest := rd.later;
      }
      if rest == [] {
        stop := Partial;
      } else {
        stop := Full;
      }
      assert handed + [] == handed;
    }

    /** The receive loop proper over the `n` bytes held: dispatches every
        complete message in order, stops at the first fatal one, and moves an
        incomplete trailing message to the start of the buffer. */
    method DispatchAll(n: nat, ghost buf: seq<byte>, first: byte) returns (stop: Stop)
      requires Valid() && n <= MAX_RECV_BYTES && |buf| == n && recvBuffer[..n] == buf && numRemaining == 0
      modifies this`dispatched, this`uploadPending, this`numRemaining, recvBuffer
      ensures Valid()
      ensures var r := ScanFrom(buf, 0, variant, first);
        && stop == r.stop
        && dispatched == old(dispatched) + r.msgs
        && uploadPending == PendingAfter(old(uploadPending), r.msgs)
        && (!r.stop.Stopped? ==> Leftover() == buf[r.end..])
    {
      ghost var whole := ScanFrom(buf, 0, variant, first);
      ghost var handed: seq<Message> := [];
      ghost var pending0 := uploadPending;
      ghost var dispatched0 := dispatched;
      ghost var contents := recvBuffer[..];
      assert contents[..n] == buf;
      var i := 0;
      while i < n
        invariant Valid()
        invariant 0 <= i <= n && recvBuffer[..] == contents && numRemaining == 0
        invariant whole == After(handed, ScanFrom(buf, i, variant, first))
        invariant dispatched == dispatched0 + handed
        invariant uploadPending == PendingAfter(pending0, handed)
        decreases n - i
      {
        ghost var parse := ParseAt(buf, i, variant);
        assert recvBuffer[..n] == contents[..n];
        var increment, fatal := HandleMessage(i, n, buf, first);
        if fatal.Some? {
          PassHalts(buf, i, variant, first, handed, whole);
          return Stopped(fatal.value);
        }
        if increment == 0 {
          PassHalts(buf, i, variant, first, handed, whole);
          assert recvBuffer[i..n] == buf[i..];
          numRemaining := n - i;
          MoveToFront(i, n);
          return Partial;
        }
        assert parse.Complete? && parse.size == increment;
        PassGoesOn(buf, i, variant, first, handed, whole);
        handed := handed + [parse.msg];
        i := i + increment;
      }
      assert handed + [] == handed;
      return Drained;
    }

    /** The text of a print message. The source terminates it with a NUL
        while printing and then restores the byte; the terminator is only
        written when it falls inside the buffer. */
    method PrintText(stringStart: nat, stringEnd: nat, n: nat) returns (text: seq<byte>)
      requires Valid() && stringStart <= stringEnd <= n <= MAX_RECV_BYTES
      modifies recvBuffer
      ensures recvBuffer[..] == old(recvBuffer[..])
      ensures text == recvBuffer[stringStart..stringEnd]
    {
      if stringEnd < MAX_RECV_BYTES {
        var tmp := recvBuffer[stringEnd];
        recvBuffer[stringEnd] := 0;
        text := recvBuffer[stringStart..stringEnd];
        recvBuffer[stringEnd] := tmp;
        assert recvBuffer[..] == old(recvBuffer[..]);
      } else {
        text := recvBuffer[stringStart..stringEnd];
      }
    }

    /** `memmove(recv_buffer, &recv_buffer[i], n - i)`. */
    method MoveToFront(i: nat, n: nat)
      requires Valid() && i <= n <= MAX_RECV_BYTES && numRemaining == n - i
      modifies recvBuffer
      ensures Leftover() == old(recvBuffer[i..n])
    {
      ghost var before := recvBuffer[..];
      for k := 0 to n - i
        invariant forall j :: 0 <= j < k ==> recvBuffer[j] == before[i + j]
        invariant forall j :: k <= j < MAX_RECV_BYTES ==> recvBuffer[j] == before[j]
      {
        recvBuffer[k] := recvBuffer[i + k];
      }
      assert forall j :: 0 <= j < n - i ==> Leftover()[j] == before[i..n][j];
    }
  }
}
