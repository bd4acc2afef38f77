/** The frame filter shared by both AVB stream analysers
    (app_avb_tester/src/analysis_utils.c and app_avb_tester/src/analyser.c):
    a captured frame counts towards a stream when it carries an IEEE 802.1Q
    VLAN tag, its tagged EtherType is the IEEE 1722 AVTP EtherType, its AVTP
    subtype is 0 and its 64-bit stream id is not zero.

    The AVTP header accessors come from avb_1722_common.h, which is not part
    of this model: the subtype is the low seven bits of the first AVTP byte
    and the stream id is the eight bytes at AVTP offset 4 in network order,
    the first four forming the high word and the last four the low word
    (the stream data header of IEEE 1722-2011, clause 5.4). Also shared is
    the slot scan of the stream tables: the first slot holding an id, and
    the last free slot. */
module AvtpFrame {
  import opened Common
  import opened Pcapng

  /** IEEE 802.1Q tag protocol identifier. */
  const VLAN_TPID: int := 0x8100
  /** `AVB_1722_ETHERTYPE`. */
  const AVB_1722_ETHERTYPE: int := 0x22F0

  /** Offset of the untagged EtherType field in an Ethernet frame. */
  const ETHERTYPE_OFFSET: nat := 12
  /** Offset of the EtherType that follows a 4-byte VLAN tag. */
  const TAGGED_ETHERTYPE_OFFSET: nat := 16
  /** Offset of the AVTP header in a VLAN-tagged frame. */
  const AVTP_OFFSET: nat := 18
  /** Offset of the stream id within the AVTP header. */
  const STREAM_ID_OFFSET: nat := 4
  /** The frame bytes the filter reads: up to the end of the stream id. */
  const FILTER_BYTES: nat := AVTP_OFFSET + STREAM_ID_OFFSET + 8

  /** `avb1722_StreamId_t`: the stream id as two 32-bit words. */
  datatype StreamId = StreamId(low: u32, high: u32)

  /** The value an empty stream slot holds. */
  const NO_STREAM: StreamId := StreamId(0, 0)

  predicate IsZero(id: StreamId)
  {
    id.low == 0 && id.high == 0
  }

  /** The ids the filter lets through: never the empty-slot value. */
  type LiveStreamId = id: StreamId | !IsZero(id) witness StreamId(1, 0)

  function Subtype(frame: seq<byte>): (r: int)
    requires |frame| >= FILTER_BYTES
    ensures 0 <= r < 0x80
  {
    frame[AVTP_OFFSET] % 0x80
  }

  function StreamIdOf(frame: seq<byte>): StreamId
    requires |frame| >= FILTER_BYTES
  {
    StreamId(ReadBe32(frame, AVTP_OFFSET + STREAM_ID_OFFSET + 4), ReadBe32(frame, AVTP_OFFSET + STREAM_ID_OFFSET))
  }

  /** The frame is AVTP stream data of subtype 0 behind a VLAN tag. */
  predicate IsTaggedAvtpStream(frame: seq<byte>)
    requires |frame| >= FILTER_BYTES
  {
    && ReadBe16(frame, ETHERTYPE_OFFSET) == VLAN_TPID
    && ReadBe16(frame, TAGGED_ETHERTYPE_OFFSET) == AVB_1722_ETHERTYPE
    && Subtype(frame) == 0
  }

  /** The stream a captured frame is counted against, or `None` when the
      analyser ignores it. The checks run in the order of the source: the
      outer EtherType, the tagged EtherType, the subtype, then the zero id.
      The device's buffers always hold more than `FILTER_BYTES` bytes of
      frame data, whatever the frame's length. */
  function Classify(frame: seq<byte>): (r: Option<StreamId>)
    requires |frame| >= FILTER_BYTES
    ensures r.Some? <==> IsTaggedAvtpStream(frame) && !IsZero(StreamIdOf(frame))
    ensures r.Some? ==> r.value == StreamIdOf(frame) && !IsZero(r.value)
  {
    if ReadBe16(frame, ETHERTYPE_OFFSET) != VLAN_TPID then None
    else if ReadBe16(frame, TAGGED_ETHERTYPE_OFFSET) != AVB_1722_ETHERTYPE then None
    else
      var id := StreamIdOf(frame);
      if Subtype(frame) != 0 then None
      else if id.low == 0 && id.high == 0 then None
      else Some(id)
  }

  /** The analysers read the frame at the `data` member of the captured
      Enhanced Packet Block. */
  function ClassifyPacket(epb: EnhancedPacketBlock): (r: Option<StreamId>)
    requires |epb.data| >= FILTER_BYTES
    ensures r == Classify(epb.data)
  {
    Classify(epb.data)
  }

  /** An untagged frame is never counted, whatever it carries. */
  lemma UntaggedFramesIgnored(frame: seq<byte>)
    requires |frame| >= FILTER_BYTES
    requires frame[ETHERTYPE_OFFSET] != 0x81 || frame[ETHERTYPE_OFFSET + 1] != 0x00
    ensures Classify(frame) == None
  {
  }

  /** The filter looks at nothing but the two EtherTypes, the subtype bits
      and the stream id: frames agreeing on those are classified alike. */
  lemma ClassifyDependsOnHeaderOnly(f: seq<byte>, g: seq<byte>)
    requires |f| >= FILTER_BYTES && |g| >= FILTER_BYTES
    requires f[ETHERTYPE_OFFSET..ETHERTYPE_OFFSET + 2] == g[ETHERTYPE_OFFSET..ETHERTYPE_OFFSET + 2]
    requires f[TAGGED_ETHERTYPE_OFFSET..TAGGED_ETHERTYPE_OFFSET + 2] == g[TAGGED_ETHERTYPE_OFFSET..TAGGED_ETHERTYPE_OFFSET + 2]
    requires f[AVTP_OFFSET] % 0x80 == g[AVTP_OFFSET] % 0x80
    requires f[AVTP_OFFSET + STREAM_ID_OFFSET..FILTER_BYTES] == g[AVTP_OFFSET + STREAM_ID_OFFSET..FILTER_BYTES]
    ensures Classify(f) == Classify(g)
  {
    assert f[ETHERTYPE_OFFSET] == f[ETHERTYPE_OFFSET..ETHERTYPE_OFFSET + 2][0];
    assert f[ETHERTYPE_OFFSET + 1] == f[ETHERTYPE_OFFSET..ETHERTYPE_OFFSET + 2][1];
    assert g[ETHERTYPE_OFFSET] == g[ETHERTYPE_OFFSET..ETHERTYPE_OFFSET + 2][0];
    assert g[ETHERTYPE_OFFSET + 1] == g[ETHERTYPE_OFFSET..ETHERTYPE_OFFSET + 2][1];
    assert f[TAGGED_ETHERTYPE_OFFSET] == f[TAGGED_ETHERTYPE_OFFSET..TAGGED_ETHERTYPE_OFFSET + 2][0];
    assert f[TAGGED_ETHERTYPE_OFFSET + 1] == f[TAGGED_ETHERTYPE_OFFSET..TAGGED_ETHERTYPE_OFFSET + 2][1];
    assert g[TAGGED_ETHERTYPE_OFFSET] == g[TAGGED_ETHERTYPE_OFFSET..TAGGED_ETHERTYPE_OFFSET + 2][0];
    assert g[TAGGED_ETHERTYPE_OFFSET + 1] == g[TAGGED_ETHERTYPE_OFFSET..TAGGED_ETHERTYPE_OFFSET + 2][1];
    forall k | AVTP_OFFSET + STREAM_ID_OFFSET <= k < FILTER_BYTES
      ensures f[k] == g[k]
    {
      assert f[k] == f[AVTP_OFFSET + STREAM_ID_OFFSET..FILTER_BYTES][k - (AVTP_OFFSET + STREAM_ID_OFFSET)];
      assert g[k] == g[AVTP_OFFSET + STREAM_ID_OFFSET..FILTER_BYTES][k - (AVTP_OFFSET + STREAM_ID_OFFSET)];
    }
  }

  // ---------------------------------------------------------------------
  // Slot scans shared by the stream tables

  /** The first slot holding `id`. */
  function FirstMatch(ids: seq<StreamId>, id: StreamId): (r: Option<nat>)
    ensures r.None? <==> id !in ids
    ensures r.Some? ==> r.value < |ids| && ids[r.value] == id && id !in ids[..r.value]
  {
    if |ids| == 0 then None
    else if ids[0] == id then Some(0)
    else
      match FirstMatch(ids[1..], id)
      case None => None
      case Some(k) =>
        assert ids[..k + 1] == [ids[0]] + ids[1..][..k];
        Some(k + 1)
  }

  /** The last free slot among the first `n`: the analysers scan every slot
      and remember each free one they pass, so the last one wins. */
  function LastFree(ids: seq<StreamId>, n: nat): (r: Option<nat>)
    requires n <= |ids|
    ensures r.None? <==> forall j :: 0 <= j < n ==> !IsZero(ids[j])
    ensures r.Some? ==> r.value < n && IsZero(ids[r.value]) && forall j :: r.value < j < n ==> !IsZero(ids[j])
  {
    if n == 0 then None
    else if IsZero(ids[n - 1]) then Some(n - 1)
    else LastFree(ids, n - 1)
  }
}
