/** The per-stream packet-rate checker of the AVB tester
    (app_avb_tester/src/analysis_utils.c): a table of 16 stream slots, a
    per-frame update that counts a frame against its stream (claiming a free
    slot for a new stream), and a once-a-second check that snapshots the
    counts, evicts streams that went quiet and flags active streams whose
    rate in the previous whole window is outside 8000 +/- 4 packets per
    second (or the oversubscribed rate).

    Every `unsigned int` computation is modelled modulo 2^32. The hardware
    lock only makes each guarded block atomic; the model runs the blocks one
    after another. */
module StreamTable {
  import opened Common
  import opened Pcapng
  import opened AvtpFrame

  const MAX_NUM_STREAMS: nat := 16
  /** Class A traffic carries 8000 packets per second. */
  const CLASS_A_PACKETS_PER_SEC: u32 := 8000
  /** The tolerated deviation from the expected rate, in packets. */
  const ERROR_MARGIN: u32 := 4
  const PREAMBLE_BYTES: u32 := 8
  /** The inter-frame gap: 96 bit times. */
  const IFG_BYTES: u32 := 12

  /** `stream_state_t`. `sequenceNumber` is declared but never used. */
  datatype StreamState = StreamState(
    id: StreamId,
    active: bool,
    packetNumBytes: u32,
    count: u32,
    lastCount: u32,
    snapshot: u32,
    sequenceNumber: byte)

  /** A slot of the zero-initialised global table. */
  const EMPTY_SLOT: StreamState := StreamState(NO_STREAM, false, 0, 0, 0, 0, 0)

  function IdsOf(s: seq<StreamState>): (r: seq<StreamId>)
    ensures |r| == |s| && forall j :: 0 <= j < |s| ==> r[j] == s[j].id
  {
    seq(|s|, j requires 0 <= j < |s| => s[j].id)
  }

  /** No stream occupies two slots. */
  predicate UniqueIds(s: seq<StreamState>)
  {
    forall i, j :: 0 <= i < j < |s| && !IsZero(s[i].id) ==> s[i].id != s[j].id
  }

  // ---------------------------------------------------------------------
  // increment_count

  datatype IncrementOutcome =
    | Counted(index: nat, sizeChanged: bool)  // the stream's slot; whether the frame size differs from the recorded one
    | Added(index: nat)                        // the free slot the new stream took
    | NoFreeSlot                               // `assert(0)`: the device stops

  datatype IncrementResult = IncrementResult(slots: seq<StreamState>, outcome: IncrementOutcome)

  /** One counted frame of stream `id` with `n` bytes. A known stream's count
      goes up by one (a size change is only reported). An unknown stream
      takes the LAST free slot with count 1, snapshot 0 and size `n`; its
      `active` flag and `lastCount` keep whatever the slot held. With no
      slot to take, the table is unchanged and the device halts. */
  function Increment(s: seq<StreamState>, id: StreamId, n: u32): (r: IncrementResult)
    requires !IsZero(id)
    ensures |r.slots| == |s|
    ensures r.outcome.Counted? <==> id in IdsOf(s)
    ensures r.outcome.Counted? ==>
      var i := r.outcome.index;
      && i < |s| && s[i].id == id && (forall j :: 0 <= j < i ==> s[j].id != id)
      && r.slots == s[i := s[i].(count := Wrap32(s[i].count + 1))]
      && (r.outcome.sizeChanged <==> s[i].packetNumBytes != n)
    ensures r.outcome.Added? ==>
      var i := r.outcome.index;
      && i < |s| && IsZero(s[i].id) && (forall j :: i < j < |s| ==> !IsZero(s[j].id))
      && r.slots == s[i := s[i].(id := id, count := 1, snapshot := 0, packetNumBytes := n)]
    ensures r.outcome.NoFreeSlot? <==> id !in IdsOf(s) && forall j :: 0 <= j < |s| ==> !IsZero(s[j].id)
    ensures r.outcome.NoFreeSlot? ==> r.slots == s
  {
    var ids := IdsOf(s);
    match FirstMatch(ids, id)
    case Some(i) =>
      assert forall j :: 0 <= j < i ==> ids[..i][j] == s[j].id;
      IncrementResult(s[i := s[i].(count := Wrap32(s[i].count + 1))], Counted(i, s[i].packetNumBytes != n))
    case None =>
      match LastFree(ids, |s|)
      case Some(f) => IncrementResult(s[f := s[f].(id := id, count := 1, snapshot := 0, packetNumBytes := n)], Added(f))
      case None => IncrementResult(s, NoFreeSlot)
  }

  /** A frame never makes a stream appear twice. */
  lemma IncrementKeepsIdsUnique(s: seq<StreamState>, id: StreamId, n: u32)
    requires !IsZero(id) && UniqueIds(s)
    ensures UniqueIds(Increment(s, id, n).slots)
  {
    var r := Increment(s, id, n);
    if r.outcome.Added? {
      var f := r.outcome.index;
      forall j | 0 <= j < |s| && j != f
        ensures s[j].id != id
      {
        assert IdsOf(s)[j] == s[j].id;
      }
    }
  }

  /** Counting frames one after another, as the receiver does. */
  function IncrementAll(s: seq<StreamState>, frames: seq<(LiveStreamId, u32)>): (r: seq<StreamState>)
    ensures |r| == |s|
    decreases |frames|
  {
    if frames == [] then s
    else IncrementAll(Increment(s, frames[0].0, frames[0].1).slots, frames[1..])
  }

  /** How many of the frames belong to stream `id`. */
  function Occurrences(frames: seq<(LiveStreamId, u32)>, id: StreamId): nat
  {
    if frames == [] then 0
    else (if frames[0].0 == id then 1 else 0) + Occurrences(frames[1..], id)
  }

  /** One frame leaves every other stream's slot alone and counts one more
      for its own stream, and keeps the ids unique. */
  lemma SlotAfterIncrement(s: seq<StreamState>, id: StreamId, n: u32, i: nat)
    requires !IsZero(id) && UniqueIds(s) && i < |s| && !IsZero(s[i].id)
    ensures UniqueIds(Increment(s, id, n).slots)
    ensures Increment(s, id, n).slots[i] == if id == s[i].id then s[i].(count := Wrap32(s[i].count + 1)) else s[i]
  {
    IncrementKeepsIdsUnique(s, id, n);
    if id == s[i].id {
      assert IdsOf(s)[i] == id;
    }
  }

  /** The frames as one occupied slot sees them: each frame of its own
      stream adds one to its count. */
  function SlotAfter(st: StreamState, frames: seq<(LiveStreamId, u32)>): StreamState
    decreases |frames|
  {
    if frames == [] then st
    else SlotAfter(if frames[0].0 == st.id then st.(count := Wrap32(st.count + 1)) else st, frames[1..])
  }

  /** An occupied slot evolves under a frame sequence as if it were alone,
      whatever other streams come and go. */
  lemma {:induction false} SlotFollowsFrames(s: seq<StreamState>, frames: seq<(LiveStreamId, u32)>, i: nat)
    requires UniqueIds(s) && i < |s| && !IsZero(s[i].id)
    ensures IncrementAll(s, frames)[i] == SlotAfter(s[i], frames)
    decreases |frames|
  {
    if frames != [] {
      SlotAfterIncrement(s, frames[0].0, frames[0].1, i);
      SlotFollowsFrames(Increment(s, frames[0].0, frames[0].1).slots, frames[1..], i);
    }
  }

  /** While a stream keeps its slot, its count is the number of its frames
      seen since, modulo 2^32, and nothing else about the slot changes. */
  lemma {:induction false} CountIsFramesOfStream(st: StreamState, frames: seq<(LiveStreamId, u32)>)
    ensures SlotAfter(st, frames) == st.(count := Wrap32(st.count + Occurrences(frames, st.id)))
    decreases |frames|
  {
    if frames != [] {
      var d := if frames[0].0 == st.id then 1 else 0;
      var next := if frames[0].0 == st.id then st.(count := Wrap32(st.count + 1)) else st;
      CountIsFramesOfStream(next, frames[1..]);
      WrapChain(st.count, d, next.count, Occurrences(frames[1..], st.id), SlotAfter(st, frames).count, Occurrences(frames, st.id));
    }
  }

  // ---------------------------------------------------------------------
  // check_counts

  /** The first pass on one slot: `active` says whether both the window
      before last and the window just ended had frames; the window before
      the one just ended becomes `lastCount`, the one just ended becomes
      `snapshot`, and counting restarts from zero. */
  function Snapshot(st: StreamState): StreamState
  {
    st.(active := st.lastCount != 0 && st.count != 0,
        lastCount := st.snapshot,
        snapshot := st.count,
        count := 0)
  }

  function Pass1(s: seq<StreamState>): (r: seq<StreamState>)
    ensures |r| == |s| && forall j :: 0 <= j < |s| ==> r[j] == Snapshot(s[j])
  {
    seq(|s|, j requires 0 <= j < |s| => Snapshot(s[j]))
  }

  /** The rate a stream must keep, or `None` where computing it divides by
      zero (the device traps). Oversubscribed streams get one extra byte of
      bandwidth per frame on the wire (frame, preamble, inter-frame gap). */
  function ExpectedRate(oversubscribed: bool, packetNumBytes: u32): (r: Option<u32>)
    ensures !oversubscribed ==> r == Some(CLASS_A_PACKETS_PER_SEC)
    ensures oversubscribed ==> (r.None? <==> packetNumBytes == TWO_32 - 20)
  {
    if !oversubscribed then Some(CLASS_A_PACKETS_PER_SEC)
    else
      var numBytes := Wrap32(packetNumBytes + PREAMBLE_BYTES + IFG_BYTES);
      if numBytes == 0 then None
      else
        var product := Wrap32(CLASS_A_PACKETS_PER_SEC * Wrap32(numBytes + 1));
        DivNoLarger(product, numBytes);
        Some(product / numBytes)
  }

  /** For any size up to 536000 bytes nothing wraps, and the oversubscribed
      rate is the floor of 8000 * (n + 21) / (n + 20). */
  lemma OversubscribedRateIsFloor(n: u32)
    requires n <= 536_000
    ensures ExpectedRate(true, n).Some?
    ensures var q := ExpectedRate(true, n).value;
      q * (n + 20) <= CLASS_A_PACKETS_PER_SEC * (n + 21) < (q + 1) * (n + 20)
  {
    var m := n + 20;
    var x := 8000 * (n + 21);
    assert Wrap32(n + PREAMBLE_BYTES + IFG_BYTES) == m;
    assert Wrap32(8000 * Wrap32(m + 1)) == x;
    assert ExpectedRate(true, n) == Some(x / m);
    FloorDiv(x, m);
  }

  lemma DivNoLarger(x: int, m: int)
    requires x >= 0 && m >= 1
    ensures 0 <= x / m <= x
  {
  }

  lemma FloorDiv(x: int, m: int)
    requires m > 0
    ensures (x / m) * m <= x < (x / m + 1) * m
  {
    var q := x / m;
    assert x == q * m + x % m;
    assert (q + 1) * m == q * m + m;
  }

  /** Oversubscribed rates for common frame sizes: a 100-byte frame gives
      8066, a maximum 1522-byte frame 8005 and a minimum 64-byte frame 8095,
      so an oversubscribed stream sent at the nominal 8000 is flagged. */
  lemma OversubscribedRates()
    ensures ExpectedRate(true, 100) == Some(8066)
    ensures ExpectedRate(true, 1522) == Some(8005)
    ensures ExpectedRate(true, 64) == Some(8095)
    ensures IsViolation(true, 8000, 8066)
  {
  }

  /** A wire size of 2^32 - 1 wraps `num_bytes + 1` to zero, and the expected
      rate with it. */
  lemma OversubscribedRateWrapsToZero()
    ensures ExpectedRate(true, TWO_32 - 21) == Some(0)
  {
  }

  /** The stream's whole last window is outside `expected` +/- 4, with the
      bounds computed in unsigned arithmetic. */
  function IsViolation(active: bool, lastCount: u32, expected: u32): (r: bool)
    ensures ERROR_MARGIN <= expected < TWO_32 - ERROR_MARGIN ==>
      (r <==> active && !(expected - ERROR_MARGIN <= lastCount <= expected + ERROR_MARGIN))
    ensures expected < ERROR_MARGIN ==> (r <==> active)
    ensures !active ==> !r
  {
    active && (lastCount < Wrap32(expected - ERROR_MARGIN) || lastCount > Wrap32(expected + ERROR_MARGIN))
  }

  /** What the second pass prints. */
  datatype CheckReport =
    | Removed(index: nat, id: StreamId)
    | RateError(index: nat, id: StreamId, lastCount: u32)

  datatype CheckResult = CheckResult(slots: seq<StreamState>, reports: seq<CheckReport>, trapped: bool)

  /** What the second pass reports for a slot after the first pass, or
      `None` when it reports nothing (including the trapping case). */
  function SlotReport(st: StreamState, i: nat, oversubscribed: bool): Option<CheckReport>
  {
    if IsZero(st.id) then None
    else if st.snapshot == 0 then Some(Removed(i, st.id))
    else match ExpectedRate(oversubscribed, st.packetNumBytes)
      case None => None
      case Some(e) => if IsViolation(st.active, st.lastCount, e) then Some(RateError(i, st.id, st.lastCount)) else None
  }

  /** The slot traps the second pass. */
  predicate SlotTraps(st: StreamState, oversubscribed: bool)
  {
    !IsZero(st.id) && st.snapshot != 0 && ExpectedRate(oversubscribed, st.packetNumBytes).None?
  }

  /** The slot after the second pass: a stream with no frames in the window
      just ended loses its slot. */
  function Evicted(st: StreamState): StreamState
  {
    if !IsZero(st.id) && st.snapshot == 0 then st.(id := NO_STREAM) else st
  }

  /** The second pass from slot `k` on. */
  function EvaluateFrom(s: seq<StreamState>, oversubscribed: bool, k: nat): (r: CheckResult)
    requires k <= |s|
    ensures |r.slots| == |s|
    decreases |s| - k
  {
    if k == |s| then CheckResult(s, [], false)
    else if SlotTraps(s[k], oversubscribed) then CheckResult(s, [], true)
    else
      var rest := EvaluateFrom(s[k := Evicted(s[k])], oversubscribed, k + 1);
      rest.(reports := ReportList(s[k], k, oversubscribed) + rest.reports)
  }

  /** The slot's report as a list of zero or one entries. */
  function ReportList(st: StreamState, i: nat, oversubscribed: bool): seq<CheckReport>
  {
    match SlotReport(st, i, oversubscribed)
    case None => []
    case Some(rep) => [rep]
  }

  lemma SeqAppendAssoc<T>(a: seq<T>, b: seq<T>, c: seq<T>)
    ensures a + (b + c) == (a + b) + c
  {
  }

  /** One step of the second pass. */
  lemma EvaluateStep(t: seq<StreamState>, o: bool, i: nat)
    requires i < |t| && !SlotTraps(t[i], o)
    ensures EvaluateFrom(t, o, i)
         == var rest := EvaluateFrom(t[i := Evicted(t[i])], o, i + 1);
            rest.(reports := ReportList(t[i], i, o) + rest.reports)
  {
  }

  /** `check_counts`: the first pass over every slot, then the second. */
  function WindowCheck(s: seq<StreamState>, oversubscribed: bool): (r: CheckResult)
    ensures |r.slots| == |s|
  {
    EvaluateFrom(Pass1(s), oversubscribed, 0)
  }

  /** The second pass traps exactly when some remaining slot traps. */
  lemma {:induction false} EvaluateFromTraps(s: seq<StreamState>, o: bool, k: nat)
    requires k <= |s|
    ensures EvaluateFrom(s, o, k).trapped <==> exists j :: k <= j < |s| && SlotTraps(s[j], o)
    decreases |s| - k
  {
    if k < |s| && !SlotTraps(s[k], o) {
      var t := s[k := Evicted(s[k])];
      EvaluateFromTraps(t, o, k + 1);
      assert forall j :: k + 1 <= j < |s| ==> t[j] == s[j];
    }
  }

  /** Each slot is left as it was or evicted; with no trap, the slots from
      `k` on are all evicted where due. */
  lemma {:induction false} EvaluateFromSlots(s: seq<StreamState>, o: bool, k: nat)
    requires k <= |s|
    ensures var r := EvaluateFrom(s, o, k);
      && (forall j :: 0 <= j < |s| ==> r.slots[j] == s[j] || r.slots[j] == Evicted(s[j]))
      && (!r.trapped ==> forall j :: 0 <= j < |s| ==> r.slots[j] == if j < k then s[j] else Evicted(s[j]))
    decreases |s| - k
  {
    if k < |s| && !SlotTraps(s[k], o) {
      var t := s[k := Evicted(s[k])];
      EvaluateFromSlots(t, o, k + 1);
      assert Evicted(t[k]) == t[k];
    }
  }

  /** With no trap, every report is the one `SlotReport` gives for its
      slot, from `k` on. */
  lemma {:induction false} EvaluateFromReportsSound(s: seq<StreamState>, o: bool, k: nat)
    requires k <= |s|
    ensures var r := EvaluateFrom(s, o, k);
      !r.trapped ==> forall rep :: rep in r.reports ==> k <= rep.index < |s| && SlotReport(s[rep.index], rep.index, o) == Some(rep)
    decreases |s| - k
  {
    if k < |s| && !SlotTraps(s[k], o) {
      var t := s[k := Evicted(s[k])];
      EvaluateFromReportsSound(t, o, k + 1);
      var rest := EvaluateFrom(t, o, k + 1);
      forall rep | !rest.trapped && rep in EvaluateFrom(s, o, k).reports
        ensures k <= rep.index < |s| && SlotReport(s[rep.index], rep.index, o) == Some(rep)
      {
        if rep in rest.reports {
          assert t[rep.index] == s[rep.index];
        } else {
          assert rep in ReportList(s[k], k, o);
          match ReportList(s[k], k, o)[0]
          case Removed(i, _) => assert i == k;
          case RateError(i, _, _) => assert i == k;
        }
      }
    }
  }

  /** With no trap, every slot from `k` on that `SlotReport` has something
      for is reported. */
  lemma {:induction false} EvaluateFromReportsComplete(s: seq<StreamState>, o: bool, k: nat)
    requires k <= |s|
    ensures var r := EvaluateFrom(s, o, k);
      !r.trapped ==> forall j :: k <= j < |s| && SlotReport(s[j], j, o).Some? ==> SlotReport(s[j], j, o).value in r.reports
    decreases |s| - k
  {
    if k < |s| && !SlotTraps(s[k], o) {
      var t := s[k := Evicted(s[k])];
      EvaluateFromReportsComplete(t, o, k + 1);
      var rest := EvaluateFrom(t, o, k + 1);
      forall j | !rest.trapped && k < j < |s| && SlotReport(s[j], j, o).Some?
        ensures SlotReport(s[j], j, o).value in EvaluateFrom(s, o, k).reports
      {
        assert t[j] == s[j];
      }
    }
  }

  /** After the check, with no trap, every slot holds its first-pass state,
      except that a stream with no frames in the window just ended is
      removed; every report is the one `SlotReport` gives for its slot, and
      every slot `SlotReport` has something for is reported. */
  lemma WindowCheckOutcome(s: seq<StreamState>, o: bool)
    ensures var r := WindowCheck(s, o);
      && (r.trapped <==> exists j :: 0 <= j < |s| && SlotTraps(Snapshot(s[j]), o))
      && (!r.trapped ==> forall j :: 0 <= j < |s| ==> r.slots[j] == Evicted(Snapshot(s[j])))
      && (!r.trapped ==> forall rep :: rep in r.reports ==> rep.index < |s| && SlotReport(Snapshot(s[rep.index]), rep.index, o) == Some(rep))
      && (!r.trapped ==> forall j :: 0 <= j < |s| && SlotReport(Snapshot(s[j]), j, o).Some? ==> SlotReport(Snapshot(s[j]), j, o).value in r.reports)
  {
    EvaluateFromTraps(Pass1(s), o, 0);
    EvaluateFromSlots(Pass1(s), o, 0);
    EvaluateFromReportsSound(Pass1(s), o, 0);
    EvaluateFromReportsComplete(Pass1(s), o, 0);
  }

  /** The check traps only on an oversubscribed stream whose recorded size
      makes the wire size wrap to zero. */
  lemma WindowCheckTrapsOnlyOnWrappedSize(s: seq<StreamState>, o: bool)
    requires WindowCheck(s, o).trapped
    ensures o && exists j :: 0 <= j < |s| && !IsZero(s[j].id) && s[j].count != 0 && s[j].packetNumBytes == TWO_32 - 20
  {
    WindowCheckOutcome(s, o);
    var j :| 0 <= j < |s| && SlotTraps(Snapshot(s[j]), o);
    assert !IsZero(s[j].id) && s[j].count != 0;
  }

  /** The check never lets a stream appear twice. */
  lemma WindowCheckKeepsIdsUnique(s: seq<StreamState>, o: bool)
    requires UniqueIds(s)
    ensures UniqueIds(WindowCheck(s, o).slots)
  {
    WindowCheckOutcome(s, o);
    var r := WindowCheck(s, o);
    EvaluateFromTraps(Pass1(s), o, 0);
    EvaluateFromSlots(Pass1(s), o, 0);
    EvaluateFromReportsSound(Pass1(s), o, 0);
    EvaluateFromReportsComplete(Pass1(s), o, 0);
  }

  /** A stream removed by the check is counted as new when its frames come
      back: it takes a free slot with count 1, but that slot keeps the
      `active` flag and `lastCount` its previous occupant left. */
  lemma EvictedStreamReturnsAsNew(s: seq<StreamState>, o: bool, i: nat, n: u32)
    requires UniqueIds(s) && i < |s| && !IsZero(s[i].id) && s[i].count == 0
    requires !WindowCheck(s, o).trapped
    ensures var after := WindowCheck(s, o).slots;
      var r := Increment(after, s[i].id, n);
      && r.outcome.Added?
      && r.slots[r.outcome.index].count == 1
      && r.slots[r.outcome.index].lastCount == after[r.outcome.index].lastCount
      && r.slots[r.outcome.index].active == after[r.outcome.index].active
  {
    WindowCheckOutcome(s, o);
    var after := WindowCheck(s, o).slots;
    var id := s[i].id;
    assert IsZero(after[i].id);
    forall j | 0 <= j < |s|
      ensures IdsOf(after)[j] != id
    {
      if j != i && !IsZero(s[j].id) {
        assert s[j].id != id;
      }
    }
  }

  /** With the nominal rate, whole windows of 7996 to 8004 packets pass and
      7995 or 8005 are flagged. */
  lemma NominalTolerance()
    ensures !IsViolation(true, 7996, 8000) && !IsViolation(true, 8004, 8000)
    ensures IsViolation(true, 7995, 8000) && IsViolation(true, 8005, 8000)
  {
  }

  // ---------------------------------------------------------------------
  // The shared table

  class StreamAnalyser {
    /** `stream_state`. */
    var slots: array<StreamState>

    ghost predicate Valid()
      reads this, slots
    {
      slots.Length == MAX_NUM_STREAMS && UniqueIds(slots[..])
    }

    /** The zero-initialised global table; `analyse_init` only allocates
        the lock. */
    constructor ()
      ensures Valid() && fresh(slots)
      ensures forall j :: 0 <= j < MAX_NUM_STREAMS ==> slots[j] == EMPTY_SLOT
    {
      slots := new StreamState[MAX_NUM_STREAMS](_ => EMPTY_SLOT);
    }

    /** `increment_count`. */
    method IncrementCount(id: StreamId, n: u32) returns (outcome: IncrementOutcome)
      requires Valid() && !IsZero(id)
      modifies slots
      ensures Valid()
      ensures slots[..] == Increment(old(slots[..]), id, n).slots
      ensures outcome == Increment(old(slots[..]), id, n).outcome
    {
      ghost var s := slots[..];
      var found, freeIndex := FindSlot(id);
      IncrementKeepsIdsUnique(s, id, n);
      if found.Some? {
        var i := found.value;
        var sizeChanged := slots[i].packetNumBytes != n;
        slots[i] := slots[i].(count := Wrap32(slots[i].count + 1));
        outcome := Counted(i, sizeChanged);
      } else if freeIndex != MAX_NUM_STREAMS {
        slots[freeIndex] := slots[freeIndex].(id := id, count := 1, snapshot := 0, packetNumBytes := n);
        outcome := Added(freeIndex);
      } else {
        outcome := NoFreeSlot;
      }
    }

    /** The search loop of `increment_count`: the first slot that holds the
        stream, and, when none does, the last free slot (`MAX_NUM_STREAMS`
        when there is none). */
    method FindSlot(id: StreamId) returns (found: Option<nat>, freeIndex: nat)
      requires slots.Length == MAX_NUM_STREAMS
      ensures found == FirstMatch(IdsOf(slots[..]), id)
      ensures found.None? ==>
        freeIndex == match LastFree(IdsOf(slots[..]), MAX_NUM_STREAMS) case None => MAX_NUM_STREAMS case Some(f) => f
    {
      ghost var ids := IdsOf(slots[..]);
      freeIndex := MAX_NUM_STREAMS;
      var i := 0;
      while i < MAX_NUM_STREAMS
        invariant 0 <= i <= MAX_NUM_STREAMS
        invariant forall j :: 0 <= j < i ==> ids[j] != id
        invariant freeIndex == match LastFree(ids, i) case None => MAX_NUM_STREAMS case Some(f) => f
      {
        if slots[i].id.low == id.low && slots[i].id.high == id.high {
          assert ids[i] == id;
          assert id !in ids[..i] by {
            forall j | 0 <= j < i ensures ids[..i][j] != id { }
          }
          assert FirstMatch(ids, id) == Some(i);
          return Some(i), freeIndex;
        } else if slots[i].id.low == 0 && slots[i].id.high == 0 {
          freeIndex := i;
        }
        i := i + 1;
      }
      assert id !in ids;
      found := None;
    }

    /** `analyse_buffer`: count the frame of a captured packet when the
        filter accepts it, against its stream and its `packet_len`. The
        result is `None` for an ignored frame. */
    method AnalyseBuffer(epb: EnhancedPacketBlock) returns (outcome: Option<IncrementOutcome>)
      requires Valid() && |epb.data| >= FILTER_BYTES
      modifies slots
      ensures Valid()
      ensures outcome.None? <==> ClassifyPacket(epb).None?
      ensures ClassifyPacket(epb).None? ==> slots[..] == old(slots[..])
      ensures ClassifyPacket(epb).Some? ==>
        var r := Increment(old(slots[..]), ClassifyPacket(epb).value, epb.packetLen);
        slots[..] == r.slots && outcome == Some(r.outcome)
    {
      match ClassifyPacket(epb)
      case None =>
        outcome := None;
      case Some(id) =>
        var o := IncrementCount(id, epb.packetLen);
        outcome := Some(o);
    }

    /** `check_counts`. */
    method CheckCounts(oversubscribed: bool) returns (reports: seq<CheckReport>, trapped: bool)
      requires Valid()
      modifies slots
      ensures Valid()
      ensures var r := WindowCheck(old(slots[..]), oversubscribed);
        slots[..] == r.slots && reports == r.reports && trapped == r.trapped
    {
      ghost var s := slots[..];
      for i := 0 to MAX_NUM_STREAMS
        invariant forall j :: 0 <= j < i ==> slots[j] == Snapshot(s[j])
        invariant forall j :: i <= j < MAX_NUM_STREAMS ==> slots[j] == s[j]
      {
        slots[i] := Snapshot(slots[i]);
      }
      assert slots[..] == Pass1(s);
      WindowCheckKeepsIdsUnique(s, oversubscribed);
      reports := [];
      trapped := false;
      var i := 0;
      while i < MAX_NUM_STREAMS
        invariant 0 <= i <= MAX_NUM_STREAMS
        invariant var r := EvaluateFrom(slots[..], oversubscribed, i);
          WindowCheck(s, oversubscribed) == r.(reports := reports + r.reports)
      {
        ghost var t := slots[..];
        ghost var before := reports;
        var st := slots[i];
        if !SlotTraps(st, oversubscribed) {
          EvaluateStep(t, oversubscribed, i);
        }
        if !IsZero(st.id) {
          if st.snapshot == 0 {
            reports := reports + [Removed(i, st.id)];
            slots[i] := st.(id := NO_STREAM);
          } else {
            var expected := ExpectedRate(oversubscribed, st.packetNumBytes);
            if expected.None? {
              trapped := true;
              return;
            }
            if IsViolation(st.active, st.lastCount, expected.value) {
              reports := reports + [RateError(i, st.id, st.lastCount)];
            }
          }
        }
        ghost var step := ReportList(t[i], i, oversubscribed);
        assert slots[..] == t[i := Evicted(t[i])];
        assert reports == before + step;
        ghost var r0 := EvaluateFrom(t, oversubscribed, i);
        ghost var r1 := EvaluateFrom(slots[..], oversubscribed, i + 1);
        assert r0.slots == r1.slots && r0.trapped == r1.trapped;
        assert r0.reports == step + r1.reports;
        SeqAppendAssoc(before, step, r1.reports);
        i := i + 1;
      }
    }
  }
}
