/** The simpler AVB stream counter of app_avb_tester/src/analyser.c: the
    same frame filter and slot table, but counts are cumulative. Each check
    reports, for every known stream, the packets seen since the previous
    check (the difference of two running totals, modulo 2^32), and removes
    streams that saw none. */
module CumulativeTable {
  import opened Common
  import opened Pcapng
  import opened AvtpFrame

  const MAX_NUM_STREAMS: nat := 16

  /** `stream_count_t`. */
  datatype StreamCount = StreamCount(id: StreamId, count: u32, lastCount: u32, snapshot: u32)

  const EMPTY_COUNT: StreamCount := StreamCount(NO_STREAM, 0, 0, 0)

  function IdsOf(s: seq<StreamCount>): (r: seq<StreamId>)
    ensures |r| == |s| && forall j :: 0 <= j < |s| ==> r[j] == s[j].id
  {
    seq(|s|, j requires 0 <= j < |s| => s[j].id)
  }

  predicate UniqueIds(s: seq<StreamCount>)
  {
    forall i, j :: 0 <= i < j < |s| && !IsZero(s[i].id) ==> s[i].id != s[j].id
  }

  datatype IncrementOutcome = Counted(index: nat) | Added(index: nat) | NoFreeSlot

  datatype IncrementResult = IncrementResult(slots: seq<StreamCount>, outcome: IncrementOutcome)

  /** `increment_count`: a known stream's running total goes up by one; an
      unknown stream takes the last free slot with total 1 and previous
      total 0 (its `snapshot` keeps the old occupant's value); with no free
      slot the device halts and the table is unchanged. */
  function Increment(s: seq<StreamCount>, id: StreamId): (r: IncrementResult)
    requires !IsZero(id)
    ensures |r.slots| == |s|
    ensures r.outcome.Counted? <==> id in IdsOf(s)
    ensures r.outcome.Counted? ==>
      var i := r.outcome.index;
      && i < |s| && s[i].id == id && (forall j :: 0 <= j < i ==> s[j].id != id)
      && r.slots == s[i := s[i].(count := Wrap32(s[i].count + 1))]
    ensures r.outcome.Added? ==>
      var i := r.outcome.index;
      && i < |s| && IsZero(s[i].id) && (forall j :: i < j < |s| ==> !IsZero(s[j].id))
      && r.slots == s[i := s[i].(id := id, count := 1, lastCount := 0)]
    ensures r.outcome.NoFreeSlot? <==> id !in IdsOf(s) && forall j :: 0 <= j < |s| ==> !IsZero(s[j].id)
    ensures r.outcome.NoFreeSlot? ==> r.slots == s
  {
    var ids := IdsOf(s);
    match FirstMatch(ids, id)
    case Some(i) =>
      assert forall j :: 0 <= j < i ==> ids[..i][j] == s[j].id;
      IncrementResult(s[i := s[i].(count := Wrap32(s[i].count + 1))], Counted(i))
    case None =>
      match LastFree(ids, |s|)
      case Some(f) => IncrementResult(s[f := s[f].(id := id, count := 1, lastCount := 0)], Added(f))
      case None => IncrementResult(s, NoFreeSlot)
  }

  lemma IncrementKeepsIdsUnique(s: seq<StreamCount>, id: StreamId)
    requires !IsZero(id) && UniqueIds(s)
    ensures UniqueIds(Increment(s, id).slots)
  {
    var r := Increment(s, id);
    if r.outcome.Added? {
      forall j | 0 <= j < |s| && j != r.outcome.index
        ensures s[j].id != id
      {
        assert IdsOf(s)[j] == s[j].id;
      }
    }
  }

  function IncrementAll(s: seq<StreamCount>, frames: seq<LiveStreamId>): (r: seq<StreamCount>)
    ensures |r| == |s|
    decreases |frames|
  {
    if frames == [] then s
    else IncrementAll(Increment(s, frames[0]).slots, frames[1..])
  }

  function Occurrences(frames: seq<LiveStreamId>, id: StreamId): nat
  {
    if frames == [] then 0
    else (if frames[0] == id then 1 else 0) + Occurrences(frames[1..], id)
  }

  /** One frame leaves every other stream's slot alone and counts one more
      for its own stream, and keeps the ids unique. */
  lemma SlotAfterIncrement(s: seq<StreamCount>, id: StreamId, i: nat)
    requires !IsZero(id) && UniqueIds(s) && i < |s| && !IsZero(s[i].id)
    ensures UniqueIds(Increment(s, id).slots)
    ensures Increment(s, id).slots[i] == if id == s[i].id then s[i].(count := Wrap32(s[i].count + 1)) else s[i]
  {
    IncrementKeepsIdsUnique(s, id);
    if id == s[i].id {
      assert IdsOf(s)[i] == id;
    }
  }

  /** The frames as one slot sees them: each frame of its own stream adds
      one to its total. */
  function SlotAfter(st: StreamCount, frames: seq<LiveStreamId>): StreamCount
    decreases |frames|
  {
    if frames == [] then st
    else SlotAfter(if frames[0] == st.id then st.(count := Wrap32(st.count + 1)) else st, frames[1..])
  }

  /** An occupied slot evolves under a frame sequence as if it were alone. */
  lemma {:induction false} SlotFollowsFrames(s: seq<StreamCount>, frames: seq<LiveStreamId>, i: nat)
    requires UniqueIds(s) && i < |s| && !IsZero(s[i].id)
    ensures IncrementAll(s, frames)[i] == SlotAfter(s[i], frames)
    decreases |frames|
  {
    if frames != [] {
      SlotAfterIncrement(s, frames[0], i);
      SlotFollowsFrames(Increment(s, frames[0]).slots, frames[1..], i);
    }
  }

  /** While a stream keeps its slot, its running total grows by the number
      of its frames, modulo 2^32, and its previous total stays put. */
  lemma {:induction false} SlotAfterCounts(st: StreamCount, frames: seq<LiveStreamId>)
    ensures SlotAfter(st, frames).id == st.id && SlotAfter(st, frames).lastCount == st.lastCount
    ensures SlotAfter(st, frames).count == Wrap32(st.count + Occurrences(frames, st.id))
    decreases |frames|
  {
    if frames != [] {
      var d := if frames[0] == st.id then 1 else 0;
      var next := if frames[0] == st.id then st.(count := Wrap32(st.count + 1)) else st;
      SlotAfterCounts(next, frames[1..]);
      WrapChain(st.count, d, next.count, Occurrences(frames[1..], st.id), SlotAfter(st, frames).count, Occurrences(frames, st.id));
    }
  }

  // ---------------------------------------------------------------------
  // check_counts

  /** The first pass: the packets since the previous check, and the running
      total becomes the new reference. */
  function Snapshot(st: StreamCount): StreamCount
  {
    st.(snapshot := Wrap32(st.count - st.lastCount), lastCount := st.count)
  }

  function Pass1(s: seq<StreamCount>): (r: seq<StreamCount>)
    ensures |r| == |s|
    ensures forall j :: 0 <= j < |s| ==>
      && r[j].id == s[j].id && r[j].count == s[j].count && r[j].lastCount == s[j].count
      && r[j].snapshot == Wrap32(s[j].count - s[j].lastCount)
  {
    seq(|s|, j requires 0 <= j < |s| => Snapshot(s[j]))
  }

  /** What the second pass prints. */
  datatype CountReport =
    | Removed(index: nat, id: StreamId)
    | Packets(index: nat, id: StreamId, packets: u32)

  /** The report for one occupied slot after the first pass: removal when it
      saw no packets, its packet count otherwise. */
  function SlotReport(st: StreamCount, i: nat): Option<CountReport>
  {
    if IsZero(st.id) then None
    else if st.snapshot == 0 then Some(Removed(i, st.id))
    else Some(Packets(i, st.id, st.snapshot))
  }

  function ReportList(st: StreamCount, i: nat): seq<CountReport>
  {
    match SlotReport(st, i)
    case None => []
    case Some(rep) => [rep]
  }

  /** The reports for the first `n` slots, in slot order. */
  function ReportsUpTo(p: seq<StreamCount>, n: nat): seq<CountReport>
    requires n <= |p|
  {
    if n == 0 then [] else ReportsUpTo(p, n - 1) + ReportList(p[n - 1], n - 1)
  }

  /** The second pass on one slot: a known stream that saw no packets
      since the previous check loses its slot; nothing else changes. */
  function Evicted(st: StreamCount): (r: StreamCount)
    ensures IsZero(r.id) <==> IsZero(st.id) || st.snapshot == 0
    ensures !IsZero(r.id) ==> r == st
    ensures r.count == st.count && r.lastCount == st.lastCount && r.snapshot == st.snapshot
  {
    if !IsZero(st.id) && st.snapshot == 0 then st.(id := NO_STREAM) else st
  }

  datatype CheckResult = CheckResult(slots: seq<StreamCount>, reports: seq<CountReport>)

  /** `check_counts`: every slot keeps its running total, which becomes the
      reference for the next check, and records the packets since the
      previous check; a known stream that saw none is removed, every other
      slot keeps its stream. */
  function WindowCheck(s: seq<StreamCount>): (r: CheckResult)
    ensures |r.slots| == |s|
    ensures forall j :: 0 <= j < |s| ==>
      && r.slots[j].count == s[j].count
      && r.slots[j].lastCount == s[j].count
      && r.slots[j].snapshot == Wrap32(s[j].count - s[j].lastCount)
    ensures forall j :: 0 <= j < |s| ==>
      r.slots[j].id == if !IsZero(s[j].id) && s[j].count == s[j].lastCount then NO_STREAM else s[j].id
  {
    var p := Pass1(s);
    CheckResult(seq(|s|, j requires 0 <= j < |s| => Evicted(p[j])), ReportsUpTo(p, |s|))
  }

  /** Every report is the one the slot's first-pass state gives, and every
      occupied slot is reported exactly where `SlotReport` says. */
  lemma {:induction false} ReportsUpToExact(p: seq<StreamCount>, n: nat)
    requires n <= |p|
    ensures forall rep :: rep in ReportsUpTo(p, n) ==> rep.index < n && SlotReport(p[rep.index], rep.index) == Some(rep)
    ensures forall j :: 0 <= j < n && SlotReport(p[j], j).Some? ==> SlotReport(p[j], j).value in ReportsUpTo(p, n)
  {
    if n > 0 {
      ReportsUpToExact(p, n - 1);
      forall rep | rep in ReportList(p[n - 1], n - 1)
        ensures rep.index == n - 1
      {
        match rep
        case Removed(i, _) =>
        case Packets(i, _, _) =>
      }
    }
  }

  /** A stream that saw no packets since the previous check is removed and
      reported as removed; every other known stream is reported with the
      packets it saw since then. */
  lemma WindowCheckReports(s: seq<StreamCount>, i: nat)
    requires i < |s| && !IsZero(s[i].id)
    ensures var r := WindowCheck(s);
      if s[i].count == s[i].lastCount then
        IsZero(r.slots[i].id) && Removed(i, s[i].id) in r.reports
      else
        r.slots[i].id == s[i].id && Packets(i, s[i].id, Wrap32(s[i].count - s[i].lastCount)) in r.reports
  {
    var p := Pass1(s);
    assert p[i] == Snapshot(s[i]);
    ReportPresent(p, |s|, i);
  }

  /** The report of an occupied slot is among the reports of any prefix of
      slots that contains it. */
  lemma {:induction false} ReportPresent(p: seq<StreamCount>, n: nat, j: nat)
    requires j < n <= |p| && SlotReport(p[j], j).Some?
    ensures SlotReport(p[j], j).value in ReportsUpTo(p, n)
    decreases n
  {
    if j < n - 1 {
      ReportPresent(p, n - 1, j);
    }
  }

  lemma WindowCheckKeepsIdsUnique(s: seq<StreamCount>)
    requires UniqueIds(s)
    ensures UniqueIds(WindowCheck(s).slots)
  {
  }

  /** One slot over a window: the check after the frames reports the number
      of the slot's own frames, modulo 2^32. */
  lemma SlotWindow(st: StreamCount, frames: seq<LiveStreamId>)
    requires st.lastCount == st.count
    ensures Snapshot(SlotAfter(st, frames)).snapshot == Wrap32(Occurrences(frames, st.id))
  {
    SlotAfterCounts(st, frames);
    var m := Occurrences(frames, st.id);
    WindowDifference(st.count, m, SlotAfter(st, frames).count, SlotAfter(st, frames).lastCount);
  }

  /** Integration of the two operations: after a check, the next check
      reports for a stream that kept its slot exactly the number of its
      frames in between, modulo 2^32. */
  lemma NextWindowIsFramesSeen(s: seq<StreamCount>, frames: seq<LiveStreamId>, i: nat)
    requires UniqueIds(s) && i < |s|
    requires !IsZero(WindowCheck(s).slots[i].id)
    ensures var between := IncrementAll(WindowCheck(s).slots, frames);
      Pass1(between)[i].snapshot == Wrap32(Occurrences(frames, s[i].id))
  {
    var after := WindowCheck(s).slots;
    WindowCheckKeepsIdsUnique(s);
    SlotFollowsFrames(after, frames, i);
    assert after[i].id == s[i].id;
    SlotWindow(after[i], frames);
  }

  /** The difference of two running totals, both modulo 2^32, is the
      number of increments between them, modulo 2^32. */
  lemma WindowDifference(c: u32, m: nat, count: u32, last: u32)
    requires count == Wrap32(c + m) && last == c
    ensures Wrap32(count - last) == Wrap32(m)
  {
  }

  class CumulativeAnalyser {
    /** `stream_counts`. */
    var slots: array<StreamCount>

    ghost predicate Valid()
      reads this, slots
    {
      slots.Length == MAX_NUM_STREAMS && UniqueIds(slots[..])
    }

    constructor ()
      ensures Valid() && fresh(slots)
      ensures forall j :: 0 <= j < MAX_NUM_STREAMS ==> slots[j] == EMPTY_COUNT
    {
      slots := new StreamCount[MAX_NUM_STREAMS](_ => EMPTY_COUNT);
    }

    /** `increment_count`. */
    method IncrementCount(id: StreamId) returns (outcome: IncrementOutcome)
      requires Valid() && !IsZero(id)
      modifies slots
      ensures Valid()
      ensures slots[..] == Increment(old(slots[..]), id).slots
      ensures outcome == Increment(old(slots[..]), id).outcome
    {
      ghost var s := slots[..];
      var found, freeIndex := FindSlot(id);
      IncrementKeepsIdsUnique(s, id);
      if found.Some? {
        var i := found.value;
        slots[i] := slots[i].(count := Wrap32(slots[i].count + 1));
        outcome := Counted(i);
      } else if freeIndex != MAX_NUM_STREAMS {
        slots[freeIndex] := slots[freeIndex].(id := id, count := 1, lastCount := 0);
        outcome := Added(freeIndex);
      } else {
        outcome := NoFreeSlot;
      }
    }

    /** The search loop of `increment_count`: the first slot that holds the
        stream, and, when none does, the last free slot (`MAX_NUM_STREAMS`
        when there is none). */
    method FindSlot(id: StreamId) returns (found: Option<nat>, freeIndex: nat)
      requires slots.Length == MAX_NUM_STREAMS
      ensures found == FirstMatch(IdsOf(slots[..]), id)
      ensures found.None? ==>
        freeIndex == match LastFree(IdsOf(slots[..]), MAX_NUM_STREAMS) case None => MAX_NUM_STREAMS case Some(f) => f
    {
      ghost var ids := IdsOf(slots[..]);
      freeIndex := MAX_NUM_STREAMS;
      var i := 0;
      while i < MAX_NUM_STREAMS
        invariant 0 <= i <= MAX_NUM_STREAMS
        invariant forall j :: 0 <= j < i ==> ids[j] != id
        invariant freeIndex == match LastFree(ids, i) case None => MAX_NUM_STREAMS case Some(f) => f
      {
        if slots[i].id.low == id.low && slots[i].id.high == id.high {
          assert ids[i] == id;
          assert id !in ids[..i] by {
            forall j | 0 <= j < i ensures ids[..i][j] != id { }
          }
          assert FirstMatch(ids, id) == Some(i);
          return Some(i), freeIndex;
        } else if slots[i].id.low == 0 && slots[i].id.high == 0 {
          freeIndex := i;
        }
        i := i + 1;
      }
      assert id !in ids;
      found := None;
    }

    /** `analyse`. */
    method Analyse(epb: EnhancedPacketBlock) returns (outcome: Option<IncrementOutcome>)
      requires Valid() && |epb.data| >= FILTER_BYTES
      modifies slots
      ensures Valid()
      ensures outcome.None? <==> ClassifyPacket(epb).None?
      ensures ClassifyPacket(epb).None? ==> slots[..] == old(slots[..])
      ensures ClassifyPacket(epb).Some? ==>
        var r := Increment(old(slots[..]), ClassifyPacket(epb).value);
        slots[..] == r.slots && outcome == Some(r.outcome)
    {
      match ClassifyPacket(epb)
      case None =>
        outcome := None;
      case Some(id) =>
        var o := IncrementCount(id);
        outcome := Some(o);
    }

    /** `check_counts`. */
    method CheckCounts() returns (reports: seq<CountReport>)
      requires Valid()
      modifies slots
      ensures Valid()
      ensures slots[..] == WindowCheck(old(slots[..])).slots
      ensures reports == WindowCheck(old(slots[..])).reports
    {
      ghost var s := slots[..];
      SnapshotPass();
      ghost var p := slots[..];
      assert p == Pass1(s);
      reports := EvictPass();
      assert slots[..] == WindowCheck(s).slots;
      WindowCheckKeepsIdsUnique(s);
    }

    /** The first loop of `check_counts`: every slot's packets since the last
        check are saved and the count of the next window starts there. */
    method SnapshotPass()
      requires slots.Length == MAX_NUM_STREAMS
      modifies slots
      ensures forall j :: 0 <= j < MAX_NUM_STREAMS ==> slots[j] == Snapshot(old(slots[j]))
    {
      for i := 0 to MAX_NUM_STREAMS
        invariant forall j :: 0 <= j < i ==> slots[j] == Snapshot(old(slots[j]))
        invariant forall j :: i <= j < MAX_NUM_STREAMS ==> slots[j] == old(slots[j])
      {
        slots[i] := slots[i].(snapshot := Wrap32(slots[i].count - slots[i].lastCount));
        slots[i] := slots[i].(lastCount := slots[i].count);
      }
    }

    /** The second loop of `check_counts`: an occupied slot that saw no
        packets is removed, every other occupied slot reports its count. */
    method EvictPass() returns (reports: seq<CountReport>)
      requires slots.Length == MAX_NUM_STREAMS
      modifies slots
      ensures forall j :: 0 <= j < MAX_NUM_STREAMS ==> slots[j] == Evicted(old(slots[j]))
      ensures reports == ReportsUpTo(old(slots[..]), MAX_NUM_STREAMS)
    {
      ghost var p := slots[..];
      reports := [];
      for i := 0 to MAX_NUM_STREAMS
        invariant forall j :: 0 <= j < i ==> slots[j] == Evicted(p[j])
        invariant forall j :: i <= j < MAX_NUM_STREAMS ==> slots[j] == p[j]
        invariant reports == ReportsUpTo(p, i)
      {
        var st := slots[i];
        if !IsZero(st.id) {
          if st.snapshot == 0 {
            reports := reports + [Removed(i, st.id)];
            slots[i] := st.(id := NO_STREAM);
          } else {
            reports := reports + [Packets(i, st.id, st.snapshot)];
          }
        }
      }
    }
  }
}
