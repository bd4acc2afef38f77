/** The per-interface traffic counter of the packet analyser
    (app_packet_analyser/src/analysis_utils.c): two interface records, a
    per-frame update that counts the frame and its length against the
    interface it arrived on, and a once-a-second check that moves each
    window's counts into the running totals.

    The window counters are 32-bit and the totals 64-bit, each with C's
    unsigned wrap-around. The hardware lock only makes each guarded block
    atomic; the model runs the blocks one after another. */
module InterfaceTable {
  import opened Common
  import opened Pcapng

  const NUM_INTERFACES: nat := 2

  /** `interface_state_t`. */
  datatype InterfaceState = InterfaceState(
    totalByteCount: u64,
    totalPacketCount: u64,
    interfaceId: u32,
    byteCount: u32,
    byteSnapshot: u32,
    packetCount: u32,
    packetSnapshot: u32)

  /** A record of the zero-initialised global table. */
  const ZERO_STATE: InterfaceState := InterfaceState(0, 0, 0, 0, 0, 0, 0)

  // ---------------------------------------------------------------------
  // analyse_init

  /** `analyse_init`: record `i` is labelled with interface number `i`;
      nothing else changes. */
  function Init(s: seq<InterfaceState>): (r: seq<InterfaceState>)
    requires |s| == NUM_INTERFACES
    ensures |r| == |s|
    ensures forall j :: 0 <= j < |s| ==> r[j].interfaceId == j
    ensures forall j :: 0 <= j < |s| ==> r[j] == s[j].(interfaceId := r[j].interfaceId)
  {
    seq(|s|, j requires 0 <= j < |s| => s[j].(interfaceId := j))
  }

  // ---------------------------------------------------------------------
  // analyse_buffer

  /** The guard as the source writes it: the unsigned interface id is first
      stored into a C `int`, so an id with the top bit set reads as negative
      and passes the comparison. */
  predicate AsWrittenAdmits(interfaceId: u32)
  {
    ToInt32(interfaceId) < NUM_INTERFACES
  }

  /** The guard the comparison is there to provide: the id indexes the
      table. */
  predicate Admits(interfaceId: u32)
  {
    interfaceId < NUM_INTERFACES
  }

  /** The as-written guard admits exactly the valid indexes and every id of
      2^31 or more; those reach the table as negative indexes. */
  lemma AsWrittenAdmitsNegativeIndexes(interfaceId: u32)
    ensures AsWrittenAdmits(interfaceId) <==> Admits(interfaceId) || interfaceId >= TWO_31
    ensures AsWrittenAdmits(interfaceId) && !Admits(interfaceId) ==> ToInt32(interfaceId) < 0
  {
  }

  /** The smallest id that slips through the as-written guard: it writes
      2^31 records before the table. */
  lemma AsWrittenGuardCounterexample()
    ensures AsWrittenAdmits(0x8000_0000) && !Admits(0x8000_0000)
    ensures ToInt32(0x8000_0000) == -TWO_31
  {
  }

  /** One frame counted against one interface record. */
  function Counted(st: InterfaceState, packetLen: u32): InterfaceState
  {
    st.(packetCount := Wrap32(st.packetCount + 1), byteCount := Wrap32(st.byteCount + packetLen))
  }

  /** `analyse_buffer` with the corrected guard: the frame's interface
      counts one more packet and `packet_len` more bytes, the other
      interface is untouched, and an id outside the table stops the device
      (`None`). */
  function Analyse(s: seq<InterfaceState>, interfaceId: u32, packetLen: u32): (r: Option<seq<InterfaceState>>)
    requires |s| == NUM_INTERFACES
    ensures r.Some? <==> Admits(interfaceId)
    ensures r.Some? ==> |r.value| == |s|
    ensures r.Some? ==> forall j :: 0 <= j < |s| && j != interfaceId ==> r.value[j] == s[j]
    ensures r.Some? ==>
      && r.value[interfaceId].packetCount == Wrap32(s[interfaceId].packetCount + 1)
      && r.value[interfaceId].byteCount == Wrap32(s[interfaceId].byteCount + packetLen)
      && r.value[interfaceId] == s[interfaceId].(packetCount := r.value[interfaceId].packetCount,
                                                 byteCount := r.value[interfaceId].byteCount)
  {
    if interfaceId < NUM_INTERFACES then Some(s[interfaceId := Counted(s[interfaceId], packetLen)])
    else None
  }

  // ---------------------------------------------------------------------
  // check_counts

  /** The first pass on one record: the window's counts become the
      snapshots, are added to the totals, and restart from zero. */
  function Snapshot(st: InterfaceState): InterfaceState
  {
    st.(byteSnapshot := st.byteCount,
        totalByteCount := Wrap64(st.totalByteCount + st.byteCount),
        byteCount := 0,
        packetSnapshot := st.packetCount,
        totalPacketCount := Wrap64(st.totalPacketCount + st.packetCount),
        packetCount := 0)
  }

  /** `check_counts`: every record snapshotted; the records are then sent as
      they are. */
  function WindowCheck(s: seq<InterfaceState>): (r: seq<InterfaceState>)
    ensures |r| == |s|
    ensures forall j :: 0 <= j < |s| ==> r[j] == Snapshot(s[j])
  {
    seq(|s|, j requires 0 <= j < |s| => Snapshot(s[j]))
  }

  /** A check loses nothing of a window that did not wrap: the new total is
      the old total plus the window's count, the window restarts at zero,
      and the interface keeps its number. */
  lemma CheckConservesCounts(s: seq<InterfaceState>, i: nat)
    requires i < |s|
    requires s[i].totalByteCount + s[i].byteCount < TWO_64
    requires s[i].totalPacketCount + s[i].packetCount < TWO_64
    ensures WindowCheck(s)[i].totalByteCount == s[i].totalByteCount + s[i].byteCount
    ensures WindowCheck(s)[i].totalPacketCount == s[i].totalPacketCount + s[i].packetCount
    ensures WindowCheck(s)[i].byteCount == 0 && WindowCheck(s)[i].packetCount == 0
    ensures WindowCheck(s)[i].byteSnapshot == s[i].byteCount && WindowCheck(s)[i].packetSnapshot == s[i].packetCount
    ensures WindowCheck(s)[i].interfaceId == s[i].interfaceId
  {
  }

  // ---------------------------------------------------------------------
  // Runs of frames and checks

  datatype Event =
    | Frame(interfaceId: u32, packetLen: u32)  // `analyse_buffer` on a captured EPB
    | Check                                    // `check_counts`

  /** The table after a run of events, or `None` when a frame names an
      interface outside the table. */
  function Run(s: seq<InterfaceState>, events: seq<Event>): (r: Option<seq<InterfaceState>>)
    requires |s| == NUM_INTERFACES
    ensures r.Some? ==> |r.value| == |s|
    decreases |events|
  {
    if events == [] then Some(s)
    else
      var next := match events[0]
        case Frame(id, len) => Analyse(s, id, len)
        case Check => Some(WindowCheck(s));
      match next
      case None => None
      case Some(t) => Run(t, events[1..])
  }

  /** The events as one interface record sees them. */
  function RecordAfter(st: InterfaceState, i: nat, events: seq<Event>): InterfaceState
    decreases |events|
  {
    if events == [] then st
    else
      var next := match events[0]
        case Frame(id, len) => if id == i then Counted(st, len) else st
        case Check => Snapshot(st);
      RecordAfter(next, i, events[1..])
  }

  /** Every record of a run evolves as if it were alone. */
  lemma {:induction false} RunIsPerRecord(s: seq<InterfaceState>, events: seq<Event>, i: nat)
    requires |s| == NUM_INTERFACES && i < NUM_INTERFACES
    requires Run(s, events).Some?
    ensures Run(s, events).value[i] == RecordAfter(s[i], i, events)
    decreases |events|
  {
    if events != [] {
      var t := match events[0]
        case Frame(id, len) => Analyse(s, id, len).value
        case Check => WindowCheck(s);
      RunIsPerRecord(t, events[1..], i);
    }
  }

  /** The run is refused exactly when some frame names an interface outside
      the table. */
  lemma {:induction false} RunFailsOnlyOnBadInterface(s: seq<InterfaceState>, events: seq<Event>)
    requires |s| == NUM_INTERFACES
    ensures Run(s, events).None? <==> exists k :: 0 <= k < |events| && events[k].Frame? && !Admits(events[k].interfaceId)
    decreases |events|
  {
    if events != [] {
      var t := match events[0]
        case Frame(id, len) => Analyse(s, id, len)
        case Check => Some(WindowCheck(s));
      if t.Some? {
        RunFailsOnlyOnBadInterface(t.value, events[1..]);
        if exists k :: 0 <= k < |events| && events[k].Frame? && !Admits(events[k].interfaceId) {
          var k :| 0 <= k < |events| && events[k].Frame? && !Admits(events[k].interfaceId);
          assert k != 0;
          assert events[1..][k - 1] == events[k];
        }
        if exists k :: 0 <= k < |events[1..]| && events[1..][k].Frame? && !Admits(events[1..][k].interfaceId) {
          var k :| 0 <= k < |events[1..]| && events[1..][k].Frame? && !Admits(events[1..][k].interfaceId);
          assert events[k + 1] == events[1..][k];
        }
      }
    }
  }

  /** The interface numbers are never changed by frames or checks. */
  lemma {:induction false} RecordKeepsInterfaceId(st: InterfaceState, i: nat, events: seq<Event>)
    ensures RecordAfter(st, i, events).interfaceId == st.interfaceId
    decreases |events|
  {
    if events != [] {
      var next := match events[0]
        case Frame(id, len) => if id == i then Counted(st, len) else st
        case Check => Snapshot(st);
      RecordKeepsInterfaceId(next, i, events[1..]);
    }
  }

  /** The bytes and packets of interface `i`'s frames in a run. */
  function BytesOf(events: seq<Event>, i: nat): nat
    decreases |events|
  {
    if events == [] then 0
    else (if events[0].Frame? && events[0].interfaceId == i then events[0].packetLen else 0) + BytesOf(events[1..], i)
  }

  function PacketsOf(events: seq<Event>, i: nat): nat
    decreases |events|
  {
    if events == [] then 0
    else (if events[0].Frame? && events[0].interfaceId == i then 1 else 0) + PacketsOf(events[1..], i)
  }

  /** What a record has accounted for: its totals plus its open window,
      modulo 2^32. */
  function AccountedBytes(st: InterfaceState): u32
  {
    Wrap32(st.totalByteCount + st.byteCount)
  }

  function AccountedPackets(st: InterfaceState): u32
  {
    Wrap32(st.totalPacketCount + st.packetCount)
  }

  /** Conservation over any number of windows: every byte of the
      interface's frames is accounted for, in the open window or in the
      totals, modulo 2^32 (the width of the window counters). */
  lemma {:induction false} RecordConservesBytes(st: InterfaceState, i: nat, events: seq<Event>)
    ensures AccountedBytes(RecordAfter(st, i, events)) == Wrap32(AccountedBytes(st) + BytesOf(events, i))
    decreases |events|
  {
    if events != [] {
      var next := match events[0]
        case Frame(id, len) => if id == i then Counted(st, len) else st
        case Check => Snapshot(st);
      var db := if events[0].Frame? && events[0].interfaceId == i then events[0].packetLen else 0;
      StepBytes(st, next, db, events[0], i);
      RecordConservesBytes(next, i, events[1..]);
      WrapChain(AccountedBytes(st), db, AccountedBytes(next), BytesOf(events[1..], i),
                AccountedBytes(RecordAfter(st, i, events)), BytesOf(events, i));
    }
  }

  /** The same for packets. */
  lemma {:induction false} RecordConservesPackets(st: InterfaceState, i: nat, events: seq<Event>)
    ensures AccountedPackets(RecordAfter(st, i, events)) == Wrap32(AccountedPackets(st) + PacketsOf(events, i))
    decreases |events|
  {
    if events != [] {
      var next := match events[0]
        case Frame(id, len) => if id == i then Counted(st, len) else st
        case Check => Snapshot(st);
      var dp := if events[0].Frame? && events[0].interfaceId == i then 1 else 0;
      StepPackets(st, next, dp, events[0], i);
      RecordConservesPackets(next, i, events[1..]);
      WrapChain(AccountedPackets(st), dp, AccountedPackets(next), PacketsOf(events[1..], i),
                AccountedPackets(RecordAfter(st, i, events)), PacketsOf(events, i));
    }
  }

  /** One event moves the accounted bytes by what the event brings. */
  lemma StepBytes(st: InterfaceState, next: InterfaceState, db: nat, e: Event, i: nat)
    requires next == match e
      case Frame(id, len) => if id == i then Counted(st, len) else st
      case Check => Snapshot(st)
    requires db == if e.Frame? && e.interfaceId == i then e.packetLen else 0
    ensures AccountedBytes(next) == Wrap32(AccountedBytes(st) + db)
  {
    match e
    case Check =>
      Wrap64Then32(st.totalByteCount + st.byteCount);
    case Frame(id, len) =>
      if id == i {
        AddWrapped(st.totalByteCount, st.byteCount, len, next.byteCount);
      }
  }

  /** One event moves the accounted packets by what the event brings. */
  lemma StepPackets(st: InterfaceState, next: InterfaceState, dp: nat, e: Event, i: nat)
    requires next == match e
      case Frame(id, len) => if id == i then Counted(st, len) else st
      case Check => Snapshot(st)
    requires dp == if e.Frame? && e.interfaceId == i then 1 else 0
    ensures AccountedPackets(next) == Wrap32(AccountedPackets(st) + dp)
  {
    match e
    case Check =>
      Wrap64Then32(st.totalPacketCount + st.packetCount);
    case Frame(id, len) =>
      if id == i {
        AddWrapped(st.totalPacketCount, st.packetCount, 1, next.packetCount);
      }
  }

  /** 2^32 divides 2^64, so wrapping to 64 bits first keeps the low 32. */
  lemma Wrap64Then32(x: int)
    ensures Wrap32(Wrap64(x)) == Wrap32(x)
  {
    var q := x / TWO_64;
    assert x == q * TWO_64 + Wrap64(x);
    assert q * TWO_64 == (q * TWO_32) * TWO_32;
  }

  /** A window counter wrapping at 2^32 keeps the accounted sum modulo
      2^32. */
  lemma AddWrapped(total: int, c: u32, d: nat, c1: u32)
    requires c1 == Wrap32(c + d)
    ensures Wrap32(total + c1) == Wrap32(Wrap32(total + c) + d)
  {
    var q := (c + d) / TWO_32;
    assert c + d == q * TWO_32 + c1;
  }

  /** Within one window whose counts do not wrap, the check that closes it
      adds exactly the window's frames to the totals. */
  lemma WindowAddsItsFrames(st: InterfaceState, i: nat, frames: seq<Event>)
    requires forall k :: 0 <= k < |frames| ==> frames[k].Frame?
    requires st.byteCount == 0 && st.packetCount == 0
    requires BytesOf(frames, i) < TWO_32 && PacketsOf(frames, i) < TWO_32
    requires st.totalByteCount + BytesOf(frames, i) < TWO_64
    requires st.totalPacketCount + PacketsOf(frames, i) < TWO_64
    ensures RecordAfter(st, i, frames + [Check]).totalByteCount == st.totalByteCount + BytesOf(frames, i)
    ensures RecordAfter(st, i, frames + [Check]).totalPacketCount == st.totalPacketCount + PacketsOf(frames, i)
    ensures RecordAfter(st, i, frames + [Check]).byteSnapshot == BytesOf(frames, i)
  {
    WindowCounts(st, i, frames);
    RecordAfterAppend(st, i, frames, [Check]);
  }

  /** Frames alone only grow the open window. */
  lemma {:induction false} WindowCounts(st: InterfaceState, i: nat, frames: seq<Event>)
    requires forall k :: 0 <= k < |frames| ==> frames[k].Frame?
    requires st.byteCount + BytesOf(frames, i) < TWO_32 && st.packetCount + PacketsOf(frames, i) < TWO_32
    ensures RecordAfter(st, i, frames) == st.(byteCount := st.byteCount + BytesOf(frames, i),
                                               packetCount := st.packetCount + PacketsOf(frames, i))
    decreases |frames|
  {
    if frames != [] {
      var next := if frames[0].interfaceId == i then Counted(st, frames[0].packetLen) else st;
      assert forall k :: 0 <= k < |frames[1..]| ==> frames[1..][k] == frames[k + 1];
      WindowCounts(next, i, frames[1..]);
    }
  }

  /** A run split in two is the second part after the first. */
  lemma {:induction false} RecordAfterAppend(st: InterfaceState, i: nat, a: seq<Event>, b: seq<Event>)
    ensures RecordAfter(st, i, a + b) == RecordAfter(RecordAfter(st, i, a), i, b)
    decreases |a|
  {
    if a != [] {
      var next := match a[0]
        case Frame(id, len) => if id == i then Counted(st, len) else st
        case Check => Snapshot(st);
      assert (a + b)[0] == a[0];
      assert (a + b)[1..] == a[1..] + b;
      RecordAfterAppend(next, i, a[1..], b);
    } else {
      assert a + b == b;
    }
  }

  // ---------------------------------------------------------------------
  // The analyser's state

  class PacketAnalyser {
    /** `interface_state`. */
    var interfaces: array<InterfaceState>

    ghost predicate Valid()
      reads this
    {
      interfaces.Length == NUM_INTERFACES
    }

    /** The zero-initialised global table. */
    constructor ()
      ensures Valid() && fresh(interfaces)
      ensures interfaces[..] == [ZERO_STATE, ZERO_STATE]
    {
      var a := new InterfaceState[NUM_INTERFACES](_ => ZERO_STATE);
      assert a[..] == [a[0], a[1]];
      interfaces := a;
    }

    /** `analyse_init`. */
    method AnalyseInit()
      requires Valid()
      modifies interfaces
      ensures Valid()
      ensures interfaces[..] == Init(old(interfaces[..]))
    {
      ghost var s := interfaces[..];
      for i := 0 to NUM_INTERFACES
        invariant forall j :: 0 <= j < i ==> interfaces[j] == s[j].(interfaceId := j as u32)
        invariant forall j :: i <= j < NUM_INTERFACES ==> interfaces[j] == s[j]
      {
        interfaces[i] := interfaces[i].(interfaceId := i as u32);
      }
      assert interfaces[..] == Init(s);
    }

    /** `analyse_buffer` with the corrected guard; `false` is the `xassert`
        that stops the device, and then nothing has changed. */
    method AnalyseBuffer(epb: EnhancedPacketBlock) returns (accepted: bool)
      requires Valid()
      modifies interfaces
      ensures Valid()
      ensures accepted <==> Admits(epb.interfaceId)
      ensures accepted ==> interfaces[..] == Analyse(old(interfaces[..]), epb.interfaceId, epb.packetLen).value
      ensures !accepted ==> interfaces[..] == old(interfaces[..])
    {
      var interfaceId := epb.interfaceId;
      if interfaceId >= NUM_INTERFACES {
        return false;
      }
      var st := interfaces[interfaceId];
      interfaces[interfaceId] := st.(packetCount := Wrap32(st.packetCount + 1));
      interfaces[interfaceId] := interfaces[interfaceId].(byteCount := Wrap32(st.byteCount + epb.packetLen));
      accepted := true;
    }

    /** `check_counts`: the records after the first pass are what the
        second pass sends. */
    method CheckCounts() returns (sent: seq<InterfaceState>)
      requires Valid()
      modifies interfaces
      ensures Valid()
      ensures interfaces[..] == WindowCheck(old(interfaces[..]))
      ensures sent == interfaces[..]
    {
      ghost var s := interfaces[..];
      for i := 0 to NUM_INTERFACES
        invariant forall j :: 0 <= j < i ==> interfaces[j] == Snapshot(s[j])
        invariant forall j :: i <= j < NUM_INTERFACES ==> interfaces[j] == s[j]
      {
        var st := interfaces[i];
        st := st.(byteSnapshot := st.byteCount);
        st := st.(totalByteCount := Wrap64(st.totalByteCount + st.byteCount));
        st := st.(byteCount := 0);
        st := st.(packetSnapshot := st.packetCount);
        st := st.(totalPacketCount := Wrap64(st.totalPacketCount + st.packetCount));
        st := st.(packetCount := 0);
        interfaces[i] := st;
      }
      sent := [];
      for i := 0 to NUM_INTERFACES
        invariant sent == interfaces[..i]
      {
        sent := sent + [interfaces[i]];
      }
      assert interfaces[..NUM_INTERFACES] == interfaces[..];
    }
  }
}
