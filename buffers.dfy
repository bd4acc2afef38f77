/** The capture-buffer pool of module_pcapng (module_pcapng/src/buffers.h,
    module_pcapng/src/buffers.c): one flat arena of `BUFFER_COUNT` buffers,
    a stack of free buffer handles and a ring of used (handle, length)
    pairs waiting to be sent.

    On the 32-bit device a handle (`uintptr_t`) is the address of a buffer;
    here it is the buffer's byte offset in the arena `g_buffer`, which
    therefore starts at handle 0. Only the declarations of the stack and
    ring operations exist in the source, so their bodies are modelled as
    the bounded stack and bounded FIFO the declared layout describes. */
module Buffers {
  import opened Common
  import opened Pcapng

  /** `BUFFER_COUNT` of app_pcapng/src/pcapng_conf.h. */
  const BUFFER_COUNT: nat := 100
  /** Frame bytes a buffer has room for: a double VLAN-tagged frame. */
  const MAX_FRAME_BYTES: nat := 1524
  /** `MAX_BUFFER_SIZE`: the frame bytes plus the EPB record around them. */
  const MAX_BUFFER_SIZE: nat := MAX_FRAME_BYTES + PCAPNG_EPB_OVERHEAD_BYTES
  /** The size of `g_buffer`. */
  const ARENA_BYTES: nat := MAX_BUFFER_SIZE * BUFFER_COUNT
  /** The handle of `g_buffer` itself. */
  const ARENA_START: u32 := 0

  /** The handle of the `k`-th buffer of the arena. */
  function HandleOf(k: nat): (r: nat)
    requires k < BUFFER_COUNT
    ensures r % MAX_BUFFER_SIZE == 0
    ensures r + MAX_BUFFER_SIZE <= ARENA_BYTES
  {
    k * MAX_BUFFER_SIZE
  }

  /** The buffers of the arena are disjoint, and each holds an EPB record
      whose frame can be as long as `MAX_FRAME_BYTES`. */
  lemma BuffersDisjoint(j: nat, k: nat)
    requires j < k < BUFFER_COUNT
    ensures HandleOf(j) + MAX_BUFFER_SIZE <= HandleOf(k)
    ensures EPB_DATA_OFFSET + MAX_FRAME_BYTES <= MAX_BUFFER_SIZE
  {
  }

  // ---------------------------------------------------------------------
  // The free stack

  /** `buffers_free_t`. The free handles are `stack[..topIndex]`, the most
      recently released one on top. */
  class FreeStack {
    var topIndex: nat
    var stack: array<u32>

    ghost predicate Valid()
      reads this
    {
      stack.Length == BUFFER_COUNT && topIndex <= BUFFER_COUNT
    }

    ghost function Contents(): seq<u32>
      reads this, stack
      requires Valid()
    {
      stack[..topIndex]
    }

    /** A zero-initialised `buffers_free_t`. */
    constructor ()
      ensures Valid() && fresh(stack)
      ensures topIndex == 0 && Contents() == []
      ensures forall k :: 0 <= k < BUFFER_COUNT ==> stack[k] == 0
    {
      topIndex := 0;
      stack := new u32[BUFFER_COUNT](_ => 0);
    }

    /** `buffers_free_initialise_c`: the arena's start goes into
        `stack[0]`; `top_index` and the rest of the stack are not
        touched. */
    method InitialiseC()
      requires Valid()
      modifies stack
      ensures Valid()
      ensures stack[..] == old(stack[..])[0 := ARENA_START]
      ensures topIndex == old(topIndex)
    {
      stack[0] := ARENA_START;
    }

    /** `buffers_free_initialise`: every buffer of the arena is free. */
    method Initialise()
      requires Valid()
      modifies this, stack
      ensures Valid()
      ensures topIndex == BUFFER_COUNT
      ensures forall k :: 0 <= k < BUFFER_COUNT ==> Contents()[k] == HandleOf(k)
    {
      for i := 0 to BUFFER_COUNT
        invariant Valid() && stack == old(stack)
        invariant forall k :: 0 <= k < i ==> stack[k] == HandleOf(k)
      {
        stack[i] := HandleOf(i);
      }
      topIndex := BUFFER_COUNT;
    }

    /** `buffers_free_acquire`: the handle on top, or `None` when no buffer
        is free. */
    method Acquire() returns (buffer: Option<u32>)
      requires Valid()
      modifies this
      ensures Valid() && stack == old(stack)
      ensures old(topIndex) == 0 ==> buffer.None? && topIndex == 0
      ensures old(topIndex) > 0 ==>
        && buffer == Some(old(Contents())[old(topIndex) - 1])
        && Contents() == old(Contents())[..old(topIndex) - 1]
    {
      if topIndex == 0 {
        return None;
      }
      topIndex := topIndex - 1;
      buffer := Some(stack[topIndex]);
    }

    /** `buffers_free_release`: the handle goes back on top. The stack has
        room for `BUFFER_COUNT` handles. */
    method Release(buffer: u32)
      requires Valid() && topIndex < BUFFER_COUNT
      modifies this, stack
      ensures Valid() && stack == old(stack)
      ensures Contents() == old(Contents()) + [buffer]
    {
      stack[topIndex] := buffer;
      topIndex := topIndex + 1;
    }
  }

  // ---------------------------------------------------------------------
  // The used ring

  /** A used buffer and the number of bytes in it. */
  datatype Entry = Entry(buffer: u32, lengthInBytes: u32)

  /** One slot of the ring is always left empty, so that a full ring and an
      empty ring have different indexes. */
  const RING_CAPACITY: nat := BUFFER_COUNT - 1

  /** The number of entries between the take index and the add index. */
  function RingCount(tail: nat, head: nat): (r: nat)
    requires tail < BUFFER_COUNT && head < BUFFER_COUNT
    ensures r < BUFFER_COUNT
    ensures (tail + r) % BUFFER_COUNT == head
  {
    if tail <= head then head - tail else head + BUFFER_COUNT - tail
  }

  /** The entries of a ring from `tail` up to (not including) `head`. */
  function RingView(pointers: seq<u32>, lengths: seq<u32>, tail: nat, head: nat): (r: seq<Entry>)
    requires |pointers| == BUFFER_COUNT && |lengths| == BUFFER_COUNT
    requires tail < BUFFER_COUNT && head < BUFFER_COUNT
    ensures |r| == RingCount(tail, head)
    ensures forall k :: 0 <= k < |r| ==>
      r[k] == Entry(pointers[(tail + k) % BUFFER_COUNT], lengths[(tail + k) % BUFFER_COUNT])
  {
    seq(RingCount(tail, head), k requires 0 <= k < RingCount(tail, head) =>
      Entry(pointers[(tail + k) % BUFFER_COUNT], lengths[(tail + k) % BUFFER_COUNT]))
  }

  /** Advancing the take index by one slot moves every later position along
      by one. */
  lemma RingAdvance(tail: nat, k: nat)
    requires tail < BUFFER_COUNT
    ensures ((tail + 1) % BUFFER_COUNT + k) % BUFFER_COUNT == (tail + (k + 1)) % BUFFER_COUNT
  {
    if tail + 1 == BUFFER_COUNT {
      assert (tail + (k + 1)) % BUFFER_COUNT == k % BUFFER_COUNT;
    }
  }

  /** `buffers_used_t`: entries are added at `headIndex` and taken at
      `tailIndex`; the parallel arrays hold each entry's handle and
      length. */
  class UsedQueue {
    var tailIndex: nat
    var headIndex: nat
    var pointers: array<u32>
    var lengthInBytes: array<u32>

    ghost predicate Valid()
      reads this
    {
      && pointers.Length == BUFFER_COUNT && lengthInBytes.Length == BUFFER_COUNT
      && pointers != lengthInBytes
      && tailIndex < BUFFER_COUNT && headIndex < BUFFER_COUNT
    }

    /** The waiting entries, oldest first. */
    ghost function Contents(): (r: seq<Entry>)
      reads this, pointers, lengthInBytes
      requires Valid()
      ensures |r| == RingCount(tailIndex, headIndex)
    {
      RingView(pointers[..], lengthInBytes[..], tailIndex, headIndex)
    }

    /** `buffers_used_initialise`: an empty ring. */
    constructor ()
      ensures Valid() && fresh(pointers) && fresh(lengthInBytes)
      ensures Contents() == []
    {
      tailIndex := 0;
      headIndex := 0;
      pointers := new u32[BUFFER_COUNT](_ => 0);
      lengthInBytes := new u32[BUFFER_COUNT](_ => 0);
    }

    /** `buffers_used_full`: nonzero exactly when `add` must not be
        called. */
    method Full() returns (full: bool)
      requires Valid()
      ensures full <==> |Contents()| == RING_CAPACITY
    {
      full := (headIndex + 1) % BUFFER_COUNT == tailIndex;
    }

    /** `buffers_used_add`: the entry joins the end of the queue. */
    method Add(buffer: u32, length: u32)
      requires Valid() && |Contents()| < RING_CAPACITY
      modifies this, pointers, lengthInBytes
      ensures Valid() && pointers == old(pointers) && lengthInBytes == old(lengthInBytes)
      ensures Contents() == old(Contents()) + [Entry(buffer, length)]
    {
      ghost var before := Contents();
      ghost var n := |before|;
      pointers[headIndex] := buffer;
      lengthInBytes[headIndex] := length;
      headIndex := (headIndex + 1) % BUFFER_COUNT;
      assert RingCount(tailIndex, headIndex) == n + 1;
      forall k | 0 <= k < n
        ensures Contents()[k] == before[k]
      {
        assert (tailIndex + k) % BUFFER_COUNT != old(headIndex);
      }
    }

    /** `buffers_used_take`: the oldest entry, or `None` when the queue is
        empty. */
    method Take() returns (entry: Option<Entry>)
      requires Valid()
      modifies this
      ensures Valid() && pointers == old(pointers) && lengthInBytes == old(lengthInBytes)
      ensures old(Contents()) == [] ==> entry.None? && Contents() == []
      ensures old(Contents()) != [] ==> entry == Some(old(Contents())[0]) && Contents() == old(Contents())[1..]
    {
      ghost var before := Contents();
      if tailIndex == headIndex {
        return None;
      }
      entry := Some(Entry(pointers[tailIndex], lengthInBytes[tailIndex]));
      assert entry.value == before[0];
      ghost var oldTail := tailIndex;
      tailIndex := (tailIndex + 1) % BUFFER_COUNT;
      assert |Contents()| == |before| - 1;
      forall k | 0 <= k < |before| - 1
        ensures Contents()[k] == before[k + 1]
      {
        RingAdvance(oldTail, k);
      }
    }
  }

  // ---------------------------------------------------------------------
  // Order

  datatype QueueOp = AddOp(entry: Entry) | TakeOp

  datatype QueueRunResult = QueueRunResult(waiting: seq<Entry>, taken: seq<Entry>)

  /** The queue under a run of operations: an add to a full queue is
      refused (its caller checks `buffers_used_full` first) and a take of an
      empty queue takes nothing. */
  function QueueRun(q: seq<Entry>, ops: seq<QueueOp>): QueueRunResult
    decreases |ops|
  {
    if ops == [] then QueueRunResult(q, [])
    else
      var (q1, t) := match ops[0]
        case AddOp(e) => if |q| < RING_CAPACITY then (q + [e], []) else (q, [])
        case TakeOp => if q == [] then (q, []) else (q[1..], [q[0]]);
      var rest := QueueRun(q1, ops[1..]);
      QueueRunResult(rest.waiting, t + rest.taken)
  }

  /** The entries added and not refused. */
  function Admitted(q: seq<Entry>, ops: seq<QueueOp>): seq<Entry>
    decreases |ops|
  {
    if ops == [] then []
    else
      match ops[0]
      case AddOp(e) =>
        if |q| < RING_CAPACITY then [e] + Admitted(q + [e], ops[1..]) else Admitted(q, ops[1..])
      case TakeOp => Admitted(if q == [] then q else q[1..], ops[1..])
  }

  /** First in, first out, nothing lost: what was waiting and what was added
      are, in order, what was taken followed by what still waits. */
  lemma {:induction false} QueueIsFifo(q: seq<Entry>, ops: seq<QueueOp>)
    ensures q + Admitted(q, ops) == QueueRun(q, ops).taken + QueueRun(q, ops).waiting
    decreases |ops|
  {
    if ops != [] {
      match ops[0]
      case AddOp(e) =>
        if |q| < RING_CAPACITY {
          QueueIsFifo(q + [e], ops[1..]);
          assert q + ([e] + Admitted(q + [e], ops[1..])) == (q + [e]) + Admitted(q + [e], ops[1..]);
        } else {
          QueueIsFifo(q, ops[1..]);
        }
      case TakeOp =>
        if q == [] {
          QueueIsFifo(q, ops[1..]);
        } else {
          QueueIsFifo(q[1..], ops[1..]);
          var rest := QueueRun(q[1..], ops[1..]);
          assert q == [q[0]] + q[1..];
          assert q + Admitted(q, ops) == [q[0]] + (q[1..] + Admitted(q[1..], ops[1..]));
          assert [q[0]] + (rest.taken + rest.waiting) == ([q[0]] + rest.taken) + rest.waiting;
        }
    }
  }

  /** The queue never holds more than the ring can. */
  lemma {:induction false} QueueRunBounded(q: seq<Entry>, ops: seq<QueueOp>)
    requires |q| <= RING_CAPACITY
    ensures |QueueRun(q, ops).waiting| <= RING_CAPACITY
    decreases |ops|
  {
    if ops != [] {
      match ops[0]
      case AddOp(e) =>
        if |q| < RING_CAPACITY { QueueRunBounded(q + [e], ops[1..]); } else { QueueRunBounded(q, ops[1..]); }
      case TakeOp =>
        if q == [] { QueueRunBounded(q, ops[1..]); } else { QueueRunBounded(q[1..], ops[1..]); }
    }
  }
}
