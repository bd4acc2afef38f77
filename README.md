# sw_ethernet_tap — a Dafny model of its packet-accounting, capture-file and host-protocol core

The Ethernet tap passes frames through an xCORE device. Some of them it
captures as pcapng Enhanced Packet Blocks (EPBs) and sends to a host over
xSCOPE. This project models the parts of that system that are sequential
logic over bytes, integers and small tables. Each part is stated in Dafny
and proved against specifications.

- **Device-side analysers.**
  - `StreamTable`: the AVB tester's per-stream rate checker (`app_avb_tester/src/analysis_utils.c`). It is a 16-slot table, an AVTP frame classifier in front of it, and a two-pass once-a-second check.
  - `CumulativeTable`: the older variant with cumulative counters (`app_avb_tester/src/analyser.c`).
  - `InterfaceTable`: the packet analyser's per-interface byte and packet counters (`app_packet_analyser/src/analysis_utils.c`).
  - Each has a class over an array of slot records, with methods proved against pure table functions.
- **Buffer pool** (`Buffers`). This is the free stack of buffer handles and the used ring of (handle, length) pairs declared in `module_pcapng/src/buffers.h`, laid over one flat arena.
- **Capture-file records.**
  - `Pcapng`: the pcapng block types and the C record layouts of `module_pcapng/src/pcapng.h`.
  - `PackedFields`: little-endian field packing.
  - `CaptureFiles`: the libpcap global header and the pcapng Section Header Block (SHB) and Interface Description Block (IDB) the host listener writes. It also covers the EPB-to-libpcap record conversion done by the hook.
  - `PyListener`: the two Python listeners' byte-exact emitters and record extraction.
- **Host xSCOPE framer** (`XscopeFramer`). It reassembles the socket byte stream into print, data and acknowledgement messages and carries an incomplete tail over to the next read. It also sends an upload request, allowing at most one to be pending. The model covers the common host code and, through a `Variant`, its older copy in `pcapng_listener/c/pcapng_listener.c`.
- **pcapng file walker** (`NtarWalker`). This is `ntartest.c`: word byte order, byte-order-magic detection, padding to 32 bits, block-type classification, corrupted-SHB detection, and the running file offset it prints.
- **Console parsing** (`Console`). This covers the AVB tester's command selection, and the traffic generator's line reading, `get_next_string`, `convert_atoi_substr` and field validators.

Every C `unsigned int` or `unsigned long long` computation is written out modulo 2^32 or 2^64 (`Common.Wrap32`, `Common.Wrap64`). Every C `int` conversion is written out as two's complement (`Common.ToInt32`). Bytes are the `byte` subset type of `int`.

The device's hardware lock only makes each guarded block atomic. The model therefore runs the blocks one after another.

Where a core operation works by updating state, it is a class method:

- the slot tables;
- the free stack and the used ring;
- the host session's receive buffer and pending flag;
- the traffic generator's mode;
- the Python listener's capture stream.

Each such method is proved against a function of the old state, and the properties are proved as lemmas about those functions.

Where the specification prose and the code differ, the model follows the code:

- The avb_tester and traffic generator hooks convert 10 ns ticks to microseconds in the same way as the `host_pcapng` hook. `CaptureFiles.RecordHeaderOf` is that shared conversion.
- The Python IDB is 24 bytes and has no `if_tsresol` option, while the C IDB is 28 bytes with `if_tsresol` = 8.
- The packet-control and generation-control validators accept a weight of 100, although their message says 1–99.

## Model

| member | source | states |
|---|---|---|
| Common.ReadLe32OfLe32 | host_application/common/shared.h:69 | reading back the four little-endian bytes of a 32-bit value with `EXTRACT_UINT` gives that value |
| Common.Le32OfReadLe32 | host_application/common/shared.h:69 | the little-endian bytes of the value `EXTRACT_UINT` reads are the four bytes it read, so the read loses nothing |
| Common.ToInt32 | app_packet_analyser/src/analysis_utils.c:26 | the `int` an `unsigned` converts to lies in [-2^31, 2^31), is negative exactly when the unsigned value is at least 2^31, and wraps back to the unsigned value |
| Common.ReadLe32OfReverse | host_application/pcapng_file_tester/ntartest.c:388-393 | the byte-reversed word read little-endian is the original word read big-endian |
| PackedFields.PackAppend | pcapng_listener/python/pcapng_listener.py:22-30 | writing two field lists one after the other gives the bytes of the two lists concatenated |
| PackedFields.PackLength | host_pcapng/pcapng_listener.c:60 | a record written field by field is exactly as long as the sum of its field sizes |
| PackedFields.ReadU32At | host_pcapng/pcapng_listener.c:75 | a 32-bit field read back little-endian at its offset is its value |
| PackedFields.ReadU64At | host_pcapng/pcapng_listener.c:71 | a 64-bit field is stored as its low word followed by its high word |
| Pcapng.NamedBlockTypesDistinct | module_pcapng/src/pcapng.h:8-14 | the five named block-type codes (SHB, IDB, SPB, NRB, EPB) are pairwise distinct |
| Pcapng.CLayoutUnique | module_pcapng/src/pcapng.h:16-54 | a struct member list has only one C layout: offsets, alignment and size are determined by the members |
| Pcapng.CLayoutSound | module_pcapng/src/pcapng.h:33-41 | in a C layout every member is aligned, members do not overlap and keep their order, all fit in the size, and the size is a multiple of the alignment |
| Pcapng.TsresolLayout | module_pcapng/src/pcapng.h:27-31 | the `if_tsresol` option (16-bit type, 16-bit length, 8-bit value) lies at offsets 0, 2 and 4, is 2-aligned and is 6 bytes |
| Pcapng.SectionHeaderLayout | module_pcapng/src/pcapng.h:16-25 | the SHB fields in their declared order lie at offsets 0, 4, 8, 12, 14, 16, 24 and 28 of a 32-byte, 8-aligned record |
| Pcapng.InterfaceDescriptionLayout | module_pcapng/src/pcapng.h:33-41 | the IDB fields lie at offsets 0, 4, 8, 10, 12, 16 and 24 of a 28-byte record; the `if_tsresol` option is one 6-byte member followed by 2 bytes of padding |
| Pcapng.EnhancedPacketLayout | module_pcapng/src/pcapng.h:43-57 | on the 32-bit device the EPB is a 40-byte record whose `data` pointer sits at offset 28, and its overhead (record minus `data`) is 36 bytes |
| Pcapng.WordLayout | module_pcapng/src/pcapng.h:43-54 | a record made only of 4-byte words is laid out at offsets 0, 4, 8, … with no padding |
| CaptureFiles.PcapHeaderWellFormed | host_pcapng/pcapng_listener.c:49-61 | the pcap global header is 24 bytes with magic 0xA1B2C3D4, version 2.4, time zone 0 at offset 8, timestamp accuracy 0 at offset 12, snaplen 64 and Ethernet link type |
| CaptureFiles.SectionHeaderWellFormed | host_application/common/shared.c:311-324 | the SHB is 32 bytes, has block type 0x0A0D0D0A, both length fields equal to its size, byte-order magic 0x1A2B3C4D, version 1.0 and an all-ones section length |
| CaptureFiles.SectionHeaderFollowsCLayout | host_pcapng/pcapng_listener.c:63-76 | the bytes written for the SHB place every field at the offset the C layout of `section_block_header_t` gives it |
| CaptureFiles.InterfaceDescriptionWellFormed | host_application/common/shared.c:326-339 | the IDB is 28 bytes, a multiple of 4, has block type 1, both length fields equal to its size, link type 1 and snaplen 64 |
| CaptureFiles.InterfaceDescriptionTsresol | host_pcapng/pcapng_listener.c:87 | the IDB's option is `if_tsresol` (code 9) with length 1 and value 8, i.e. 10^-8 s units |
| CaptureFiles.InterfaceDescriptionLength | host_pcapng/pcapng_listener.c:78-91 | any IDB of this shape, whatever its field values, packs to 28 bytes |
| CaptureFiles.TsresolUnitsPerSecond | pcapng_listener/c/pcapng_listener.c:87 | an `if_tsresol` value denotes at least one unit per second |
| CaptureFiles.EpbView | host_pcapng/pcapng_listener.c:26 | viewing received bytes as an EPB takes `captured_len` and `packet_len` from offsets 20 and 24 and the packet data from offset 28 on |
| CaptureFiles.RecordHeaderTime | host_pcapng/pcapng_listener.c:28-33 | the record header's microseconds are below 10^6; its seconds are the tick count over 10^8, truncated to 32 bits; seconds·10^6 + microseconds is the time in µs whenever the seconds fit; and both lengths are copied unchanged |
| CaptureFiles.HookOutputRecord | host_pcapng/pcapng_listener.c:22-41 | in pcapng mode the hook writes the received bytes unchanged; in libpcap mode it writes a 16-byte record header (seconds, microseconds, `captured_len`, `packet_len`) followed by exactly `captured_len` bytes of the EPB's data |
| CaptureFiles.PreambleBlocks | host_pcapng/pcapng_listener.c:145-154 | the file starts with the pcap header alone in libpcap mode, and otherwise with one SHB followed by exactly two IDBs; the older C listener writes that same pcapng preamble |
| AvtpFrame.Subtype | app_avb_tester/src/analysis_utils.c:50 | the AVTP subtype is the low 7 bits of the first AVTP byte |
| AvtpFrame.Classify | app_avb_tester/src/analysis_utils.c:28-59 | a frame yields a stream id exactly when it is 802.1Q-tagged, carries the AVTP ethertype and subtype 0, and has a non-zero 64-bit stream id; the id yielded is the frame's |
| AvtpFrame.UntaggedFramesIgnored | app_avb_tester/src/analysis_utils.c:38-40 | a frame whose outer ethertype is not 0x8100 is never counted |
| AvtpFrame.ClassifyDependsOnHeaderOnly | app_avb_tester/src/analysis_utils.c:35-57 | two frames that agree on both ethertypes, the subtype and the stream id are classified alike, whatever else they contain |
| AvtpFrame.FirstMatch | app_avb_tester/src/analysis_utils.c:118-128 | the scan finds the id exactly when it is in the table, at its first occurrence |
| AvtpFrame.LastFree | app_avb_tester/src/analysis_utils.c:130-133 | the free slot remembered by the scan is the highest-index free slot, and there is none exactly when every slot is taken |
| StreamTable.Increment | app_avb_tester/src/analysis_utils.c:114-148 | a known stream's first slot gets `count + 1` and nothing else changes, with a size-mismatch warning exactly when the stored size differs; an unseen stream takes the highest-index free slot with count 1, snapshot 0 and its size, leaving `last_count` and `active` stale; with no match and no free slot nothing changes and the fatal assertion is reached |
| StreamTable.IncrementKeepsIdsUnique | app_avb_tester/src/analysis_utils.c:136-142 | counting a frame never makes two slots hold the same non-zero stream id |
| StreamTable.SlotAfterIncrement | app_avb_tester/src/analysis_utils.c:119-128 | in a table of unique ids, a frame changes only its own stream's slot, and only that slot's count |
| StreamTable.SlotFollowsFrames | app_avb_tester/src/analysis_utils.c:118-134 | after a run of frames, an occupied slot is what those frames do to that slot alone |
| StreamTable.CountIsFramesOfStream | app_avb_tester/src/analysis_utils.c:121 | after a run of frames, a slot's count has grown by the number of that stream's frames, modulo 2^32, and nothing else in it has changed |
| StreamTable.ExpectedRate | app_avb_tester/src/analysis_utils.c:87-99 | the expected rate is 8000 unless oversubscribed; oversubscribed, it cannot be computed (division by zero) exactly when the stored size is 2^32 - 20 |
| StreamTable.OversubscribedRateIsFloor | app_avb_tester/src/analysis_utils.c:89-99 | for sizes up to 536000 bytes the oversubscribed rate is ⌊8000·(n+21)/(n+20)⌋ |
| StreamTable.OversubscribedRates | app_avb_tester/src/analysis_utils.c:96-98 | n = 100 gives 8066, n = 1522 gives 8005 and n = 64 gives 8095; at n = 100 a stream at exactly 8000 is a violation |
| StreamTable.OversubscribedRateWrapsToZero | app_avb_tester/src/analysis_utils.c:96-97 | with a stored size of 2^32 - 21 the 32-bit arithmetic wraps and the expected rate is 0 |
| StreamTable.IsViolation | app_avb_tester/src/analysis_utils.c:103-108 | a rate is a violation exactly when the stream was active and its last count lies outside [E-4, E+4]; an inactive stream is never reported |
| StreamTable.EvaluateFromTraps | app_avb_tester/src/analysis_utils.c:87-98 | the second pass traps exactly when some remaining slot is occupied, counted in the window and has an uncomputable rate |
| StreamTable.EvaluateFromSlots | app_avb_tester/src/analysis_utils.c:78-85 | the second pass changes a slot only by evicting it; without a trap every slot from the start point on is evicted if idle and left alone otherwise |
| StreamTable.EvaluateFromReportsSound | app_avb_tester/src/analysis_utils.c:101-108 | every report the second pass emits is the one its slot calls for |
| StreamTable.EvaluateFromReportsComplete | app_avb_tester/src/analysis_utils.c:77-111 | every report a slot calls for is emitted by the second pass |
| StreamTable.WindowCheckOutcome | app_avb_tester/src/analysis_utils.c:61-112 | `check_counts` traps exactly when a snapshotted slot traps; otherwise every slot ends snapshotted and then evicted if idle, and the reports are exactly those the snapshotted slots call for |
| StreamTable.WindowCheckTrapsOnlyOnWrappedSize | app_avb_tester/src/analysis_utils.c:96-98 | a trap needs oversubscription and an occupied, counted slot whose stored size is 2^32 - 20 |
| StreamTable.WindowCheckKeepsIdsUnique | app_avb_tester/src/analysis_utils.c:78-84 | the check never makes two slots share a stream id |
| StreamTable.EvictedStreamReturnsAsNew | app_avb_tester/src/analysis_utils.c:136-141 | a stream evicted for an idle window comes back as a new stream with count 1, inheriting the stale `last_count` and `active` of the slot it lands in |
| StreamTable.NominalTolerance | app_avb_tester/src/analysis_utils.c:14-15 | at the nominal rate, 7996 and 8004 pass while 7995 and 8005 are violations |
| StreamTable.StreamAnalyser.constructor | app_avb_tester/src/analysis_utils.c:17 | the table starts with 16 zeroed slots |
| StreamTable.StreamAnalyser.IncrementCount | app_avb_tester/src/analysis_utils.c:116-147 | the in-place scan and update leave the array equal to `Increment` of its old contents and return its outcome |
| StreamTable.StreamAnalyser.FindSlot | app_avb_tester/src/analysis_utils.c:116-134 | the scan loop returns the first matching slot, or else the last free slot (16 when there is none) |
| StreamTable.StreamAnalyser.AnalyseBuffer | app_avb_tester/src/analysis_utils.c:28-58 | a frame that does not classify leaves the table unchanged; one that does is counted as `Increment` says, with the EPB's `packet_len` as its size |
| StreamTable.StreamAnalyser.CheckCounts | app_avb_tester/src/analysis_utils.c:61-111 | the two loops leave the table as `WindowCheck` of its old contents and return its reports and whether it trapped |
| CumulativeTable.Increment | app_avb_tester/src/analyser.c:19-46 | a known stream's first slot gets `count + 1`; an unseen stream takes the highest-index free slot with count 1 and `last_count` 0; with no match and no free slot nothing changes and the fatal assertion is reached |
| CumulativeTable.IncrementKeepsIdsUnique | app_avb_tester/src/analyser.c:35-40 | counting a frame never makes two slots share a stream id |
| CumulativeTable.SlotAfterIncrement | app_avb_tester/src/analyser.c:24-27 | in a table of unique ids, a frame changes only its own stream's count |
| CumulativeTable.SlotFollowsFrames | app_avb_tester/src/analyser.c:23-33 | after a run of frames, an occupied slot is what those frames do to that slot alone |
| CumulativeTable.SlotAfterCounts | app_avb_tester/src/analyser.c:26 | after a run of frames, a slot's count has grown by the number of its stream's frames, modulo 2^32, and its id and `last_count` are unchanged |
| CumulativeTable.WindowCheck | app_avb_tester/src/analyser.c:81-106 | after the check every slot keeps its count, takes that count as its new `last_count` and holds the packets since the previous check (mod 2^32) as its snapshot; an occupied slot loses its stream exactly when its count did not move, and every other slot keeps its stream |
| CumulativeTable.Pass1 | app_avb_tester/src/analyser.c:83-87 | the first pass keeps every slot's stream and count, records the packets since the previous check (mod 2^32) and makes the count the new reference |
| CumulativeTable.Evicted | app_avb_tester/src/analyser.c:91-99 | the second pass empties an occupied slot exactly when its snapshot is 0, and changes nothing else |
| CumulativeTable.ReportsUpToExact | app_avb_tester/src/analyser.c:91-105 | the second loop's reports are exactly the reports its slots call for, none missing and none extra |
| CumulativeTable.WindowCheckReports | app_avb_tester/src/analyser.c:92-103 | an occupied slot whose count did not move since the last check is evicted and reported removed; otherwise it stays and its count difference (mod 2^32) is reported |
| CumulativeTable.WindowCheckKeepsIdsUnique | app_avb_tester/src/analyser.c:96-97 | the check never makes two slots share a stream id |
| CumulativeTable.SlotWindow | app_avb_tester/src/analyser.c:85 | if a slot was just checked, its next snapshot is the number of its stream's frames since, modulo 2^32 |
| CumulativeTable.NextWindowIsFramesSeen | app_avb_tester/src/analyser.c:84-87 | for a stream kept by a check, the next check's snapshot is the number of its frames in between, modulo 2^32, even though counts are cumulative |
| CumulativeTable.WindowDifference | app_avb_tester/src/analyser.c:86 | the 32-bit difference of a wrapped count and its earlier value is the number of increments, modulo 2^32 |
| CumulativeTable.CumulativeAnalyser.constructor | app_avb_tester/src/analyser.c:11 | the table starts with 16 zeroed slots |
| CumulativeTable.CumulativeAnalyser.IncrementCount | app_avb_tester/src/analyser.c:21-45 | the in-place update leaves the array as `Increment` of its old contents and returns its outcome |
| CumulativeTable.CumulativeAnalyser.FindSlot | app_avb_tester/src/analyser.c:21-33 | the scan loop returns the first matching slot, or else the last free slot (16 when there is none) |
| CumulativeTable.CumulativeAnalyser.Analyse | app_avb_tester/src/analyser.c:48-79 | a frame that does not classify leaves the table unchanged; one that does is counted as `Increment` says |
| CumulativeTable.CumulativeAnalyser.CheckCounts | app_avb_tester/src/analyser.c:82-105 | the two loops leave the table as `WindowCheck` of its old contents and return its reports |
| CumulativeTable.CumulativeAnalyser.SnapshotPass | app_avb_tester/src/analyser.c:84-87 | the first loop sets every slot's snapshot to `count - last_count` and `last_count` to `count`, before any slot is evaluated |
| CumulativeTable.CumulativeAnalyser.EvictPass | app_avb_tester/src/analyser.c:91-105 | the second loop evicts exactly the idle slots and returns the reports all slots call for, in slot order |
| InterfaceTable.Init | app_packet_analyser/src/analysis_utils.c:13-20 | after `analyse_init` slot i carries interface id i, and nothing else in the slots changes |
| InterfaceTable.AsWrittenAdmitsNegativeIndexes | app_packet_analyser/src/analysis_utils.c:26-28 | the guard as written admits exactly the ids below 2 and the ids of 2^31 and above, and the latter become negative indexes |
| InterfaceTable.AsWrittenGuardCounterexample | app_packet_analyser/src/analysis_utils.c:28 | interface id 0x80000000 passes the guard as written, becomes index -2^31, and is rejected by the corrected guard |
| InterfaceTable.Analyse | app_packet_analyser/src/analysis_utils.c:22-33 | in the corrected revision (as written, the `int` guard also admits ids of 2^31 and above: see ## Findings), a frame is accepted exactly when its interface id is 0 or 1; then only that interface changes, its packet count growing by 1 and its byte count by `packet_len`, both modulo 2^32 |
| InterfaceTable.WindowCheck | app_packet_analyser/src/analysis_utils.c:35-48 | `check_counts` snapshots every interface |
| InterfaceTable.CheckConservesCounts | app_packet_analyser/src/analysis_utils.c:39-47 | the check moves each window count into its snapshot and its total (total' = total + count while the total fits), zeroes the window count, and keeps the interface id |
| InterfaceTable.Run | app_packet_analyser/src/analysis_utils.c:22-54 | running frames and checks keeps the table at two interfaces |
| InterfaceTable.RunIsPerRecord | app_packet_analyser/src/analysis_utils.c:30-46 | after frames and checks, each interface is what that interface's own frames and the checks do to it |
| InterfaceTable.RunFailsOnlyOnBadInterface | app_packet_analyser/src/analysis_utils.c:24-28 | a run aborts exactly when some frame names an interface other than 0 or 1 |
| InterfaceTable.RecordKeepsInterfaceId | app_packet_analyser/src/analysis_utils.c:18-19 | neither frames nor checks ever change an interface's id |
| InterfaceTable.RecordConservesBytes | app_packet_analyser/src/analysis_utils.c:31-42 | total + window bytes grow by exactly the bytes of that interface's frames, modulo 2^32, across any run |
| InterfaceTable.RecordConservesPackets | app_packet_analyser/src/analysis_utils.c:30-46 | total + window packets grow by exactly that interface's frame count, modulo 2^32, across any run |
| InterfaceTable.WindowAddsItsFrames | app_packet_analyser/src/analysis_utils.c:40-45 | a window of frames and then a check adds the window's bytes and packets to the totals and leaves the window's bytes as the snapshot |
| InterfaceTable.WindowCounts | app_packet_analyser/src/analysis_utils.c:30-31 | without wrap-around, a window's counts are the sum of its frames' lengths and the number of its frames |
| InterfaceTable.PacketAnalyser.constructor | app_packet_analyser/src/analysis_utils.c:10 | both interface slots start zeroed |
| InterfaceTable.PacketAnalyser.AnalyseInit | app_packet_analyser/src/analysis_utils.c:14-20 | the init loop leaves the array as `Init` of its old contents |
| InterfaceTable.PacketAnalyser.AnalyseBuffer | app_packet_analyser/src/analysis_utils.c:22-32 | in the corrected revision (as written, the `int` guard also admits ids of 2^31 and above: see ## Findings), an EPB is accepted exactly when its interface id is 0 or 1, then counted as `Analyse` says; a rejected one changes nothing |
| InterfaceTable.PacketAnalyser.CheckCounts | app_packet_analyser/src/analysis_utils.c:35-53 | the loop leaves the array as `WindowCheck` of its old contents and sends the updated slots |
| Buffers.HandleOf | module_pcapng/src/buffers.c:7 | buffer k's handle is a multiple of the buffer size and the whole buffer lies inside the arena |
| Buffers.BuffersDisjoint | module_pcapng/src/buffers.h:8-9 | distinct buffers do not overlap, and each holds an EPB header plus a double-tagged 1524-byte frame |
| Buffers.FreeStack.constructor | module_pcapng/src/buffers.h:11-14 | a new free stack is empty with every entry zero |
| Buffers.FreeStack.InitialiseC | module_pcapng/src/buffers.c:9-12 | `buffers_free_initialise_c` stores the arena start in `stack[0]` and changes nothing else, not even `top_index` |
| Buffers.FreeStack.Initialise | module_pcapng/src/buffers.h:16 | after initialisation the stack holds all 100 buffer handles, buffer k at position k |
| Buffers.FreeStack.Acquire | module_pcapng/src/buffers.h:17 | acquiring from an empty stack yields nothing; otherwise it yields the top handle and removes exactly it |
| Buffers.FreeStack.Release | module_pcapng/src/buffers.h:18 | releasing pushes exactly the given handle onto the stack |
| Buffers.RingCount | module_pcapng/src/buffers.h:20-22 | the ring's occupancy is below 100 and, added to the tail index modulo 100, gives the head index |
| Buffers.RingView | module_pcapng/src/buffers.h:20-25 | the queue's k-th entry pairs `pointers` and `length_in_bytes` at ring position tail + k modulo 100 |
| Buffers.UsedQueue.Contents | module_pcapng/src/buffers.h:23-24 | the queue holds as many entries as the ring's occupancy |
| Buffers.UsedQueue.constructor | module_pcapng/src/buffers.h:27 | a new used queue is empty |
| Buffers.UsedQueue.Full | module_pcapng/src/buffers.h:29 | the queue is full exactly at the capacity where `add` must not be called |
| Buffers.UsedQueue.Add | module_pcapng/src/buffers.h:28 | adding appends exactly the (handle, length) pair to the queue |
| Buffers.UsedQueue.Take | module_pcapng/src/buffers.h:32 | taking from an empty queue yields nothing; otherwise it yields the oldest pair and removes exactly it |
| Buffers.QueueIsFifo | module_pcapng/src/buffers.h:27-33 | across any run of adds and takes, the pairs taken followed by those still waiting are the pairs held or admitted, in add order |
| Buffers.QueueRunBounded | module_pcapng/src/buffers.h:28-29 | when `add` is only called on a non-full queue, the queue never exceeds its capacity |
| XscopeFramer.SubscriptionByte | host_application/common/shared.c:95 | the byte sent on connect subscribes to data and print events |
| XscopeFramer.TagsDistinct | host_application/common/shared.h:51-53 | the data, acknowledgement and print tags are distinct, the subscription byte is none of them, and SUCCESS differs from FAILURE |
| XscopeFramer.DataLength | host_application/common/shared.c:250-255 | in the corrected revision (as written, `int packet_len` turns fields of 2^31 and above negative: see ## Findings), a non-zero length field is the data length; a zero field means 8 bytes in the common host code and 0 in the older listener |
| XscopeFramer.ParseAt | host_application/common/shared.c:197-278 | in the corrected revision, which reads the length unsigned (as written: see ## Findings), a complete message is non-empty and lies inside the bytes held, and the tag is rejected exactly when it is none of the three message tags |
| XscopeFramer.ParseAtFraming | host_application/common/shared.c:202-274 | a complete print message is its 13-byte header plus `len` bytes of text with `len` at offset 9; a data message is its 8-byte header, `len` payload bytes and an 8-byte trailer, with `len` at offset 4 and the probe at offset 1; an acknowledgement is 5 bytes |
| XscopeFramer.ParseAtExtends | host_application/common/shared.c:280-291 | once a message can be decided, more received bytes do not change it |
| XscopeFramer.ParseAtShift | host_application/common/shared.c:285-286 | a message parses the same after the bytes before it are dropped |
| XscopeFramer.ScanFrom | host_application/common/shared.c:193-293 | the dispatch loop stops inside the bytes held, and it has drained them exactly when it stops at their end |
| XscopeFramer.ScanEndsAtIncomplete | host_application/common/shared.c:283-292 | unless it hit a fatal error, the loop stops at the end of the data or at an incomplete message |
| XscopeFramer.ScanExtends | host_application/common/shared.c:175-183 | dispatching more bytes at once is dispatching what was complete and then resuming where the loop stopped |
| XscopeFramer.ScanShift | host_application/common/shared.c:286 | after the incomplete tail is moved to the buffer start, dispatch finds the same messages and stops at the same relative place |
| XscopeFramer.ScanSameButReport | pcapng_listener/c/pcapng_listener.c:266-268 | which byte is reported on a corrupted tag does not change the messages dispatched or where the loop stops |
| XscopeFramer.SessionIsOneScan | host_application/common/shared.c:173-294 | when the loop ends because the server's data ran out (no fatal error, no full buffer), the messages dispatched and the tail left over are those of dispatching the whole stream at once, however it was split into reads |
| XscopeFramer.ReadInto | host_application/common/shared.c:174-175 | a read given `room` bytes returns the first min(room, available) bytes of what was sent, and the rest arrives with the next reads |
| XscopeFramer.Session | host_application/common/shared.c:173-294 | the kept bytes never outgrow the 16384-byte buffer; the loop ends with a full buffer only when the kept bytes fill it; a session never ends drained |
| XscopeFramer.SessionAfter | host_application/common/shared.c:193-294 | a fatal error in the pass ends the session with that error; otherwise the session goes on from the kept tail within the buffer |
| XscopeFramer.SessionFillsBuffer | host_application/common/shared.c:174-175 | a session that ends with a full buffer keeps 16384 bytes that start one incomplete message |
| XscopeFramer.LongDataEventFillsBuffer | host_application/common/shared.c:174-175 | a 20000-byte data event sent as 16384 and 3632 bytes is never dispatched: the loop ends with the buffer full, although one pass over all its bytes would dispatch it |
| XscopeFramer.ScanSplit | host_application/common/shared.c:280-291 | dispatching a buffer and then its kept tail followed by the next read yields the same messages as dispatching both together, and the kept tail is empty or starts an incomplete message |
| XscopeFramer.AsWrittenNegativeDataLength | host_application/common/shared.c:250-257 | the length field 0xFFFFFFF0 read into an `int` is -16, so the completeness test passes with only the 8 header bytes held and the message size comes to 0; the unsigned length the corrected parse uses leaves that message incomplete |
| XscopeFramer.DataLengthAgrees | host_application/common/shared.c:250 | for length fields below 2^31 the `int` length as written equals the unsigned data length |
| XscopeFramer.PrintAtBufferEndCounterexample | host_application/common/shared.c:212-216 | a print message that passes the length assertion can end exactly at byte 16384 of a full buffer, so `string_end` equals the buffer size |
| XscopeFramer.UploadMessageDecodes | host_application/common/shared.c:139-144 | an upload request is tag 4, the payload length as a little-endian word, then exactly the payload |
| XscopeFramer.UploadMessage | host_application/common/shared.c:132-143 | an upload request is 5 bytes longer than its payload |
| XscopeFramer.BuildUploadRequest | host_application/common/shared.c:129-146 | the request buffer filled byte by byte is the upload message |
| XscopeFramer.PendingAfter | host_application/common/shared.c:269-274 | an upload stays pending exactly when no acknowledgement was dispatched |
| XscopeFramer.HostSession.constructor | host_application/common/shared.c:163-170 | a session starts with no leftover bytes, nothing pending, nothing dispatched and nothing sent |
| XscopeFramer.HostSession.RequestUpload | host_application/common/shared.c:129-154 | while an upload is pending the request returns FAILURE and sends nothing; otherwise it sends the upload message, marks the upload pending and returns SUCCESS |
| XscopeFramer.HostSession.AppendChunk | host_application/common/shared.c:175 | a read lands right after the kept tail, so the buffer starts with the tail followed by the new bytes |
| XscopeFramer.HostSession.HandleMessage | host_application/common/shared.c:195-278 | one message is consumed exactly when complete, is dispatched, and advances the loop by its size; an incomplete one consumes nothing; a bad tag or an over-long print is fatal, reporting the offending byte (the older listener reports the first byte) |
| XscopeFramer.HostSession.ReceiveChunk | host_application/common/shared.c:175-183 | handling a read dispatches what dispatching the kept tail plus the new bytes yields, updates the pending flag accordingly, and keeps the undispatched tail |
| XscopeFramer.HostSession.HandleSocket | host_application/common/shared.c:161-295 | the loop of `handle_socket` over the server's sends dispatches exactly the session's messages, ends as the session does (data exhausted, full buffer or fatal error), updates the pending flag and keeps the session's tail |
| XscopeFramer.HostSession.DispatchAll | host_application/common/shared.c:193-292 | the dispatch loop over the buffer dispatches exactly the scan's messages and keeps exactly the tail where it stopped |
| XscopeFramer.HostSession.PrintText | host_application/common/shared.c:212-240 | in the corrected revision (as written, the terminator can land at `recv_buffer[16384]`: see ## Findings), the printed text is exactly the message's bytes and the buffer is left as it was; the terminator is written only when it falls inside the buffer |
| XscopeFramer.HostSession.MoveToFront | host_application/common/shared.c:283-291 | the `memmove` leaves the undispatched bytes at the start of the buffer |
| NtarWalker.GetDataWordReadsSectionOrder | host_application/pcapng_file_tester/ntartest.c:376-396 | `GetDataWord` reads the word in the section's byte order (big or little) whatever the machine's order, and reversing four bytes twice is the identity |
| NtarWalker.GetSectionEndianness | host_application/pcapng_file_tester/ntartest.c:444-453 | the section is big-endian exactly for bytes 1a 2b 3c 4d and little-endian exactly for 4d 3c 2b 1a |
| NtarWalker.SectionOrderRecognised | host_application/pcapng_file_tester/ntartest.c:213-245 | a magic written in either byte order is recognised as that order, and any word written in a section's order reads back as itself |
| NtarWalker.ClassifyCases | host_application/pcapng_file_tester/ntartest.c:249-281 | a corrupted SHB is exactly 0x0A0A0D0A, 0x0A0D0Axx or 0x0D0D0Axx; types 1–6 and 0x0A0D0D0A are named; everything else is unknown, and every pcapng block type is named |
| NtarWalker.SectionHeaderTypeIsPalindrome | host_application/pcapng_file_tester/ntartest.c:213 | testing the unswapped type for an SHB agrees with testing the swapped one in either section order |
| NtarWalker.SectionHeaderBytes | host_application/pcapng_file_tester/ntartest.c:244 | a type word is the SHB type exactly when its bytes are 0a 0d 0d 0a |
| NtarWalker.AdjustedLengthRounds | host_application/pcapng_file_tester/ntartest.c:299-321 | the adjusted length is a multiple of 4 and 0–3 above the reported length, except that lengths within 3 of 2^32 wrap to 0 |
| NtarWalker.BlockBodyFacts | host_application/pcapng_file_tester/ntartest.c:249-362 | a block whose body reads in full is reported with its type, class, reported and adjusted lengths; the walk moves past its body, and the offset grows by the adjusted length less the revision's lag |
| NtarWalker.BlockAtFacts | host_application/pcapng_file_tester/ntartest.c:200-362 | a block read in full is numbered one more than the last, reported at the current offset, has a type and length read in its section's order, and the walk resumes exactly its adjusted length further on |
| NtarWalker.BlockAt | host_application/pcapng_file_tester/ntartest.c:200-245 | a block read in full moves the walk past its 8-byte header and never past the end of the file |
| NtarWalker.BlockBody | host_application/pcapng_file_tester/ntartest.c:249-362 | a block body read in full moves the walk forward and never past the end of the file |
| NtarWalker.WalkFromOffsets | host_application/pcapng_file_tester/ntartest.c:283-362 | each block's printed offset is the running total of the adjusted lengths before it less the lags |
| NtarWalker.WalkFromPositions | host_application/pcapng_file_tester/ntartest.c:198-245 | each block reported starts where the lengths before it end, and its type is the word found there |
| NtarWalker.WalkFromCleanEnd | host_application/pcapng_file_tester/ntartest.c:198-204 | a walk that ends cleanly has consumed the file exactly |
| NtarWalker.CorrectedOffsetsAreFilePositions | host_application/pcapng_file_tester/ntartest.c:283-331 | with the magic counted, every printed offset is the block's position in the file, modulo 2^32 |
| NtarWalker.WalkReadsBlocksInPlace | host_application/pcapng_file_tester/ntartest.c:198-363 | every block reported lies inside the file at the sum of the lengths before it, with its type read there; a clean end means the blocks tile the file |
| NtarWalker.AsWrittenOffsetsLag | host_application/pcapng_file_tester/ntartest.c:343-362 | as written, each printed offset falls short of the block's position by 4 bytes per SHB before it |
| NtarWalker.PreambleWalk | host_application/pcapng_file_tester/ntartest.c:134-363 | walking the listener's preamble finds one little-endian SHB then two IDBs and ends cleanly; offsets are 0, 32 and 60 when corrected and 0, 28 and 56 as written |
| NtarWalker.PreambleWalkRevision | host_application/pcapng_file_tester/ntartest.c:198-362 | any 88-byte file with an SHB and two IDB headers at 0, 32 and 60 walks to exactly those three blocks, with the offsets of each revision |
| NtarWalker.LittleSectionHeaderAt | host_application/pcapng_file_tester/ntartest.c:213-350 | a little-endian SHB that fits the buffer is read as one block of its length and sets the section order to little-endian |
| NtarWalker.LittleBlockAt | host_application/pcapng_file_tester/ntartest.c:251-360 | a named little-endian block that fits the buffer is read as one block of its length and advances the offset by that length |
| NtarWalker.AsWrittenSectionBodyOverruns | host_application/pcapng_file_tester/ntartest.c:344 | a 4108-byte SHB passes the short-read test as written while its body read reaches past the 4096-byte buffer |
| NtarWalker.CorrectedBodyReadFits | host_application/pcapng_file_tester/ntartest.c:343-360 | with the SHB read capped at 4092 bytes, every body read stays inside the buffer |
| NtarWalker.Read | host_application/pcapng_file_tester/ntartest.c:403-406 | `fread` copies the next `min(n, remaining)` bytes of the file and reports end of file on a short count |
| NtarWalker.ReadBody | host_application/pcapng_file_tester/ntartest.c:249-362 | the in-place body read of a block agrees with the corrected revision's specification of that step, short reads included |
| NtarWalker.WalkFile | host_application/pcapng_file_tester/ntartest.c:198-363 | the loop in `main`, in the corrected revision, reports exactly the blocks and the outcome of the corrected walk of the file |
| NtarWalker.ReadBlock | host_application/pcapng_file_tester/ntartest.c:200-245 | reading one block header, magic and body in place agrees with the corrected revision's specification of one block step |
| Console.ToLower | host_application/traffic_gen_controller/traffic_gen_controller.c:276 | upper-case letters are lowered and every other character is unchanged |
| Console.LineEnd | host_application/traffic_gen_controller/traffic_gen_controller.c:275 | the line read ends inside the input |
| Console.LineEndStops | host_application/avb_tester/avb_tester.c:93 | the line stops at the first newline, the end of input, or the buffer limit, whichever comes first |
| Console.LineOfFacts | host_application/traffic_gen_controller/traffic_gen_controller.c:275-280 | the line is the lowered input up to the first newline, the end of input or the buffer limit, and contains no newline |
| Console.ReadLine | host_application/avb_tester/avb_tester.c:93-95 | the character-reading loop yields exactly that line |
| Console.SkipSpaces | host_application/traffic_gen_controller/traffic_gen_controller.c:102-103 | skipping stops at the first non-space at or after the start, and skips only spaces |
| Console.WordEnd | host_application/traffic_gen_controller/traffic_gen_controller.c:105-108 | counting stops at the first space or NUL at or after the start, and counts only other characters |
| Console.NextCharFacts | host_application/avb_tester/avb_tester.c:69-75 | `get_next_char` returns NUL or a non-space, and the character itself when it is not a space |
| Console.NextCharAfterSpaces | host_application/traffic_gen_controller/traffic_gen_controller.c:86-94 | after any run of spaces, the next character is the first one after the run |
| Console.GetNextString | host_application/traffic_gen_controller/traffic_gen_controller.c:96-112 | the character returned is the first non-space; the length counts non-space characters from the original start, so it is 0 when the field starts with a space and at least 1 when it starts with a visible character |
| Console.AtoiSkipsSpaces | host_application/traffic_gen_controller/traffic_gen_controller.c:120-132 | `atoi` gives the same value with or without the leading spaces |
| Console.ConvertAtoiSubstr | host_application/traffic_gen_controller/traffic_gen_controller.c:116-133 | the value is `atoi` at the start and the length counts from the original start, so it is 0 when a space comes first |
| Console.AtoiOfDecimal | host_application/traffic_gen_controller/traffic_gen_controller.c:132 | `atoi` of a number's decimal text is that number |
| Console.WordEndOfDecimal | host_application/traffic_gen_controller/traffic_gen_controller.c:126-131 | a number's decimal text followed by a separator is counted as exactly its digits |
| Console.AvbCommand | host_application/avb_tester/avb_tester.c:97-134 | 'e' sends OVERSUBSCRIBED exactly when the next non-space is 'o' and NORMAL otherwise; 'x' and 'd' send ENABLE exactly when it is 'e' and DISABLE otherwise; 'q' quits, 'h' or '?' prints help, and every other letter is unrecognised |
| Console.CommandLineSelects | host_application/avb_tester/avb_tester.c:102-124 | each tester command's two-letter line selects that command, with any spaces between the letters |
| Console.FieldAt | host_application/traffic_gen_controller/traffic_gen_controller.c:167-168 | a number's text followed by a space or the line end is read as that number, and the next field starts after the space |
| Console.TypeAt | host_application/traffic_gen_controller/traffic_gen_controller.c:158-159 | the packet type at index 2 followed by a space is read as that character, and the weight starts at index 4 |
| Console.PacketControlRoundTrip | host_application/traffic_gen_controller/traffic_gen_controller.c:146-199 | parsing the text of a `c <type> <weight> <min> <max>` command gives back its fields |
| Console.GenerationControlRoundTrip | host_application/traffic_gen_controller/traffic_gen_controller.c:202-240 | parsing the text of a `g <type> <weight> <rate>` command gives back its fields |
| Console.DoubleSpaceRereadsWeight | host_application/traffic_gen_controller/traffic_gen_controller.c:167-185 | with two spaces after the type, the validator reads the weight as both the weight and the minimum size, and the minimum size as the maximum |
| Console.BufferPrefix | host_application/traffic_gen_controller/traffic_gen_controller.c:279-280 | the first n bytes of the zero-filled buffer are the line's characters, with NUL past its end |
| Console.TrafficGenController.constructor | host_application/traffic_gen_controller/traffic_gen_controller.c:29 | the generator starts in mode 's' |
| Console.TrafficGenController.ValidateDirected | host_application/traffic_gen_controller/traffic_gen_controller.c:135-144 | packet commands are refused exactly when the generator is in directed mode |
| Console.TrafficGenController.ValidatePacketControl | host_application/traffic_gen_controller/traffic_gen_controller.c:146-199 | a packet-control line is accepted exactly when the mode is not directed, the type is u, m or b, the weight is in 1..100, both sizes are in 1..1500 and min ≤ max |
| Console.TrafficGenController.ValidateGenerationControl | host_application/traffic_gen_controller/traffic_gen_controller.c:202-240 | a generation-control line is accepted exactly when the mode is not directed, the type is u, m or b, the weight is in 1..100 and the line rate is in 1..100 |
| Console.TrafficGenController.ValidateMode | host_application/traffic_gen_controller/traffic_gen_controller.c:243-256 | the mode is accepted exactly when the next non-space after index 2 is s, r or d, and only then does it become the generator mode |
| Console.TrafficGenController.Command | host_application/traffic_gen_controller/traffic_gen_controller.c:282-316 | only the mode command changes the mode, and it sets the mode exactly when the next non-space after index 2 is s, r or d, uploading 3 bytes, and is rejected otherwise; packet and generation lines are uploaded whole when valid and rejected otherwise; print and end upload 1 byte; 'q' exits, 'h' or '?' prints help, and every other letter is unrecognised |
| PyListener.SectionHeaderBytes | pcapng_listener/python/pcapng_listener.py:21-30 | the SHB emitter writes 32 bytes |
| PyListener.InterfaceDescriptionBytes | pcapng_listener/python/pcapng_listener.py:32-39 | the IDB emitter writes 24 bytes |
| PyListener.Preamble | pcapng_listener/python/pcapng_listener.py:46-50 | the preamble is one SHB and two IDBs long |
| PyListener.SectionHeaderWellFormed | pcapng_listener/pcapng_listener.py:20-29 | the SHB has type 0x0A0D0D0A, both length fields equal to the bytes written, magic 0x1A2B3C4D, version 1.0 and a section length of two all-ones words |
| PyListener.InterfaceDescriptionWellFormed | pcapng_listener/pcapng_listener.py:31-38 | the IDB has type 1, both length fields equal to the bytes written, link type 1 and snaplen 64 |
| PyListener.SectionHeaderMatchesC | pcapng_listener/python/pcapng_listener.py:27-28 | the Python SHB is byte for byte the SHB the C listener writes |
| PyListener.PreambleBlocks | pcapng_listener/pcapng_listener.py:44-48 | the file starts with an SHB of 32 bytes followed by two IDBs of 24 bytes |
| PyListener.ExtractFromFacts | pcapng_listener/pcapng_listener.py:64-65 | the older listener writes the byte at offset 4 of each 16-byte record, in order, and raises exactly when the last record has 1 to 4 bytes |
| PyListener.ExtractRecords | pcapng_listener/pcapng_listener.py:56-65 | the record loop writes and fails exactly as that extraction says |
| PyListener.ScanStep | pcapng_listener/python/pcapng_listener.py:70-76 | the scan handles one record and then continues 16 bytes further on |
| PyListener.ScanSubsequence | pcapng_listener/python/pcapng_listener.py:70-81 | the bytes written are the data records' byte 4, taken in increasing position order: an in-order subsequence of the bytes received |
| PyListener.DataRecordsWritten | pcapng_listener/python/pcapng_listener.py:75-76 | every record with flag byte 0 whose byte 4 was received is written, whether or not a later record makes the scan fail |
| PyListener.DropRecordsNotWritten | pcapng_listener/python/pcapng_listener.py:72-74 | nothing of a record whose byte 1 is non-zero is written |
| PyListener.ScanFatal | pcapng_listener/python/pcapng_listener.py:71-78 | the scan fails only when the last record has 1 to 4 bytes |
| PyListener.FullReadNeverFatal | pcapng_listener/python/pcapng_listener.py:67-68 | a full 16332-byte read never fails whether the scan starts at 0 or at 4, and 16332 + 4 is a whole number of records |
| PyListener.Listener.constructor | pcapng_listener/python/pcapng_listener.py:41-45 | a listener starts with nothing written, nothing logged and no full read before |
| PyListener.Listener.EmitPreamble | pcapng_listener/python/pcapng_listener.py:46-50 | emitting the preamble appends exactly the SHB and two IDBs to the capture |
| PyListener.Listener.Receive | pcapng_listener/python/pcapng_listener.py:58-81 | a read is scanned from offset 4 exactly when the previous read was a full 16332 bytes, its written bytes and log lines are appended, a failure stops the listener, and the next read's offset depends on this read's size |

## Left out

- Hardware and concurrency are left out: the hardware lock, streaming channels, MII/PHY ports, the relay and the timer server. Each locked region is one atomic step, and regions run one after another.
- Socket I/O, connection retries, signal handling and `main`/option parsing are left out. A read from the socket is a parameter (the chunk). Bytes sent on the socket are a `sent` sequence.
- Console echo, prompts, `printf`/`fprintf` of diagnostics and DEBUG logging are left out. The `total_received` and `total_bytes` byte counters only feed that printing.
- The machine byte order that `GetSystemEndianness` in `ntartest.c` detects is a parameter. So is the section byte order in effect before the first SHB, which the source leaves uninitialised.
- `buffers.h` declares initialise, acquire, release, add, full and take, but their bodies are not part of this model. `Buffers.FreeStack` and `Buffers.UsedQueue` realise them as a bounded stack and a bounded ring over the declared arrays. `Buffers.FreeStack.Initialise` (`buffers_free_initialise`, `buffers.h` line 16) is such a realisation: it puts buffer k at position k.
- `Buffers.UsedQueue.Full`: the ring keeps one slot unused, so "full" is taken to be 99 entries. The bodies that would fix this number are not part of this model.
- `pcap.h`, `avb_tester.h` and `traffic_ctlr_host_cmds.h` are not part of this model. The command letters come from the consoles' usage text, and the `tester_command_t` values are abstract constructors.
- `CaptureFiles.HookOutputRecord`: the hook trusts the EPB's header and its `captured_len`. The model requires the received bytes to hold the header and `captured_len` data bytes. The C hook would read past the buffer otherwise.
- `Pcapng.EnhancedPacketLayout`, `CaptureFiles.EpbView` and `CaptureFiles.HookOutputRecord` use the device's 32-bit pointers, so the packet data starts at `EPB_DATA_OFFSET` = 28. On a 64-bit host, where host_pcapng/pcapng_listener.c:26,39 runs, the same struct has 8-byte pointer members and `&ehb->data` is at offset 32; that width is not modelled.
- `CaptureFiles.EpbView`: reads the packet data from offset 28, the 32-bit device layout; the 64-bit host's offset 32 is not modelled.
- `CaptureFiles.HookOutputRecord`: writes the data that starts at offset 28, the 32-bit device layout; the 64-bit host's offset 32 is not modelled.
- Struct padding is written as zero bytes. The C code writes whatever the padding holds.
- `Console.ConvertAtoiSubstr`: `atoi` is modelled on unbounded integers. `int` overflow on very long digit strings is not modelled.
- `Console.ReadLine` and `Console.BufferPrefix`: characters past the end of the typed line read as NUL. This matches the zero-filled buffer of the traffic generator. The AVB tester only NUL-terminates its buffer, so its bytes past that NUL are not modelled.
- The `hook_data_received` definitions in `avb_tester.c` and `traffic_gen_controller.c` take two parameters, while `shared.c` calls the hook with three. The model uses the three-parameter form of `host_pcapng/pcapng_listener.c`.
- The `now` parameter of `check_counts` in `analyser.c` is only printed, so it is left out.
- The `check_counts(int, int)` declaration in `app_avb_tester/src/analysis_utils.h` does not match its one-argument definition. The model follows the definition.
- The Python listeners end on an uncaught exception. The model records this as a stop flag and leaves out the traceback.
- The Python listeners' socket loop is left out. The record scan and the drop-record log sequence are kept.
- The floating-point utilisation printing of the packet-analyser hosts is left out.

## Findings

| source | as written | input that shows it | evidently intended | confidence | as-written member | corrected member |
|---|---|---|---|---|---|---|
| app_packet_analyser/src/analysis_utils.c:26-28 | `epb->interface_id` is copied into an `int`, then checked with `interface_id < NUM_INTERFACES` | interface id 0x80000000 becomes -2^31, passes the check, and indexes `interface_state[-2^31]` | accept only ids 0 and 1, comparing as unsigned | not executed | InterfaceTable.AsWrittenGuardCounterexample | InterfaceTable.Analyse |
| host_application/common/shared.c:250-257 | the data length is read into an `int` `packet_len` | length field 0xFFFFFFF0 gives -16: the completeness test passes with 8 header bytes held, the hook gets a negative length, and the increment is 0 | treat the length as the unsigned 32-bit count it is sent as | not executed | XscopeFramer.AsWrittenNegativeDataLength | XscopeFramer.ParseAt |
| host_application/common/shared.c:212-216 | the print terminator is written at `recv_buffer[string_end]` whenever `string_end <= n` | a print message with length 16371 at offset 0 of a full 16384-byte read gives `string_end` = 16384, one past the buffer | write the terminator only when `string_end < MAX_RECV_BYTES` | not executed | XscopeFramer.PrintAtBufferEndCounterexample | XscopeFramer.HostSession.PrintText |
| host_application/pcapng_file_tester/ntartest.c:344 | the SHB body is read into `&myBuffer[4]` with up to 4096 bytes | a little-endian SHB with block length 4108 gives a 4096-byte read into a 4096-byte buffer from offset 4 | cap the SHB body read at 4092 bytes | not executed | NtarWalker.AsWrittenSectionBodyOverruns | NtarWalker.CorrectedBodyReadFits |
| host_application/pcapng_file_tester/ntartest.c:283-362 | `totalRead` counts each block's 8-byte header and body, but not the 4-byte SHB magic read separately | the listener preamble (SHB, IDB, IDB) prints offsets 0, 28 and 56 for blocks at 0, 32 and 60 | count the magic, so each printed offset is the block's file position | not executed | NtarWalker.AsWrittenOffsetsLag | NtarWalker.CorrectedOffsetsAreFilePositions |
