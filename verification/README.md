# Pktgen packet engine: a verified model

Pktgen generates network traffic from user space. This project models the parts of it that decide
*which* packets leave a port, *when*, and *with what bytes*, and proves what users and maintainers
rely on. Run `dafny verify dfyconfig.toml`.

The cores, hardest first:

- **Transmit protocol** (`TxProtocol`, `TxRuns`, `TxStart`, `TxOutcomes`, `FlagCas`, `PortFlags`). Worker lcores claim
  bursts from one shared counter by compare-and-set and test and clear bits of one flag word, while a
  control thread starts, stops, primes and reconfigures the port. A step is one atomic access, memory is
  sequentially consistent, there is one control thread and any number of workers. Proved over every
  interleaving: what is loaded into the counter equals what was claimed, what is left and what was
  overwritten; a drained run of N packets made exactly ceil(N/B) claims; a start is ordered before the flag
  workers look at; at most one more burst per worker follows a stop. A start and the run it begins are put
  together with workers of earlier runs still on their way.
- **Pacing** (`PacketRate`, `Pacer`). The integer rate arithmetic and the deadline loop with bounded
  catch-up, in the wrapping 64-bit arithmetic of the code, related to unbounded arithmetic; spacing, absence
  of drift, and bounds from above and below on what all queues of a port send in a window.
- **Random bitfields** (`Words`, `RandomBits`, `Xorshift`). The mask compiler, its in-place application on a
  host of either byte order, the printer, and the generator.
- **Capture buffer** (`Bytes`, `Capture`). The packed byte log, its greedy writer and its reader.
- **Headers and checksums** (`Checksum`, `Headers`, `TcpWire`, `Receiver`). The L4 checksum is summed over a
  half-built IP header that is then zeroed and rebuilt; the finished packet still passes a receiver's checks, and a
  receiver that reads it field by field finds the template's values.
- **CLI nodes** (`CliTree`, `CliPath`, `CliNodes`, `TailQueue`). The node pool, its free list, the directory tree
  and the executable path, whose first entry is also the current directory: what every add, recursive removal and
  change of directory does, for any node of the pool, and exactly which of them leave a well formed pool. The
  lists are sequences, and `TailQueue` shows link by link where the tail queues of the code are that, for all lists of
  a pool at once.
- **Range mode** (`RangeCycle`, `RangeMode`, `RangeSweep`), **port modes** (`PortModes`, `PortCommands`),
  **PCAP files** (`PcapFormat`, `PcapReplay`), **latency percentiles** (`Quantiles`, `Latency`), **TCP flag
  text** (`TcpFlags`), **sequence filling** (`SeqFill`).
- Shared: `Arithmetic`, `Constants`, `Sequences`, `Wrappers`.

## What the proofs found

Where a property one would expect does not hold of the code, the code is modelled as it is and the exact
condition is proved.

- A counted run can lose SENDING_PACKETS with packets left exactly when a worker was told by an earlier run
  to clear the flag and has not done so yet (`TxRuns.EndsEarlyIffStaleClear`). A port that was never used gets
  there with two starts, and then stops with all N packets unsent (`TxOutcomes.EndsEarlyFromInit`).
- A start of N > 0 packets reads the counter back to decide between counted and forever; late claimers of
  the previous run can empty it in between. SEND_FOREVER is sure to be clear when SENDING_PACKETS is set exactly
  if it was clear before and those claimers cannot take N packets, one burst each (`TxStart.StartCountsIff`);
  a never used port reaches a start that fails this (`TxOutcomes.LateClaimerFromInit`). The run is sure to be a
  counted one, short of at most one burst per late claimer, exactly if besides no worker owes a clear and the
  late claimers cannot drain the old counter and then read it as 0 (`TxOutcomes.StartedRunIsCountedIff`).
- SEND_FOREVER can be left set on an idle port, where a stop does not clear it, so a later counted start runs
  forever (`TxStart.ForeverFlagCanBeLeftBehind`). When such a run is stopped its counter still holds N, and a
  worker past the SENDING_PACKETS test claims and sends a burst (`TxOutcomes.StoppedForeverRunStillClaims`): a
  forever run stops at once exactly when its counter is 0 (`TxRuns.ForeverStopsAtOnceIff`).
- A start can fail in each of the four ways from a never used port; the fourth, a worker that reads the counter
  of the run before as 0, by `TxOutcomes.ZeroReaderFromInit`.
- set_cwd stores any node in the first entry of the path, so the path can name a directory twice, or a
  command. Removing nodes takes one entry of each directory away, so the path still names a freed node exactly
  when it named a freed directory twice or a freed node that is no directory (`CliPath.NamesFreedIff`). From the
  path that Pktgen sets up, root, /sbin and /pktgen/bin, "cd /pktgen/bin" and "rm /pktgen/bin" do it
  (`CliPath.CdThenRmOfBin`).
- "rm ." then removes a working directory that is free already. cli_remove_node does not notice: off the links of
  the free list and to its tail, which is harmless unless the node is the last free one
  (`CliNodes.FreedAgainKeepsTreeIff`); if it is, the free list loses it and every node freed from then on
  (`TailQueue.FreedAgain`, `TailQueue.LaterFreesAreLost`). Six commands on the path that Pktgen sets up get there
  (`CliNodes.FreeWorkingDirectoryTwice`).
- __add_node does not look at the kind of the parent, nor whether it is live; the pool stays well formed exactly
  when the parent is missing or a live directory (`CliNodes.AddKeepsTreeIff`). After "cd" to a command, "mkdir"
  and "rm" of the command the new directory is not free and no live node lists it
  (`CliNodes.LostUnderACommand`).
- tx_pps is divided by the number of queues and the step is multiplied by it, so all queues together send tx_pps
  packets a second, from above (`Pacer.OneSecondBound`) and below (`Pacer.OneSecondLower`), and that is 1/Q of the
  configured share: the queues' exact rates add up to the share (`PacketRate.QueuesShare`), and tx_pps is what one
  queue would get exactly with one queue or a share below two packets a second (`PacketRate.WholeShareIff`). Two
  queues on 10 Gbit at 100 % are given 7440476 of 14880952 packets (`PacketRate.TwoQueuesGetHalf`).
- The wire size of sequence templates is their average rounded down, so it can be short by less than one byte
  a packet (`PacketRate.AverageWithinOne`), and the rate is that much too high.
- The capture log keeps pkt_len in 16 bits and the reader stops at length 0, so a dump is complete exactly
  when no stored packet's length is a non-zero multiple of 65536 (`Capture.SessionRoundTrip`; a packet of 65536
  bytes is stored and not dumped, `Capture.WholeMultipleIsLost`).
- pktgen_rnd_bits_init compiles a mask of 32 '?' meaning "ignore", which the compiler rejects; untouched
  slots print as 32 '0' (`RandomBits.UntouchedSlotPrintsZeros`). A comment in the mask compiler says it
  returns 0 on success; it returns the active slots.
- A swept range field cycles through its grid exactly when its last step does no harmful wrap
  (`RangeCycle.CyclesIff`; an input that leaves its grid: `RangeSweep.WrapLeavesTheGrid`). The latch that
  skips the first VLAN step is one static for all ports; the ones for CoS and ToS change nothing, because
  both minimums are 0.
- A PCAP file without packets makes pcap_get_info divide by zero before the caller's test for an empty file
  (`PcapReplay.WrittenFileOpens`).
- __add_node takes a string node without a parent and loses it from the tree; no caller in the CLI does so
  (`CliNodes.AddKeepsRootIff`).
- The TCP header constructor stores the low eight of the twelve flag bits that the text form names: a header
  carries the flag word exactly if it is below 256 (`TcpWire.WordReachesTheWireIff`), that is, without rs0..rs3
  (`TcpWire.FlagsReachTheWireIff`). "rs0,syn" goes out as syn (`TcpWire.ReservedFlagIsLost`).

## Modelling choices

The flag word is the set of its 1 bits; 32- and 64-bit words that are masked or shifted are bit sequences,
most significant first; other integers are unbounded with every wrap and truncation written out. Doubles
(tx_rate, the quantile) are exact reals. The clock is any input (non-decreasing where a window needs it);
rte_eth_tx_burst accepts any number of packets up to those offered; a mempool get takes all or none; the
random source of the bitfield engine is an arbitrary stream; DPDK's checksum helpers are the ones'
complement sum of RFC 1071; the C library's qsort gives the sorted permutation; rte_strsplit is the DPDK
function; the TAILQ macros are those of 4.4BSD's sys/queue.h. tx_burst is at least 1 (its setter clamps it) and constant during a run. Capture and PCAP fields
are in little-endian host order. ARP and ping packets sent from the transmit loop are neither paced nor
counted. A node or template pointer is its index.

## Model

| member | source | states |
|---|---|---|
| TxProtocol.LedgerStep | app/pktgen.c:927-976 | Every access of any thread keeps: loaded = granted + remaining + overwritten, and each worker's packets are sent, lost or in hand |
| TxProtocol.LedgerRun | app/pktgen-port-cfg.h:267-283 | The same over every interleaving |
| TxProtocol.CountIsConserved | app/pktgen.c:927-976 | From the initial port, whatever commands run: counter conservation, 0 <= counter <= last load, and per-worker accounting |
| TxRuns.CountedRun | app/pktgen.c:927-976 | In any run that begins with N > 0 packets in the counter, SEND_FOREVER clear and no worker owing a clear, whatever the workers did before and wherever they are: granted in the run + counter = N; a drained run made exactly ceil(N/B) claims; SENDING_PACKETS is cleared, or about to be, only at counter 0 |
| TxRuns.CountedFirstRun | app/pktgen.c:927-976 | On a port whose workers have no history, granted + counter = N and a drained run is all the claims there ever were |
| TxRuns.EndsEarlyIffStaleClear | app/pktgen.c:933-938 | A run can lose SENDING_PACKETS before its counter is 0 if and only if some worker still owes a clear from an earlier run |
| TxRuns.StartIsOrdered | app/pktgen-cmds.c:1261-1275 | Over every run, SENDING_PACKETS is clear while a start is in progress, and is set only with the counter loaded or SEND_FOREVER in place |
| TxRuns.InitIsOrdered | app/pktgen-cmds.c:2280-2286 | The initial port satisfies the ordering invariant |
| TxRuns.AtMostOneMoreBurst | app/pktgen-cmds.c:1287-1292 | After the stop's clear and until the next start or prime, a worker hands over at most one more burst, and none unless it had passed the SENDING_PACKETS test |
| TxRuns.ForeverStopsAtOnceIff | app/pktgen.c:933-938 | Once both flags are clear, a worker that has not begun to claim claims nothing and sends nothing until the next start or prime, in every interleaving, if and only if the counter is 0 or the worker is not past the SENDING_PACKETS test |
| TxRuns.ForeverTakesWholeBursts | app/pktgen.c:933-947 | From the initial port, in every interleaving: what a worker took under SEND_FOREVER is a multiple of tx_burst, and a worker that never claimed from the counter nor lost a burst has taken tx_burst packets for each burst it handed over or is about to hand over, and sent them all if none is on its way |
| TxRuns.OneForeverTurn | app/pktgen.c:928-947 | One whole turn of an idle worker of a forever run takes and sends tx_burst packets |
| TxRuns.PrimeLoads | app/pktgen-cmds.c:1447-1460 | Priming loads the count given and sets SENDING_PACKETS, without touching SEND_FOREVER or any worker |
| TxRuns.DefaultsStartForever | app/pktgen-cmds.c:1261-1275 | A start with the default transmit_count loads 0 and sets SEND_FOREVER |
| TxStart.StartCountsIff | app/pktgen-cmds.c:1262-1275 | A start of N > 0 packets sets SENDING_PACKETS with SEND_FOREVER clear in every interleaving if and only if SEND_FOREVER was clear and the late claimers times the burst is below N |
| TxStart.NotAlwaysCounted | app/pktgen-cmds.c:1262-1275 | Otherwise a concrete schedule makes it a forever run |
| TxStart.ForeverFlagCanBeLeftBehind | app/pktgen-cmds.c:1287-1292 | From the initial port, a schedule in which a later counted start runs forever |
| TxOutcomes.StartedRunIsCountedIff | app/pktgen-cmds.c:1262-1275 | In every interleaving of a start of N > 0 packets and of the run after it, the run is a counted one of the N minus at most one burst per late claimer, if and only if SEND_FOREVER was clear, the late claimers cannot take N, no worker owed a clear, and they cannot drain the old counter and read it as 0 |
| TxOutcomes.CleanStartCounts | app/pktgen.c:927-976 | What is left in the counter when SENDING_PACKETS is set, and what the run then claims |
| TxOutcomes.EndsEarlyFromInit | app/pktgen.c:933-938 | From the initial port, a schedule that ends a run of N packets with all N still in the counter |
| TxOutcomes.LateClaimerFromInit | app/pktgen-cmds.c:1262-1275 | From the initial port, a schedule to a start of N <= B packets that some interleaving makes a forever run |
| TxOutcomes.ZeroReaderFromInit | app/pktgen.c:933-938 | From the initial port, a schedule to a start of N > B packets that keeps SEND_FOREVER clear in every interleaving and yet need not begin a counted run: a late claimer can read the old counter as 0 |
| TxOutcomes.StoppedForeverRunStillClaims | app/pktgen-cmds.c:1287-1292 | From the initial port, a schedule to a stopped forever run in which a worker still claims and sends |
| FlagCas.FlagUpdatesAreAtomic | app/pktgen.h:488-513 | Whatever the interleaving of reads and compare-and-sets, the word is what whole operations leave one after the other, each begun operation applied once or in progress |
| FlagCas.SoleWriterWins | app/pktgen.h:488-513 | A flag that exactly one performed operation names has that operation's value |
| PacketRate.RatePort.WireSize | app/pktgen.c:59-77 | Bits per packet: 8 * (size + 24) for a single size or the PCAP average; with sequence templates the whole bytes of the average of size + 24, short of it by less than one byte |
| PacketRate.AverageWithinOne | app/pktgen.c:68-72 | For n templates of any sizes, the bytes per packet times n are at most the sum of size + 24, and less than n below it |
| PacketRate.AverageBetween | app/pktgen.c:68-72 | The result lies between that of the least and that of the greatest size, so equal sizes give exactly 8 * (size + 24) |
| PacketRate.EveryTemplateCounts | app/pktgen.c:68-72 | n more bytes in any one of n templates are one more byte in the average |
| PacketRate.RatePort.SetPacketRate | app/pktgen.c:90-119 | tx_pps is the exact rate truncated and at least 1; tx_cycles is the rounded quotient formed in 64 bits; both 0 without link or rate |
| PacketRate.RoundedDivision | app/pktgen.c:114-116 | Adding half the divisor first keeps the quotient within half a divisor of exact, both ways |
| PacketRate.RateIsWithinLink | app/pktgen.c:105-112 | pps * wire_bits * Q * 100 <= link_bps * tx_rate for any pps not above the exact rate |
| PacketRate.DerivedRateIsWithinLink | app/pktgen.c:105-118 | So the derived rate is within the link's share unless it was forced up to 1 |
| PacketRate.DerivedRateFillsShare | app/pktgen.c:105-112 | From below: one more packet a second for each queue would take all of the share but the part of it that the first whole division drops |
| PacketRate.SingleWithinLink | app/pktgen.c:66-112 | Both bounds in packet sizes, for a single packet size: tx_pps * 8 * (size + 24) * Q against the configured percentage of the link |
| PacketRate.PcapWithinLink | app/pktgen.c:63-112 | The same for the average packet of a PCAP file |
| PacketRate.QueuesShare | app/pktgen.c:107-112 | The exact rates of Q queues add up to the rate of a port with one queue |
| PacketRate.WholeShareIff | app/pktgen.c:107-112 | The rate for all queues equals that of one queue if and only if Q = 1 or the whole share is below 2 packets a second |
| PacketRate.DerivedIsWholeIff | app/pktgen.c:90-119 | The same of what pktgen_packet_rate leaves in tx_pps, which is the exact rate truncated, at least 1 |
| PacketRate.TwoQueuesGetHalf | app/pktgen.c:107-112 | 10000 Mbit, 100 %, 60-byte templates: 14880952 packets a second for one queue, 7440476 for two |
| Pacer.TxQueue.Poll | app/pktgen.c:1069-1079 | One turn of the loop in 64-bit words: fire if the signed distance is not negative, and the next deadline |
| Pacer.WrappedPollAgrees | app/pktgen.c:1072-1076 | While the distance fits int64, the wrapping poll decides and moves the deadline as the unbounded one |
| Pacer.TxQueue.Loop | app/pktgen.c:1124-1136 | The whole loop fires at the times, and ends at the deadline, of the unbounded loop |
| Pacer.BurstSpacing | app/pktgen.c:1072-1079 | (j - i) * C <= time_j - time_i + 20000 for any two bursts of a queue, however late the polls |
| Pacer.FirstBurst | app/pktgen.c:1072-1079 | The first burst goes out at the first poll that is not before the deadline |
| Pacer.NoDrift | app/pktgen.c:1072-1079 | While lateness stays within 20000 the k-th deadline is exactly the first plus k steps |
| Pacer.QueueWindowBound | app/pktgen.c:1128-1136 | At most 1 + (W + 20000) / C bursts of a queue in any W cycles |
| Pacer.PortWindowBound | app/pktgen.c:1065-1085 | Q queues send at most Q * B * (1 + (W + 20000) / C) paced packets in any W cycles |
| Pacer.QueueWindowLower | app/pktgen.c:1128-1136 | At least (W - 20000) / C bursts of a queue in any W cycles it ran through, if it was never later than 20000 |
| Pacer.PortWindowLower | app/pktgen.c:1065-1085 | Q such queues with full bursts send at least Q * B * ((W - 20000) / C) packets in the window |
| Pacer.StepBudget | app/pktgen.c:114-118 | 2 * abs(C * P - Q * B * hz) <= P |
| Pacer.OneSecondBound | app/pktgen.c:90-119 | End to end: a second of transmission sends at most tx_pps packets plus one burst a queue, the lag allowance and the rounding |
| Pacer.OneSecondLower | app/pktgen.c:90-119 | And at least tx_pps less the same allowances, when the queues are on time with full bursts: tx_pps is for all queues together |
| Pacer.OneSecondOfLink | app/pktgen.c:90-119 | In bits: with the derived rate and step the packets of any second take at most 1/Q of the configured percentage of the link, plus the allowance |
| RandomBits.RndBits.SetRandomBitfield | app/pktgen-random.c:75-161 | A good mask compiles to the words it dictates bit by bit and enables the slot; an empty one disables it; a rejected one changes nothing; kept over any calls: each slot is as its last accepted call left it |
| RandomBits.RndBits.Configured | app/pktgen-random.c:75-161 | Whatever calls were made on a zeroed structure, a slot is active if and only if its last accepted mask is not empty, and an active slot holds that mask |
| RandomBits.MasksAreDisjoint | app/pktgen-random.c:91-130 | The three source masks are pairwise disjoint at every position, and one has the bit exactly where the character is not '.' (the comment there says exactly one, whatever the character) |
| RandomBits.ConvertBitfield | app/pktgen-cmds.c:32-56 | The loop prints, position by position, what the three words say |
| RandomBits.PrintRoundTrip | app/pktgen-cmds.c:32-56 | Printing a compiled mask gives it back, upper-cased and padded with '.' to 32 |
| RandomBits.RecompileIsIdentical | app/pktgen-random.c:122-157 | Recompiling the printed text gives identical and, or and random words |
| RandomBits.UntouchedSlotPrintsZeros | app/pktgen-random.c:52-57 | The initial '?' mask is rejected, and an untouched slot prints as zeros |
| RandomBits.SlotBit | app/pktgen-random.c:198-214 | One slot on memory of either byte order: each covered bit is and-ed, or-ed and merged with its random bit, others unchanged |
| RandomBits.ApplyToPacket | app/pktgen-random.c:192-221 | The in-place loop over the active bits is the 32 slots applied in order |
| RandomBits.ApplyRefinesBits | app/pktgen-random.c:176-223 | Each packet bit takes the value dictated by the highest-numbered active slot covering it with a character other than '.'; a bit no slot names is unchanged |
| RandomBits.RndBitsApply | app/pktgen-random.c:176-223 | Every packet of the burst gets every active slot, with its own draws from the stream |
| RandomBits.DrawnAfterSlots | app/pktgen-random.c:188-221 | The slots below k draw one word for each active one whose mask has an 'X', and for no other |
| RandomBits.StreamWordsAreDistinct | app/pktgen-random.c:188-221 | With R such slots, slot k of packet j uses word j * R + (such slots below k), so no two uses share a word |
| RandomBits.BurstBitDecided | app/pktgen-random.c:176-223 | In a whole burst, a bit that a slot decides gets what its mask dictates with that word of the stream |
| RandomBits.BurstBitUnnamed | app/pktgen-random.c:176-223 | In a whole burst, a bit that no slot names stays as it was |
| Xorshift.Generator.Next | app/xorshift64star.h:40-49 | One call: the next state and the product as output |
| Xorshift.FirstOfSeedOne | app/xorshift64star.h:40-49 | From state 1: the next state 0x2000001 and its output 0x47E4CE4B896CDD1D |
| Xorshift.NextOfHighestBit | app/xorshift64star.h:43-47 | Where the highest bit goes: bits 63, 51, 36 and 24 |
| Xorshift.UpdateIsBijection | app/xorshift64star.h:43-47 | The state update has an inverse on both sides |
| Xorshift.OutputDeterminesState | app/xorshift64star.h:48 | The multiplier's inverse modulo 2^64 turns an output back into the state |
| Xorshift.RunsNeverCollide | app/xorshift64star.h:40-49 | Distinct seeds give distinct states and distinct outputs at every step |
| Xorshift.ZeroOnlyFromZero | app/xorshift64star.h:43 | A run reaches the zero state only from the zero seed |
| Capture.CaptureBuffer.Enable | app/pktgen-capture.c:88-125 | Empties the log and zeroes the first header and the one at the end of the zone, nothing between them; a no-op when already capturing |
| Capture.CaptureBuffer.CaptureBulk | app/pktgen-capture.c:246-293 | Appends exactly the packets before the first that does not fit; the zone's first tail bytes stay the encoding of the log, used = tail, and the two bytes where the next pkt_len would be are 0 |
| Capture.AppendedIsLongestPrefix | app/pktgen-capture.c:256-288 | Those are the longest prefix of the bulk that fits, unchanged and in order |
| Capture.FieldsAt | app/pktgen-capture.c:178-194 | Record k's fields read back from the bytes are the ones stored, and the next record starts where the reader looks |
| Capture.DumpZone | app/pktgen-capture.c:178-210 | The reader's loop yields the records in order up to the first zero length |
| Capture.CaptureBuffer.Disable | app/pktgen-capture.c:136-225 | Switching off dumps the log if it has packets and ends capturing |
| Capture.DumpKeepsRecords | app/pktgen-capture.c:180-194 | A dump is a prefix of the log, and all of it if and only if no stored length is 0 |
| Capture.SessionRoundTrip | app/pktgen-capture.c:246-293 | After an enable and any bulks: every record has the first data_len bytes of a packet given, its pkt_len in 16 bits (either length taken as 128 if 0) and its time in 64 bits; the records lie inside the zone at 12 + data_len bytes each; and the dump is exactly them if and only if none has length field 0 |
| Capture.OneBulkIsDumped | app/pktgen-capture.c:246-293 | With lengths in 1..65535, a session of one bulk dumps exactly the bytes and lengths of its longest prefix that fits |
| Capture.NextBulkIsDumped | app/pktgen-capture.c:246-293 | Each further bulk adds exactly the bytes and lengths of its longest prefix that fits in what is left |
| Capture.WholeMultipleIsLost | app/pktgen-capture.c:178-194 | A burst of one packet with pkt_len 65536 is stored as one record and dumped as nothing |
| Checksum.FoldIsResidue | app/pktgen-udp.c:59-90 | Folding keeps the sum modulo 65535 and gives 0 only for 0 |
| Checksum.AcceptedIff | app/pktgen-udp.c:59-90 | A receiver accepts exactly the positive multiples of 65535 |
| Checksum.ChecksumIsAccepted | app/pktgen-udp.c:59-90 | A positive sum plus its checksum, or all ones in place of zero, is accepted |
| Checksum.PaddedWithZero | app/pktgen-udp.c:59-90 | An odd last byte is summed as if a zero byte followed (RFC 1071, section 4.1) |
| Checksum.Rfc1071Example | app/pktgen-udp.c:59-90 | The numerical example of RFC 1071, section 3 |
| Headers.EtherHdrCtor | app/pktgen-ether.c:26-99 | The first flag set of VLAN, MPLS, Q-in-Q decides the tag; its bytes, the addresses and ether_hdr_size, and nothing beyond it changes |
| Headers.L4HdrCtor | app/pktgen-udp.c:27-91 | The UDP and TCP constructors: header fields, and without offload a checksum a receiver accepts over the half-built IP header, which for UDP is never the 0 that means none |
| Headers.BuildL4 | app/pktgen-tcp.c:28-89 | The L4 header fields with a zero checksum; TCP stores the low eight flag bits; UDP to the VXLAN port over IPv4 gets its eight VXLAN bytes |
| Headers.Ipv4Ctor | app/pktgen-ipv4.c:32-59 | The header zeroed and rebuilt: the same length, protocol and addresses, the next ident, a valid header checksum without offload |
| Headers.HeaderChecksum | app/pktgen-ipv4.c:56-58 | Storing the computed checksum makes the header sum acceptable |
| Headers.Ipv6Ctor | app/pktgen-ipv6.c:28-47 | The header zeroed and rebuilt with the same length, protocol and addresses |
| Headers.ChecksumDelivers | app/pktgen-tcp.c:56-88 | Filling a zero field with the checksum of pseudo-header and segment makes the receiver's sum acceptable |
| Headers.RebuiltHeaderDelivers | app/pktgen-ipv4.c:32-59 | Rebuilding the IP header keeps the L4 checksum valid |
| Headers.PacketCtor | app/pktgen.c:481-622 | The finished IPv4 or IPv6 TCP or UDP packet carries the template's addresses, type and tag, all its IP fields, and its L4 fields; total length equals pkt_size; without offload both checksums pass a receiver's check, with it the field is what the device needs; bytes beyond the headers unchanged |
| Receiver.UntaggedParsed | app/pktgen-ether.c:26-99 | A receiver reads both addresses and the IP type at 12 of a frame without tag |
| Receiver.VlanParsed | app/pktgen-ether.c:26-60 | Of a VLAN frame it reads 0x8100, the identifier in the low twelve bits, the class of service in the top three, and the IP type at 16 |
| Receiver.TciAsIs | app/pktgen-ether.c:26-60 | An identifier above 4095 goes out as it is, its top bits included, where the class of service does not disagree |
| Receiver.MplsParsed | app/pktgen-ether.c:26-99 | Of an MPLS frame it reads 0x8847 and the template's entry, with the bottom-of-stack bit set |
| Receiver.QinqParsed | app/pktgen-ether.c:26-99 | Of a Q-in-Q frame it reads 0x88A8, the outer identifier, 0x8100, the inner identifier and the IP type at 20 |
| Receiver.Ipv4Parsed | app/pktgen-ipv4.c:32-59 | Version, header length, type of service, total length, ident, no fragment, time to live, protocol and both addresses, each at its offset |
| Receiver.Ipv6Parsed | app/pktgen-ipv6.c:28-47 | Version, traffic class, no flow label, payload length, protocol, hop limit and both addresses, each at its offset |
| Receiver.TcpParsed | app/pktgen-tcp.c:28-56 | Source port, destination port, sequence and acknowledgement number, header length, flags, window 8192 and urgent pointer 0, each at its offset |
| Receiver.UdpParsed | app/pktgen-udp.c:27-91 | Source port, destination port and length, and the eight VXLAN bytes behind the header |
| Receiver.Ipv4SumsUp | app/pktgen-udp.c:27-68 | With the checksum in software: the addresses, protocol, L4 length and segment that a receiver reads from an IPv4 packet sum to a positive multiple of 65535, UDP's field is not 0, and without offload the header sums up too |
| Receiver.Ipv6SumsUp | app/pktgen-udp.c:69-91 | The same of an IPv6 packet, without a header checksum |
| Receiver.OffloadParsed | app/pktgen-udp.c:59-66 | With offload the field is 0, or on IPv4, for a device that asks for it, the folded sum of addresses, protocol and L4 length |
| Receiver.PlainPacketParsed | app/pktgen.c:481-622 | Of a finished IPv4 packet without tag: lengths, addresses and ports at their offsets, with the VXLAN port in VXLAN mode over UDP |
| TcpWire.WordReachesTheWireIff | app/pktgen-tcp.c:50-52 | The twelve bits behind the data offset are the template's flag word if and only if it is below 256 |
| TcpWire.FlagsReachTheWireIff | app/pktgen-tcp.c:50-52 | They carry exactly the flags 0..7 of any flags, so all of them if and only if none of rs0..rs3 is set |
| TcpWire.ReservedFlagIsLost | app/pktgen-cmds.c:2791-2817 | "rs0,syn" parses to 2050 and the header carries 2 |
| CliNodes.Cli.constructor | lib/cli/cli.c:798-865 | cli_init's pool: every node free in order, the path empty |
| CliNodes.Cli.CreateRoot | lib/cli/cli.c:755-775 | The root directory is the only node without a parent, and the whole path |
| CliNodes.Cli.SetCwd | lib/cli/cli.h:390-394 | Any node of the pool replaces the first entry of the path |
| CliNodes.Cli.Refill | lib/cli/cli.c:181-219 | An empty free list grows by one chunk of 256 exactly when unlimited and memory can be had |
| CliNodes.Cli.AddNode | lib/cli/cli.c:342-412 | The head of the free list becomes the named node at the head of its parent's items, or nothing changes; which one, exactly; for any node of the pool as parent, and the pool stays well formed if the parent is missing or a live directory |
| CliNodes.AcceptedNodes | lib/cli/cli.c:352-381 | What an accepted node looks like: only the root directory and string nodes lack a parent, and what functions each kind may have |
| CliNodes.KeptName | lib/cli/cli.c:385-411 | The node's name is the first 63 characters of the one given |
| CliNodes.Cli.AddBin | lib/cli/cli.c:228-261 | Appends a directory unless an entry has its name or the path is full; the return codes; on any path without holes |
| CliNodes.Cli.DelBin | lib/cli/cli.c:263-285 | Takes the first entry of the directory out and closes the gap, in order; the return codes; on any path without holes |
| CliNodes.Cli.RemoveNode | lib/cli/cli.c:303-340 | For any node of the pool: refuses the root; of a live node terminates, returns exactly the subtree to the tail of the free list, the node last, unlinks it from its parent, leaves every other node as it was, and takes one entry of each freed directory out of the path, whatever the path names; of a free node changes, besides the path, the free list alone, to what its links then give |
| CliNodes.FreedAgainKeepsTreeIff | lib/cli/cli.c:303-340 | Freeing a free node keeps the pool well formed if and only if it is not the last of the free list |
| CliNodes.UnlinkKeepsIff | lib/cli/cli.c:333-339 | Unlinking an emptied node and appending it to the free list, as on sequences, keeps the pool well formed if and only if it was not free |
| CliNodes.FreeWorkingDirectoryTwice | lib/cli/cli_cmds.c:556-571 | From root, /sbin and /pktgen/bin on the path: mkdir, cd and rm of a new directory, cd and rm of /pktgen/bin, and "rm ." leave a pool that is not well formed |
| TailQueue.LinkNodeMoves | lib/cli/cli.c:181-212 | Link by link, taking the head of the free list to the head of the items is that on sequences |
| TailQueue.FreeNodeMoves | lib/cli/cli.c:333-339 | Taking a node off the items to the tail of the free list is that on sequences, if it is among the items |
| CliNodes.AddedLinks | lib/cli/cli.c:385-411 | If the links are those of the pool, all its lists at once, then after __add_node has moved the node they are those of the pool with the node at the head of its parent's items |
| CliNodes.RemovedLinks | lib/cli/cli.c:325-339 | And after cli_remove_node has freed an emptied live node, those of the pool without it among its parent's items and with it at the tail of the free list |
| TailQueue.FreedAgain | lib/cli/cli.c:221-226 | Of a node on the free list: it goes to the tail, or, if it was the last, off the list, whose tail pointer then leads nowhere on it; the queue stays a queue if and only if the node was not the last |
| TailQueue.LaterFreesAreLost | lib/cli/cli.c:221-226 | After that, following the list from its head never reaches a node that is freed later |
| CliTree.LinkKeeps | lib/cli/cli.c:385-411 | Linking keeps the partition into free list and trees |
| CliTree.UnlinkKeeps | lib/cli/cli.c:333-339 | Unlinking and freeing an emptied node keeps it |
| CliTree.EmptyingStep | lib/cli/cli.c:315-323 | Removing the first item's subtree leaves the rest of the items and takes only nodes below the directory |
| CliTree.EmptyingDone | lib/cli/cli.c:315-340 | When the items are gone, exactly the nodes below the directory were freed |
| CliNodes.PoolIsPartitioned | lib/cli/cli.c:181-226 | Free nodes plus tree nodes are nb_nodes, and no node is both |
| CliNodes.FreeOrBelowRoot | lib/cli/cli.c:181-412 | With one root, a node is not free if and only if it lies below the root |
| CliNodes.RemoveKeepsRoot | lib/cli/cli.c:303-340 | A removal keeps the single root and removes exactly the ids below the node from the tree |
| CliNodes.AddKeepsRootIff | lib/cli/cli.c:352-381 | An add keeps the single root if and only if the node has a parent |
| CliNodes.AddKeepsTreeIff | lib/cli/cli.c:342-412 | An add keeps the pool well formed if and only if the parent is missing or is a live directory |
| CliNodes.LostUnderACommand | lib/cli/cli_cmds.c:543-571 | A directory made under a command that is then removed is neither free nor listed by any live node |
| CliPath.CountAfterFrees | lib/cli/cli.c:263-340 | Freeing distinct nodes takes exactly one entry of each freed directory that the path names |
| CliPath.NamesFreedIff | lib/cli/cli.c:303-340 | After a removal the path names a freed node if and only if it named a freed directory at least twice, or a freed node that is no directory |
| CliPath.CdThenRmLeavesFreed | lib/cli/cli_cmds.c:105-123 | Going to a directory of the path and removing it, or one above it, leaves the path naming it |
| CliPath.CdToCommandThenRm | lib/cli/cli_cmds.c:105-123 | So does going to a command and removing it |
| CliPath.CdThenRm | lib/cli/cli_cmds.c:105-123 | Going to a directory and removing it with its commands takes the entry that cd wrote, and no other |
| CliPath.CdThenRmOfBin | app/cli-functions.c:2128-2157 | With root, /sbin and /pktgen/bin on the path, "cd /pktgen/bin" and "rm /pktgen/bin" leave /sbin and the freed directory |
| CliPath.FreesTakeAll | lib/cli/cli.c:263-340 | On a path of live directories without repeats, freeing nodes takes exactly their entries away, in order, and leaves such a path |
| CliPath.CdKeepsPathIff | lib/cli/cli.h:390-394 | Going somewhere keeps such a path if and only if the place is a live directory whose name no later entry has |
| RangeMode.RangeCtor | app/pktgen-range.c:26-229 | Every stepped field of the template takes its next value on its own, the others keep theirs; the VLAN latch |
| RangeMode.Step | app/pktgen-range.c:79-90 | The repeated branch: increment in the temporary's width, wrap below min to max and above max to min, fixed start when the increment is 0 |
| RangeCycle.StaysInBounds | app/pktgen-range.c:79-90 | From the first packet on a swept field is in [min, max], whatever wraps |
| RangeCycle.CyclesIff | app/pktgen-range.c:117-127 | Stepping walks the grid and returns to min if and only if the step past the last grid value does not wrap, wraps onto min, or the grid has one value |
| RangeCycle.CycleValue | app/pktgen-range.c:79-90 | From grid value j, the k-th value is min + ((j + k) mod p) * inc |
| RangeCycle.JoinsGrid | app/pktgen-range.c:79-90 | From any value in bounds, on the grid or off it, the field climbs past max once and then follows the grid from min |
| RangeCycle.RepeatsIff | app/pktgen-range.c:79-90 | The starting value shows again exactly at the multiples of the period |
| RangeCycle.FixedFromTheFirst | app/pktgen-range.c:79-96 | With increment 0 the field is the start value from the first packet on, whatever it was |
| RangeSweep.FieldsAreIndependent | app/pktgen-range.c:26-229 | Over any run every field moves as if it were alone |
| RangeSweep.FieldsStayInBounds | app/pktgen-range.c:26-229 | Every stepped field of the template stays in its bounds, latch or no latch |
| RangeSweep.FirstVlanStep | app/pktgen-range.c:131-150 | The first step of a VLAN identifier of 1 is skipped, once |
| RangeSweep.OtherVlanSteps | app/pktgen-range.c:131-150 | No step of another identifier is, and none of them sets the latch |
| RangeSweep.OtherProtocols | app/pktgen-range.c:26-100 | Sequence and acknowledgement number move for TCP only, and nothing moves for a protocol other than TCP and UDP |
| RangeSweep.LcmExists | app/pktgen-range.c:26-229 | The periods have a least common multiple, so the repeat is reached |
| RangeSweep.TupleRepeatsIff | app/pktgen-range.c:26-229 | The joint tuple is back exactly after the common multiples of the periods |
| RangeSweep.TupleRepeatsAtLcm | app/pktgen-range.c:26-229 | It first repeats after exactly the least common multiple, and then at its multiples only |
| RangeSweep.WrapLeavesTheGrid | app/pktgen-range.c:117-127 | An address range that wraps past 2^32 onto 9, which is not on its grid |
| RangeSweep.NarrowFieldsDoNotWrap | app/pktgen-range.c:65-229 | Ports, tags, time to live, sizes and MAC addresses are stepped in a wider temporary: past max they go to min, however close max is to the field's limit |
| RangeSweep.WordFieldsWrap | app/pktgen-range.c:29-127 | Sequence and acknowledgement numbers and addresses are stepped modulo 2^32 before they are compared with the bounds |
| PortModes.CommandIsSound | app/pktgen-cmds.c:1161-1168 | Every mode command, access by access and whatever workers clear in between, passes only exclusive states and ends at rest |
| PortModes.SeqCntIsSound | app/pktgen-cmds.c:2524-2538 | The sequence-count command from any exclusive state: the count is clamped to 16, SEQ only with a count of at least 1 |
| PortModes.TunnelSwitch | app/pktgen-cmds.c:1887-1918 | The VxLAN, VLAN, MPLS and GRE commands swap tunnels one at a time and keep a send mode on |
| PortModes.QinqIsSound | app/pktgen-cmds.c:2114-2124 | The Q-in-Q command, which clears both groups first |
| PortModes.RangeIsSound | app/pktgen-cmds.c:3091-3107 | The range command, refused while sending |
| PortModes.ResetIsSound | app/pktgen-cmds.c:2420-2452 | Reset, although it zeroes seqCnt while SEQ may still be on |
| PortModes.SoundForModes | app/pktgen.h:504-513 | Worker clears of bits that are no modes cannot disturb a command in progress |
| PortModes.ModesStayConsistent | app/pktgen-cmds.c:1161-1168 | In every reachable state at most one of VLAN, MPLS, Q-in-Q, GRE, GRE-Ethernet, VxLAN and at most one of PCAP, RANGE, SEQ; between commands a send mode is on and SEQ implies 1 <= seqCnt <= 16 |
| PortModes.ModesBitByBit | app/pktgen-cmds.c:1161-1168 | The same flag by flag, each group spelled out |
| PortModes.NoModeInsideACommand | app/pktgen-cmds.c:2524-2538 | In the middle of a command no send mode need be on |
| PortCommands.PortInfo.EnableVlan | app/pktgen-cmds.c:1910-1918 | For this and its eleven siblings: which mode bits are on afterwards, which bits and whether seqCnt are untouched, that flags and seqCnt end as the access-by-access program leaves them, and that a port at rest stays at rest; here: VLAN is the one packet mode, the single mode is on, PCAP, RANGE and SEQ are as before |
| PortCommands.OnlyTunnelFlag | app/pktgen-cmds.c:1910-1918 | After a tunnel command every other packet mode is off, and the stream and sending flags are as before |
| PortCommands.OnlySendModeFlag | app/pktgen-cmds.c:1161-1168 | After a send mode command every other send mode is off, and every other flag is as before |
| PortCommands.PortInfo.ResetPort | app/pktgen-cmds.c:2420-2452 | Reset, whose parts in turn are its program: single mode alone, seqCnt 0, neither sending nor latency, the tunnel as before |
| PortCommands.CommandKeepsAtRest | app/pktgen-cmds.c:1160-1168 | Run alone, every command leaves a port at rest that was at rest |
| PortCommands.StartAlone | app/pktgen-cmds.c:1255-1276 | A start with no worker in between: nothing on a port that is sending, else SENDING_PACKETS, with SEND_FOREVER if asked for, and no set-up request left |
| PortCommands.StopAlone | app/pktgen-cmds.c:1284-1295 | A stop clears both sending flags of a port that is sending, and changes nothing else |
| PcapReplay.PcapFile.constructor | app/pktgen-pcap.c:237-262 | The file header |
| PcapReplay.PcapFile.WriteMbuf | app/pktgen-pcap.c:271-295 | Appends one record: the file is that of the packets written so far |
| PcapFormat.WordBack | app/pktgen-pcap.c:37-46 | A field written in either order reads back when converted exactly if swapped |
| PcapFormat.RecordInFile | app/pktgen-pcap.c:271-295 | The k-th record's bytes lie right after the records before it |
| PcapReplay.FileHeaderBytes | app/pktgen-pcap.c:237-262 | The 24 bytes of the file header, one by one |
| PcapFormat.RecordHeaderBytes | app/pktgen-pcap.c:271-295 | A record header has no time and the packet's length twice, least significant byte first |
| PcapReplay.PcapInfo.GetInfo | app/pktgen-pcap.c:57-112 | On any bytes: short header, bad magic, division by zero or opened, and then count, greatest and floor-average length, byte order, header fields, rewound |
| PcapReplay.PcapInfo.FillMbuf | app/pktgen-pcap.c:114-138 | On any bytes: the next record, after a rewind if no whole header is left, its data cut at the end of the file, data_len in 16 bits |
| PcapReplay.HeaderFields | app/pktgen-pcap.c:73-81 | The header fields come out the same in either byte order |
| PcapReplay.WrittenFileOpens | app/pktgen-pcap.c:57-112 | A written file, or its byte-swapped copy, opens if and only if it has a packet, and the first pass sees exactly its packets' lengths |
| PcapReplay.LoadsRecord | app/pktgen-pcap.c:114-138 | From a record's start the mbuf gets that packet, from the end of the file the first |
| PcapReplay.FillPool | app/pktgen-pcap.c:195-209 | The pool of m mbufs is the cyclic replay, in either byte order |
| PcapReplay.ReplayIsCyclic | app/pktgen-pcap.c:114-138 | Mbuf i holds packet i mod n, its pkt_len the packet's length and its data_len that in 16 bits |
| Latency.LatencyRing.Insert | app/pktgen.c:306-313 | Appends to the insertions the ring holds |
| Latency.HoldsRecent | app/pktgen.c:306-313 | Wherever head is, the filled part is, as a multiset, the last min(n, 1024) insertions |
| Latency.RecentOf | app/pktgen.c:306-313 | The recent insertions are the last 1024, or all of fewer |
| Latency.LatencyRing.Percentile | app/pktgen-latency.c:214-236 | Copy, sort and interpolate give the quantile of the recent insertions |
| Quantiles.QuantileOfMultiset | app/pktgen-latency.c:214-236 | The quantile depends only on the multiset of samples |
| Quantiles.QuantileMonotone | app/pktgen-latency.c:226-235 | It is monotone in q, so p90 <= p95 <= p99 |
| Quantiles.QuantileBetweenExtremes | app/pktgen-latency.c:226-235 | It lies between the least and the greatest sample |
| Quantiles.QuantileRank | app/pktgen-latency.c:226-235 | Samples up to its position are no larger, those beyond no smaller |
| Quantiles.QuantileOfEvenly | app/pktgen-latency.c:226-235 | Of evenly spaced samples the quantile is the exact value at its position, rounded down |
| Quantiles.PositionIsLinear | app/pktgen-latency.c:226-228 | The position goes linearly from 0 at q = 0 to the last index at q = 1 |
| Quantiles.BetweenTwo | app/pktgen-latency.c:226-235 | Of 10 and 21 the median is 15 and the 90th percentile 19 |
| TcpFlags.StrFromFlags | app/pktgen-cmds.c:2819-2853 | Succeeds exactly when the length test passes for every name, and then the text is the names joined, or "clr" |
| TcpFlags.FlagsFromStr | app/pktgen-cmds.c:2791-2817 | The flags that the first 127 characters' fields, at most 16, give in turn |
| TcpFlags.OnlyAfterLastClr | app/pktgen-cmds.c:2804-2808 | Fields up to a "clr" do not matter |
| TcpFlags.PrintedFlagsParse | app/pktgen-cmds.c:2791-2853 | For every good table, a successful print into at most 128 bytes parses back to the masked flags |
| TcpFlags.TcpFlagsRoundTrip | lib/common/pg_inet.h:177-203 | For TCP's own table 52 bytes are always enough, and the round trip holds for every flag word |
| TcpFlags.StandardBit | lib/common/pg_inet.h:177-203 | Each of the eight standard names stands for its bit of RFC 9293 |
| SeqFill.SeqPort.SetupMbuf | app/pktgen.c:811-821 | The template taken and the next index, below 16 |
| SeqFill.SeqPort.FillPools | app/pktgen.c:906-912 | Consecutive pools are filled as one |
| SeqFill.RoundRobin | app/pktgen.c:813-819 | From seqIdx below seqCnt the m-th template is (seqIdx + m) mod seqCnt |
| SeqFill.FillIsFair | app/pktgen.c:813-821 | m mbufs use each template floor(m / seqCnt) times, and the next m mod seqCnt templates once more |
| SeqFill.FillGoesOn | app/pktgen.c:906-912 | A pool goes on where the one before it ended |
| SeqFill.IdxStaysATemplate | app/pktgen.c:813-819 | seqIdx stays below 16 however seqCnt changes between mbufs |
| SeqFill.BeyondCountOnce | app/pktgen.c:813-819 | A seqIdx beyond a shrunken seqCnt is used once and then the fill starts over |

## Left out

- Weak memory: atomic accesses are sequentially consistent, as the compare-and-set operations are used.
- Two control threads on one port, and several lcores capturing into one buffer: the code takes no lock there, so one writer is assumed.
- GRE headers (they add to ether_hdr_size instead of setting it), GTP-U, ICMP and ARP packets, source-port entropy written after the checksum, random source address and port.
- VXLAN header contents: the eight bytes are arbitrary; pktgen.c shifts the identifier after htonl, which misplaces it on a little-endian host.
- VxLAN and GTP-U fields of range mode, IPv6 ranges, and the conversion of MAC addresses, which are 48-bit numbers here.
- Latency probe scheduling, jitter, and the rounding of floating-point arithmetic.
- What the CLI does with a pool that is no longer well formed, beyond what the free list then loses.
- Path lookup (cli_add_dir, cli_find_node), the command map registry and cli_env: lists without the node pool's invariants.
- TcpFlags.PrintedFlagsParse: names are not empty; an empty last name would print a trailing comma, which the field splitter drops.
- RangeSweep.TupleRepeatsAtLcm: is stated with the VLAN latch already taken; before that one extra VLAN step from 0 is possible.
- PcapReplay.FillPool: takes the pool size as given and a file that the first pass opened; packet buffers are large enough.
- Display pages, themes, Lua bindings, command dispatch, device setup, memory pools, threads and the statistics pages.
