# orbshred: a verified model

orbshred measures how fast several Solana shred sources deliver. This project
models its two halves in Dafny and proves what they promise.

**The packet path.** A raw Ethernet frame meets a 21-instruction classic-BPF
filter in the kernel, then a userland parser that decides the same questions
again, then the shred parser, then routing by source address. The filter is
proved against a declarative reading of the headers (section 3.1 of RFC 791,
RFC 768, IEEE 802.1Q) for every frame and port, and the two parsers are proved
to agree up to the length checks that only userland makes.

**The measurement path.** Sources offer events to bounded channels; one
aggregator takes them in any order, filters them and records them; statistics,
log file and plot are computed from the tables. The program state is a class
(`Bench`) whose handlers refine a transition system (`Aggregator`). The theorems
hold in every state that any sequence of steps reaches. The registry's three
tables are proved to be an exact index of the history of recorded events, and
everything `compute_stats` returns, shred by shred and slot by slot, is proved
to be a function of that history (`Report.ComputeStats`), up to the order of
the samples. What depends on the order of recording, and exactly when it does
not, is the subject of `Order`. Some times are kernel stamps on the wall clock and
others instants read in userland; when that matters is the subject of `TwoClocks`.

| file | subject |
|---|---|
| Sequences, Keyed, Bytes | counting, filtering, minima, sorting; listings of a table; words, bytes, masks |
| BpfFilter, Pcap, Shred | the filter and its interpreter, the frame parser, the shred key |
| Capture | routing a frame to sources, grouping sources onto sockets |
| Registry | events, drop counters, the registry |
| Stats, Replay, Report | the tallies; the tallies as functions of the recorded events; compute_stats as a whole |
| Wins, Order, Shifts | what a win and a latency mean; dependence on the order of recording; on the origin of the monotonic clock |
| ClockAnchor, TwoClocks | wall-clock stamps as instants; what mixing them with userland instants does to latencies |
| LogFile, TableFormat | the log and the plot's first-arrival counts; number formatting |
| F64, RankF64, Percentile | doubles and rounding; the rank computed in doubles; percentiles |
| Aggregator, Bench | the transition system and the object that refines it |
| Delivery | from what a channel accepted to what a record holds |
| EndToEnd | from produced events to printed counts |
| Yellowstone | the pruned entry index |

Conventions. An instant is an integer number of nanoseconds; `duration_since`
saturates at zero; `as u64` is a remainder modulo 2^64 wherever the source
writes it. A hash map is enumerated in an arbitrary order, which is an argument
(`entries`); `Report` lists the maps itself. Percents are in tenths. The
machine's rounding of reals to doubles is an argument `fl`, any function that
rounds to a nearest double (`F64.RoundsToNearest`); `F64.RoundingExists` shows
that there is one. The test interpreter's panics are outcomes; an out-of-bounds
load reads as a drop in the kernel. A statement that would fail for distances of 2^64 ns (584 years) or
more asks for shorter ones (`WithinU64`).

## Where the code and its documentation differ

- The repository's README.md:83-87 and src/stats.rs:20-21 call a latency the distance to the fastest
  source, and a win the shred's first delivery. The code measures against the
  first *recorded* arrival and saturates. `Wins.WinExactly` states exactly when
  the win, and when the latency, is nevertheless the documented one;
  `Wins.BeatenSourceMayWin` gives a source that lost by 5 ns and is credited
  with the win. A source's wins and latencies are the same for every order of
  recording the same events exactly when it ties the earliest arrival of every
  shred it delivered: `Order.LatencyOrderFree` for one shred,
  `Order.WinsOrderFree` for all. `Wins.TimeOrderedWins` and
  `Order.WinsIgnoreOrderWhenEarliestFirst` say what holds when each shred's
  earliest arrival is recorded first.
- src/registry.rs:71 documents `first_shred_at` as the earliest shred arrival. A
  slot event recorded first seeds it: `Registry.FirstShredAtExact` is the exact
  condition, `Registry.FirstShredAtMayPrecedeShreds` an input where it fails.
  `Order.FirstShredAtOrderFree` and `Order.SlotLatencyOrderFree` state exactly
  when it, and the slot latencies, do not depend on which event came first.
- src/sources/bpf_filter.rs:9-12 says the filter accepts UDP to a port. It also
  passes frames too short or malformed for userland:
  `Pcap.UserlandRejectsOnlySizes` says exactly which,
  `Pcap.KernelPassesHeaderlessFrame` is one.
- A configured `start_slot` makes the recorded events depend on the order of
  arrival: `Aggregator.RecordingIgnoresOrder` states when they do not, as a
  condition on the configuration and the events (`OrderFree`), which
  `Aggregator.OrderFreeMeans` spells out; without a start slot it always holds.
  `Aggregator.MissedStartDependsOnOrder` gives two orders that differ.
- plot.py:52-56 counts first arrivals by source name. Two sources may be
  configured with one name (src/main.rs:49-51); they then share a bar, which may
  exceed the wins of each: `LogFile.SharedNameExceedsWins` is an input,
  `LogFile.PlotWithinWins` the bound that holds for every name. For no log is a
  source shown more first arrivals than it won exactly when its name in the
  configuration is its own: `LogFile.OwnNameExactly`.
- src/stats.rs:32 calls a slot latency the distance to the slot's first shred.
  `Order.SlotLatencyExact` states exactly when it is.
- src/sources/kernel_ts.rs:22-23 promises instants comparable with `Instant::now()`
  elsewhere. Only kernel-stamped shreds go through the anchor; slot events
  (src/sources/yellowstone.rs:156, src/sources/jito.rs:453) and shreds without a
  kernel stamp (src/sources/pcap.rs:277-279, src/sources/kernel_ts.rs:160,
  src/sources/kernel_ts.rs:266) are read off the other clock, so what the anchor
  captured can enter a latency. `TwoClocks.MixedClocksMoveWins` and
  `TwoClocks.AnchorMovesSlotLatency` are inputs whose win and slot latency
  depend on it. Which wins and latencies do not is stated exactly: for all
  anchors by `TwoClocks.WinsAnchorFree` and `TwoClocks.SlotsAnchorFree`, for two
  given offsets by `TwoClocks.LatencySameUnder` and `TwoClocks.SlotLatencySameUnder`.
- src/stats.rs:68-74 computes a percentile's index in doubles. At 41,000 samples
  `41000.0 * 99.9 / 100.0` rounds up past 40,959 and p99.9 is the sample after
  the right one (`RankF64.RankTooHigh`). `RankF64.LastRankExactly` states exactly
  at which lengths that happens, `Percentile.LastPercentileExactly` that p99.9 is
  otherwise the nearest-rank value; at whole percents it always is
  (`RankF64.WholeRank`).
- src/sources/pcap.rs:251 receives into 2,048 bytes, so frames up to the 65,527
  payload bytes that UDP can announce do not all come through:
  `Pcap.ReceivedRoundTrip` states which do.

## Model

| member | source | states |
|---|---|---|
| BpfFilter.RunCbpf | src/sources/bpf_filter.rs:112-162 | the interpreter loop returns the outcome that the instruction semantics define, for any program and packet, and stops |
| BpfFilter.StopsWithinLength | src/sources/bpf_filter.rs:112-162 | any program executes at most as many instructions as lie from its start to its end: jumps only go forward |
| BpfFilter.FilterVerdict | src/sources/bpf_filter.rs:48-94 | for every port and frame the filter loads out of bounds exactly when the frame ends before a field it needs, accepts exactly untagged or single-tagged IPv4 UDP with fragment offset 0 to the port, drops the rest, within 13 instructions; no unknown opcode, never off the end |
| BpfFilter.KernelPassesWanted | src/sources/bpf_filter.rs:35-47 | with out-of-bounds loads read as drops, the kernel passes exactly the wanted frames |
| BpfFilter.KernelKeeps | src/sources/bpf_filter.rs:90-92 | the return value is also how many bytes are kept: of a frame that passes, the first 65,535 |
| BpfFilter.Step | src/sources/bpf_filter.rs:117-161 | an instruction that does not end the program moves forward |
| Bytes.BitAndBits | src/sources/bpf_filter.rs:139-145 | the interpreter's conjunction, bit by bit: a bit of the result is set exactly if it is set in both words |
| Bytes.BitIsDigit | src/sources/bpf_filter.rs:139-145 | where bit k of a word is its quotient by 2 to the k, modulo 2 |
| Pcap.Ihl | src/sources/pcap.rs:97 | the masked header length is four times the low nibble |
| Pcap.FragmentOffset | src/sources/pcap.rs:100 | the masked fragment offset is the word modulo 2^13 |
| Pcap.PayloadExactly | src/sources/pcap.rs:92-109 | userland finds a payload exactly in unfragmented UDP over IPv4 whose header lengths and UDP length fit the frame |
| Pcap.PayloadBytes | src/sources/pcap.rs:92-109 | for every frame and buffer: userland reads that buffer exactly if the frame is unfragmented UDP over IPv4 that fits, and the buffer is the bytes from 8 past the start of the UDP header on, as many as the UDP length says beyond 8, whatever the flags and options |
| Pcap.SourceBytes | src/sources/pcap.rs:84-90 | for every frame and address: userland reads that address exactly if it is the four bytes from 12 past the start of the IPv4 header on |
| Pcap.ReceivedPayload | src/sources/pcap.rs:251-291 | of a frame on the wire the payload is read exactly if it ends within the first 2,048 bytes |
| Pcap.ReceivedSource | src/sources/pcap.rs:251-289 | the cut to 2,048 bytes changes no source address |
| Pcap.ReceivedPastFilter | src/sources/pcap.rs:251-287 | what the filter keeps of a frame is at least what is received of it |
| Pcap.KernelAgreesOnPayload | src/sources/pcap.rs:70-109 | on any frame with a payload the filter stays in bounds and accepts exactly on the destination port |
| Pcap.UserlandRejectsOnlySizes | src/sources/pcap.rs:94-109 | of the frames the kernel passes, userland rejects exactly those whose lengths do not fit |
| Pcap.KernelPassesHeaderlessFrame | src/sources/bpf_filter.rs:83-88 | a frame with header length 0 that the kernel passes and userland rejects |
| Pcap.BuildFrame | src/sources/pcap.rs:334-365 | the buffer built by successive appends is the frame with those fields |
| Pcap.FrameFields | src/sources/pcap.rs:334-365 | where the parsers look in a built frame they find its address, port, lengths and payload |
| Pcap.FrameRoundTrip | src/sources/pcap.rs:405-420 | for every tag, address, port and payload the address of a whole frame reads back, the payload reads back exactly up to 65,527 bytes, and the filter accepts exactly its own port |
| Pcap.ReceivedRoundTrip | src/sources/pcap.rs:251-291 | of a built frame received into 2,048 bytes the address reads back always, the announced payload if the buffer reaches its end and nothing otherwise, the full payload exactly when the buffer holds the frame |
| Pcap.ShredSurvivesCapture | src/sources/pcap.rs:251-300 | a framed shred of any length passes the filter; after the cut to 2,048 bytes it yields its own key exactly if its slot is not 0 and its announced bytes are at least 83 and inside the buffer, else none |
| Pcap.KeyOfFrame | src/sources/pcap.rs:251-300 | for every frame on the wire and key: capture reads that key exactly if the frame's UDP payload lies in the first 2,048 bytes, is at least 83 bytes long and spells the key byte by byte |
| Shred.TypeIsTopBit | src/shred.rs:25-40 | the two legacy variants change nothing: the top bit decides the type |
| Shred.SameKey | src/shred.rs:51-66 | two parsed shreds have one key exactly when bytes 65 to 76 and the top bit of byte 64 agree |
| Shred.ParsedBytes | src/shred.rs:51-66 | for every buffer and key: parsing yields that key exactly if there are at least 83 bytes, the slot is not 0 and is the sum of the bytes 65 to 72 times 256 to the power of their place, the index likewise of the bytes 73 to 76, and the type is data exactly if byte 64 is 128 or more |
| Bytes.FromLePlaces | src/shred.rs:56-57 | little-endian: a decoded number is the sum over its places k of the byte at k times 256 to the k, for every width |
| Shred.ParseWritten | src/shred.rs:51-66 | parsing returns the fields a shred was written with, and rejects exactly short shreds and slot 0 |
| Capture.AllDelivered | src/sources/pcap.rs:309-311 | offering shreds one after the other fills the channel up to its room, in order, and counts every other one as one drop of its source |
| Capture.Dispatch | src/sources/pcap.rs:301-313 | one event per matching route, in order, as many as there is room for; every other one is one drop of its source |
| Capture.CaptureFrame | src/sources/pcap.rs:251-315 | for what is received of any frame on the wire, not reading the source address when no route filters sends and drops the same events as always reading it |
| Capture.PayloadHasSourceIp | src/sources/pcap.rs:85-109 | every frame with a payload has a source address |
| Capture.IncludeExcludeSplit | src/sources/pcap.rs:112-125 | an include route and an exclude route over one address set split all payload-carrying frames exactly when the set is not empty |
| Capture.RouteMatchesExactly | src/sources/pcap.rs:112-125 | a route matches an address exactly if it is in the include set, or that set is empty, and not in the exclude set; without an address, exactly if both sets are empty |
| Capture.FrameEventsExactly | src/sources/pcap.rs:289-313 | for all routes and every frame on the wire: if it carries a shred, there is one event for each route that wants the bytes of its source address, in route order, each with the frame's key and arrival time; if it carries none, there is no event |
| Capture.IdsCountUp | src/main.rs:151-152 | ids are given out one after the other, one per enabled source |
| Capture.GroupSources | src/main.rs:268-285 | each group holds exactly the enabled sources of its port and interface, in order, and no group is empty |
| Capture.GroupsPartition | src/main.rs:268-301 | each enabled source is in exactly one group and no two share an id |
| Capture.RoutesDistinct | src/main.rs:268-301 | so no capture loop has two routes to one source, as EndToEnd.FramesAccountedFor asks |
| Registry.DropCounters.Inc | src/registry.rs:24-29 | one source's counter goes up by one, no other changes |
| Registry.Registry.constructor | src/registry.rs:90-99 | the empty tables index the empty history |
| Registry.Registry.RecordGrpcLatency | src/registry.rs:101-106 | the tables remain an exact index of the history with the sample appended |
| Registry.Registry.RecordShred | src/registry.rs:108-134 | the same for a shred: all arrivals in order, first recorded arrival as first seen, the slot's minimum |
| Registry.Registry.RecordSlotEvent | src/registry.rs:136-156 | the same for a slot event: one entry per source, its earliest; the slot's first event seeds first_shred_at |
| Registry.FirstShredAtExact | src/registry.rs:69-75 | first_shred_at is the slot's earliest shred exactly when the slot's first recorded event is no earlier than the slot's earliest shred |
| Registry.FirstShredAtMayPrecedeShreds | src/registry.rs:152-155 | a slot event recorded first makes it earlier than every shred |
| Registry.SlotNoLaterThanShreds | src/registry.rs:122-133 | the slot of every recorded shred has a record, no later than any arrival of the shred |
| Stats.TallyOne | src/stats.rs:139-165 | one shred moves one source's tallies to those of the longer enumeration |
| Stats.ComputeSourceStats | src/stats.rs:125-167 | every source's numbers are its counts, sums and latencies over the whole table |
| Stats.ComputeEntryStats | src/stats.rs:170-201 | every entry source's slots seen and latencies over an enumeration of the slot table |
| Stats.ComputeGrpcOverhead | src/stats.rs:203-213 | one row for each entry source that has samples, in the order of the sources, holding exactly its samples and their number |
| Stats.SlotRange | src/stats.rs:113-122 | the printed range is the least and greatest slot, except that the least reads 0 when every slot is the greatest 64-bit number |
| Stats.CountingLaws | src/stats.rs:135-167 | received + missed = shreds, data + code = received, received + dupes = arrivals, one latency per received shred, wins = zero latencies |
| Stats.SlotCountingLaws | src/stats.rs:184-201 | one latency per slot seen, and no more slots seen than the slot table has |
| Wins.FirstSourceWins | src/registry.rs:113-120 | the source recorded first always has delta 0 |
| Wins.EveryShredIsWon | src/stats.rs:161-163 | if every source that sent a shred is active, the wins of all sources are at least the number of unique shreds |
| Wins.WinExactly | src/stats.rs:152-164 | a source wins exactly when its earliest arrival is no later than the first recorded; that credit is right exactly if it ties the earliest arrival or is later than the first recorded; its latency is the distance to the earliest arrival exactly when that was recorded first or is its own |
| Wins.TimeOrderedWins | src/stats.rs:152-164 | with arrivals recorded in time order, the winners are exactly those that tie the earliest arrival and every latency is exact |
| Wins.BeatenSourceMayWin | src/registry.rs:113-120 | the same two arrivals, in one order a win and in the other 5 ns |
| Replay.TalliesFromHistory | src/stats.rs:135-167 | received, missed, data, code, dupes, wins and the number of latencies of each value, as sizes of key sets and counts that the recorded events alone define |
| Replay.SlotTalliesFromHistory | src/stats.rs:184-201 | slots seen and the number of slot latencies of each value, as sizes of slot sets that the recorded events alone define; the table holds exactly the slots of recorded events |
| Replay.EnumerationIrrelevant | src/stats.rs:135-167 | the order in which the table is enumerated changes neither wins nor latencies as a bag |
| Replay.SlotEnumerationIrrelevant | src/stats.rs:184-201 | nor does the order of the slot table change the slot latencies as a bag |
| Report.ComputeStats | src/stats.rs:104-224 | everything returned for any filled registry: each source's numbers, the totals, the sample rows and the slot range are what the recorded events say, however the maps are iterated |
| Order.CountsIgnoreOrder | src/registry.rs:108-134 | registries that recorded permutations of the same events report the same counts |
| Order.SlotCountsIgnoreOrder | src/registry.rs:136-156 | and the same slots seen and slot totals |
| Order.TablesIgnoreOrder | src/registry.rs:101-156 | they agree on every earliest arrival, every slot entry and every bag of samples |
| Order.LatencyOrderFree | src/registry.rs:113-120 | a source's latency for a shred is the same for every order of its arrivals if and only if the source ties the earliest of them |
| Order.WinsOrderFree | src/registry.rs:113-120 | a source's number of wins, and likewise its latencies as a bag, are the same for every order of recording the same events if and only if it ties the earliest arrival of every shred it delivered |
| Order.WinsIgnoreOrderWhenEarliestFirst | src/registry.rs:113-120 | among runs that record each shred's earliest arrival first, wins and latencies do not depend on the order, whoever was beaten |
| Order.FirstShredAtOrderFree | src/registry.rs:122-155 | a slot's first_shred_at is the same for every order of recording if and only if no event of the slot is earlier than its earliest shred or, without shreds, all its events have one time |
| Order.SlotLatencyOrderFree | src/stats.rs:184-201 | a source's latency in a slot is the same for every order of recording if and only if the slot's earliest event is one of its shreds or the source's own entry |
| Order.SlotLatencyExact | src/stats.rs:184-201 | below 2^64 ns a source's latency in a slot is the distance to the slot's earliest shred if and only if the slot's first recorded event is no earlier than that shred or the entry is no later than that event |
| Shifts.ShiftedShreds | src/stats.rs:135-167 | moving every recorded time by a constant changes no count, win or percentile of a source and no bag of latencies, however the tables are enumerated |
| Shifts.ShiftedSlots | src/stats.rs:184-201 | nor an entry source's slots seen, bag of latencies or percentiles |
| LogFile.EarliestBySource | src/output/logfile.rs:42-49 | the fold leaves each source's earliest arrival, for exactly the sources that have one |
| LogFile.Collect | src/output/logfile.rs:51-57 | exactly one entry per source that delivered the shred, with its delta and name |
| LogFile.WriteLog | src/output/logfile.rs:38-75 | one line per shred with its key, first source and sorted arrivals |
| LogFile.NamesAsConfigured | src/output/logfile.rs:54 | a source goes by its configured name, or by "source_" and its id in decimal; two sources without a name never share one |
| LogFile.LogAgreesWithStats | src/output/logfile.rs:42-58 | a source is on as many lines as it received shreds and its logged deltas are its latencies, however log and statistics enumerate the table |
| LogFile.CountSlotWins | plot.py:48-56 | the nested counters count exactly the lines of each slot and first-source name |
| LogFile.BarsCountFirsts | plot.py:52-56 | the lines that name a source first, in total and per slot, are the shreds whose first recorded source goes by that name |
| LogFile.PlotWithinWins | plot.py:52-56 | for any name and any list of sources that has each first source so named, the first arrivals shown are at most the wins of those sources, per slot and in total |
| LogFile.OwnNameWithinWins | plot.py:52-56 | in a log where no shred was first recorded from another source of its name, a source is shown at most as many first arrivals as it won, per slot and in total |
| LogFile.OwnNameExactly | src/main.rs:49-57 | a source is shown at most as many first arrivals as it won, in the log of any table, if and only if no other source of the configuration has its name |
| LogFile.SharedNameExceedsWins | src/main.rs:49-57 | two sources with one name that won one shred each are shown as two first arrivals |
| LogFile.BarsAddUp | plot.py:170-173 | a source's bars over all slots add up to the lines that name it first |
| F64.RoundingExists | src/stats.rs:72 | there is a rounding that takes every real in range to a nearest double: what the lemmas below ask of the machine can be met |
| RankF64.WholeRank | src/stats.rs:72 | at every whole percent the rank computed in doubles, rounded up, is the exact one, for up to 2^40 samples |
| RankF64.AnyRank | src/stats.rs:72 | at every percent in tenths it is exact too, or one too high where the exact rank is an integer |
| RankF64.LastRankExactly | src/stats.rs:66-72 | for 99.9 it is one too high if and only if the length is a multiple of 1000 and a power of two lies strictly between 49.95 and 51.2 times it |
| RankF64.RankTooHigh | src/stats.rs:66-72 | so it is at 41,000 samples |
| RankF64.RankMonotone | src/stats.rs:72 | a larger percent never has a smaller rank, for any length a vector can have |
| Percentile.ComputePercentiles | src/stats.rs:50-66 | for samples in any order each percentile is the sample that sorting puts at the index computed in doubles: at most that many samples are below it and more are at or below it; minimum and maximum are samples that bound all others; the mean is the 64-bit wrapped sum divided by the number of samples |
| Percentile.SummaryAscends | src/stats.rs:50-66 | of any samples the percentiles ascend from minimum to maximum, for as many as a vector can hold |
| Percentile.SummaryRanks | src/stats.rs:50-74 | up to 2^40 samples p50, p90, p95 and p99 have at least that share of the samples at or below them and less below them; so has p99.9, or its rank is one too high and it is the next sample |
| Percentile.LastPercentileExactly | src/stats.rs:66-74 | p99.9 has that property for all samples of a length if and only if the rank of 99.9 is not one too high at that length |
| Percentile.NearestRankUnique | src/stats.rs:68-74 | only one value has the nearest-rank property |
| Percentile.SummaryUnique | src/stats.rs:50-66 | samples that are one bag have one record of percentiles, extremes and mean, whatever the rounding |
| Percentile.MeanExact | src/stats.rs:55 | the mean is the floor of the exact one if and only if the sum fits 64 bits, and then lies between minimum and maximum |
| Percentile.RankIsPlotEnd | plot.py:19-22 | for every percent the table's index, as computed in doubles, is one of the two between which the plot interpolates |
| Percentile.TableNearPlot | plot.py:11-23 | so table and plot differ by at most one gap between adjacent samples |
| Percentile.PlotInterpolates | plot.py:19-23 | with the rank (q / 100) * (n - 1) split into whole part and rest, the plot's value lies the rest of the way from the sample at the whole part to the next one |
| TableFormat.NumFmt | src/output/table.rs:26-36 | digits with commas at every fourth place from the right and nowhere else; without them the text reads back as the number; it starts with 0 only for the number 0, which gives "0"; a number of d digits takes d + (d - 1) / 3 characters |
| Aggregator.RunConserves | src/main.rs:142-148 | in every run: produced = recorded + discarded + dropped + queued as bags, capacities kept, each channel first in first out, drop counters exact |
| Aggregator.OfferedExactly | src/main.rs:142-148 | in every run an event offered on an open channel is queued exactly if the aggregator runs and there are fewer than 65,536 shreds, 4,096 slot events or 4,096 samples queued, else dropped |
| Aggregator.RunFaithful | src/main.rs:358-433 | in every run: the recorded history is the taken events filtered to the range and leader, in order, without the one shred that reveals a missed start |
| Aggregator.FirstReachedIsFirst | src/main.rs:366-380 | that shred is the first at or after the start slot |
| Aggregator.RecordedInScope | src/main.rs:360-432 | nothing outside [start_slot, end_slot] or of another leader is ever recorded |
| Aggregator.RecordedExactly | src/main.rs:358-433 | in every run, on the configuration's own fields: of the events heeded, a shred or slot event is recorded exactly if no start slot is configured or it is not before it, no end slot or it is not after it, and no leader or its slot is one of theirs; every sample is recorded |
| Aggregator.KeptAndLost | src/main.rs:368-379 | a missed start loses exactly that shred, if it was in scope |
| Aggregator.KeptOrderFree | src/main.rs:358-433 | the same for the events to be recorded of any taken sequence and its permutations |
| Aggregator.RecordingIgnoresOrder | src/main.rs:347-438 | all runs that take the same events record the same events if and only if whichever shred came first at the start slot would cost the same: a condition on the configuration and the events alone |
| Aggregator.OrderFreeMeans | src/main.rs:368-379 | that condition: no shred that may come first is lost, or all that reach the start slot are one event; always true without a start slot, when nothing in scope is lost |
| Aggregator.MissedStartDependsOnOrder | src/main.rs:368-379 | two orders of two shreds, one of which costs a shred |
| Aggregator.RunKeepsTimers | src/main.rs:381-392 | a grace timer was started exactly when an event beyond the end slot, other than the shred that revealed a missed start, was taken; never a second one; it fires at most once |
| Aggregator.TimerStartedExactly | src/main.rs:381-392 | in every run a timer was started if and only if an end slot is configured and an event of a higher slot, not before the start, was heeded; never two |
| Aggregator.RunKeepsMonitor | src/main.rs:309-334 | the silence counter is the number of trailing silent seconds of the trace, and the monitor watches until the timeout or cancellation |
| Aggregator.WhatPostponesSilence | src/main.rs:359-431 | in every run, of the events taken next, gRPC samples, events beyond the end slot and the first shred past a configured start slot do not postpone the timeout; all others do |
| Aggregator.RunCancelledForCause | src/main.rs:307-334 | a run is cancelled if and only if it was stopped, its grace timer fired, it missed its start, or silence reached max(1, timeout) seconds |
| Aggregator.CancellationIsFinal | src/main.rs:459-467 | cancellation is never undone |
| Aggregator.RunEndsOnClosed | src/main.rs:403-435 | the aggregator ends only on a channel that has no sender left and is empty |
| Aggregator.AggregatorEnds | src/main.rs:403-435 | in every run the aggregator ends with a step if and only if that step serves it a closed channel that is empty |
| Delivery.RecordedAsAccepted | src/main.rs:356-405 | in every run a shred's record holds, in order, the arrivals its channel accepted, less those still queued and the first one if it revealed a missed start; nothing for a shred out of scope |
| Delivery.OrderedDeliveryWins | src/stats.rs:152-164 | if the channel accepted a shred's arrivals in time order, its winners are exactly the sources that tie the earliest and every latency is exact |
| Bench.Bench.constructor | src/main.rs:132-148 | the program starts in the initial state |
| Bench.Bench.Offer | src/sources/pcap.rs:309-311 | offering appends to the event's channel, or counts a drop of its source when the channel is full or nobody receives |
| Bench.Bench.TrySend | src/main.rs:142-148 | offering an event is the model's produce step |
| Bench.Bench.ServeShreds | src/main.rs:356-405 | serving the shred channel is the model's take step |
| Bench.Bench.OnShred | src/main.rs:358-402 | the shred handler's branches are the model's verdict and its effects |
| Bench.Bench.OnReachedShred | src/main.rs:380-402 | the same for a shred in or beyond the range once the start was reached |
| Bench.Bench.ServeSlots | src/main.rs:406-436 | serving the slot channel is the model's take step |
| Bench.Bench.OnSlot | src/main.rs:408-433 | the slot handler's branches are the model's verdict and its effects |
| Bench.Bench.ServeGrpc | src/main.rs:350-355 | serving the sample channel is the model's take step |
| Bench.Bench.OnGrpc | src/main.rs:352 | a sample is recorded unconditionally |
| Bench.Bench.Keep | src/main.rs:400-401 | an event in scope sets the activity flag and is recorded |
| Bench.Bench.Skip | src/main.rs:360-365 | an event before the range or of another leader sets the flag and is not recorded |
| Bench.Bench.BeyondEnd | src/main.rs:382-390 | the first event beyond the end in range mode starts the timer, no later one does |
| Bench.Bench.SilenceTick | src/main.rs:316-332 | one turn of the monitor's loop is the model's tick |
| Bench.Bench.GraceTimerFires | src/main.rs:385-389 | the timer cancels |
| Bench.RunBench | src/main.rs:336-456 | any sequence of steps leaves the object in the state the transition system reaches, with a registry that indexes exactly the recorded history |
| EndToEnd.ProducedAccountedFor | src/stats.rs:135-167 | in every state of every run, for every shred source: produced = received + dupes + discarded + drops + queued, with the channel within 65,536 |
| EndToEnd.Measure | src/main.rs:336-456 | the statistics after any run are what its recorded events say, and each printed row adds up: for a shred source produced = received + dupes + discarded + drops + queued, for an entry source produced = recorded slot events + samples + discarded + drops + queued slot events + queued samples |
| EndToEnd.ProducedSplit | src/main.rs:142-148 | whatever kinds of event a source sends: produced = recorded shreds, slot events and samples + discarded + drops + what is queued in the three channels |
| Report.ReportIgnoresOrder | src/stats.rs:104-224 | reports on permutations of the same recorded events agree on every count: of each shred source, each entry source's slots seen, unique shreds, slots, slot range and each row's bag of samples |
| EndToEnd.InterleavingIrrelevant | src/main.rs:347-438 | two runs that took the same events record the same events and report the same of all these counts however they were interleaved, if those events are order-free, as they always are without a start slot |
| EndToEnd.DrainedRunsAgree | src/main.rs:347-438 | in particular two runs over the same produced events in which nothing was dropped or left queued |
| EndToEnd.FrameAsProduces | src/sources/pcap.rs:301-313 | in every run, the produce steps of one captured frame leave the system as the capture loop does: the shred channel filled to its room, the rest counted as drops, nothing else touched |
| EndToEnd.FramesAccountedFor | src/sources/pcap.rs:251-315 | in every state of every run, for a source fed by captured frames: the frames that carry a shred from an address its route wants = received + dupes + discarded + drops + queued |
| Yellowstone.WindowMoves | src/sources/yellowstone.rs:170-182 | pushing and pruning keep the index equal to the unbounded history on recent slots and empty elsewhere |
| Yellowstone.WindowBounded | src/sources/yellowstone.rs:178-181 | the index never holds more than 301 slots |
| Yellowstone.Connection.OnEntry | src/sources/yellowstone.rs:170-182 | after every entry the index is that window over everything received |
| Yellowstone.Connection.OnUpdate | src/sources/yellowstone.rs:154-225 | each message emits exactly its slot event, and for an account update the least distance back to a retained entry of the slot, if there is one |
| Yellowstone.BaselineIsLastEntry | src/sources/yellowstone.rs:197-207 | on a clock that never runs backwards the baseline is the entry of the slot delivered last |
| Yellowstone.LatestBefore | src/sources/yellowstone.rs:202-207 | the latest entry not after the update, if any |
| ClockAnchor.ConversionExact | src/sources/kernel_ts.rs:45-54 | a conversion is exact if and only if the distance fits 64 bits and the instant can be represented |
| ClockAnchor.ConversionOtherwise | src/sources/kernel_ts.rs:45-54 | a time too early to be represented becomes the anchor's instant, and 2^64 ns further from the anchor the conversion repeats itself |
| ClockAnchor.ConversionKeepsDistances | src/sources/kernel_ts.rs:45-54 | exact conversions keep order and differences |
| ClockAnchor.StampIsOffset | src/sources/kernel_ts.rs:45-54 | through an anchor that converts exactly, kernel timestamps become instants moved by its offset, and events that carry an instant stay as they are |
| TwoClocks.LatencyOffsetFree | src/stats.rs:152-164 | a source's latency for a shred is the same under every offset between the clocks if and only if the clock of the first recorded arrival decides alone: the source has no arrival on the other clock, or one on this clock no later than the first recorded |
| TwoClocks.OneClockShred | src/sources/kernel_ts.rs:155-161 | that is so for every shred whose arrivals were all read off one clock |
| TwoClocks.LatencySameUnder | src/stats.rs:152-164 | below 2^64 ns it is the same under two given offsets if and only if one of the source's earliest arrivals on the two clocks is the sooner, or no later than the first recorded, under both |
| TwoClocks.WinsAnchorFree | src/sources/kernel_ts.rs:45-54 | over all anchors that convert exactly, which shreds a source has at each latency does not depend on the anchor if and only if one clock decides every shred |
| TwoClocks.AnchorIrrelevant | src/stats.rs:152-164 | then its wins, its latencies as a bag and its percentiles do not |
| TwoClocks.ShredsMayTradePlaces | src/stats.rs:152-164 | the number of wins can agree under every offset although the shreds won differ |
| TwoClocks.MixedClocksMoveWins | src/sources/kernel_ts.rs:155-161 | with one of two arrivals stamped by the kernel, two anchors 10 ns apart give the second source a latency of 5 ns and a win |
| TwoClocks.CountsIgnoreAnchor | src/stats.rs:135-167 | received, missed, data, code, dupes and slots seen are the same under any two anchors, exact or not |
| TwoClocks.FirstShredAtUnder | src/registry.rs:122-155 | first_shred_at under any offset is the least of the slot's kernel-stamped shreds, moved by the offset, of its other shreds, and of its first event if that has no kernel stamp |
| TwoClocks.SlotLatencyOffsetFree | src/stats.rs:184-201 | a source's latency in a slot is the same under every offset if and only if no shred of the slot has a kernel timestamp |
| TwoClocks.SlotLatencySameUnder | src/stats.rs:184-201 | below 2^64 ns it is the same under two given offsets if and only if under both the slot's kernel-stamped shreds come no sooner than an instant that counts towards first_shred_at and no anchor moves, or no sooner than the entry |
| TwoClocks.SlotsAnchorFree | src/stats.rs:184-201 | over all anchors that convert exactly, the slots a source has at each latency do not depend on the anchor if and only if no slot it sent an event for has a kernel-stamped shred |
| TwoClocks.AnchorIrrelevantForSlots | src/stats.rs:184-201 | two anchors that agree on each slot in that sense give one bag of slot latencies and one record of percentiles |
| TwoClocks.AnchorMovesSlotLatency | src/sources/kernel_ts.rs:45-54 | two anchors 10 ns apart give an entry after one kernel-stamped shred the latencies 50 and 40 |

## Left out

- Sockets, `setsockopt`, `recvmsg`, `recvmmsg` and control-message parsing: foreign calls; reception is an arbitrary produce step.
- src/sources/raw_udp.rs, src/sources/doublezero.rs and the Jito receive loops: the same parse, try_send and drop step as one unfiltered capture route.
- Connecting, authenticating and reconnecting to gRPC servers: `Connection` is one connection, from its first message on.
- The capture loop's own packet counters, and the buffer size and CPU chosen for a group: they feed log messages and socket options.
- Configuration parsing, command line, leader-schedule RPC, CPU affinity, tracing: the configuration and the leader slots are arguments; source addresses come parsed.
- Table layout, `fmt_ns`, `coverage`, JSON encoding and HTML: text and layout. A log line names its shred type as a value and its sources by id as well as by name.
- f64 rounding outside the index of a percentile: plot.py's interpolation is exact, and the percentages printed in the table are not modelled. How a tie between two doubles is broken is left open; no statement depends on it.
- RankF64.LastRankExactly: lengths above 2^40, which would need 8 TiB of samples, as are those of WholeRank, AnyRank, Percentile.SummaryRanks and Percentile.RankIsPlotEnd, are not covered; the order of the percentiles and `SummaryUnique` are.
- TwoClocks.AnchorIrrelevant: one direction only, since totals can agree by accident (`TwoClocks.ShredsMayTradePlaces`); shred by shred `TwoClocks.WinsAnchorFree` has both.
- TwoClocks.WinsAnchorFree: drift between the two clocks during a run; and kernel timestamps 2^64 ns or more apart, which no anchor converts exactly.
- Overflow checks of debug builds: the mean's sum wraps, as in a release build. `duration_secs` is passed through.
- The panic of `Instant + Duration` at the end of the clock's range, and counters and ids beyond 64 and 32 bits.
- Real time: a grace timer may fire at any later step; a tick is one step; each handler is atomic, as the aggregator is the registry's only writer.
- `sort_unstable` and `sort_by_key` are represented by an insertion sort with their contract.
