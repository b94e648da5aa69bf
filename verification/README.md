# gatotray core in Dafny

This project models the core of gatotray, a CPU-monitor tray icon, and its
companion collector daemon. Every operation is written as a pure function, or
as a short method with a loop, and the properties are proved about that
model. The model has two halves.

**The collector daemon** (`collector/collector.c`):
- The process table. A pass over the process directory adds each new pid with
  a 0 CPU% baseline and recomputes each known pid. The CPU% is computed from
  wrapping 64-bit tick deltas.
- Top-10 snapshots. The table is ranked by CPU% and its first ten records are
  copied.
- The cache. It holds a header and a ring of 60 snapshot slots, with a cursor
  at the next slot to overwrite.
- The line protocol. It serves TOP, HISTORY, QUIT and an error reply.
- The client server. It accepts at most ten clients and does one read per
  client per poll.
- One sampling tick of the daemon loop.

**The tray** (`top_procs.c`, `cpu_usage.c`, `gatotray.c`, `settings.c`):
- The pid-ordered process list. Each refresh merges a scan into it, recomputes
  each node's usage, and tracks the top memory and CPU consumers.
- The probes. These are the CPU busy and iowait fractions, the clock frequency
  with its observed range, the temperature and the memory summary. Each probe
  keeps its state between calls and latches once it fails.
- The history graph:
  - the fixed-point persistence curve and the ageing blend;
  - the new head column;
  - growth of the history on resize;
  - the gradient indices used for drawing.
- The preferences. These are seven colours, a boolean, a bounded integer and
  a command string. They are loaded from a key file, and two 100-step
  gradients are derived from the colours.

The model's inputs stand in for I/O and system calls:
- the contents of `/proc` and `/sys` files;
- the outcome of each `read`, `write`, `accept`, `open` and `mmap`;
- the clock.

Some conventions:
- A socket is a `Conn`. The set of write attempts that fail is fixed in
  advance, so "stop at the first failed write" can be stated exactly.
- C integer widths are explicit. `Machine` has `Wrap64`, `Wrap32`, `Sub64` and
  `ToInt32`, plus `DivT` for C's truncating division.
- C `float` and `double` values are exact reals. In `TopProcs` the usage is a
  `FloatVal`: the exact quotient of two tick counts, kept as numerator and
  denominator, or the infinity or NaN produced by dividing by a zero tick delta.

Modules, one per component:
- `Wrappers`: `Option` and `Result`.
- `Machine`: fixed-width integers and C arithmetic.
- `Text`: decimal text and newline-separated lines.
- `ProcessTable`, `Snapshots`, `RingCache`, `Protocol` and `Server`: the
  collector.
- `TopProcs`, `CpuUsage`, `TrayGraph` and `Settings`: the tray.

Where the code and its documented design disagree, the model follows the
code:
- HISTORY sends the slots whose timestamp is positive (`> 0`), so a negative
  timestamp is skipped too.
- `init_cache` always rewrites the header and rewinds the cursor to 0, even
  when an existing valid file is reopened. The old slot contents are kept.
- `accept_client` accepts at most one connection per call, not as many as
  capacity allows.
- QUIT neither replies nor closes the connection. The client stays until a
  later read returns 0 or fails.
- A read that would block returns -1. It is therefore treated like an error,
  and the client is closed.

## Model

| member | source | states |
|---|---|---|
| ProcessTable.TruncateComm | collector/collector.c:215-216 | the stored name is a prefix of the scanned one, at most 255 bytes, and unchanged when it fits |
| ProcessTable.Find | collector/collector.c:168-175 | the result is the first record with the pid; there is none exactly when the pid is not in the table |
| ProcessTable.CpuPercent | collector/collector.c:199-207 | the CPU% times the wrapped total delta equals 100 times the wrapped tick delta; a zero total delta gives 0; the result is never negative |
| ProcessTable.UpdateProcess | collector/collector.c:178-218 | an unknown pid is appended with a 0 CPU% and its sample as baseline; otherwise the first record with the pid is resampled in place and takes the sample's user and system ticks; the pid set grows by exactly the sample's pid; the other records keep their position |
| ProcessTable.UpdateKeepsPidsUnique | collector/collector.c:178-218 | adding or updating keeps one record per pid |
| ProcessTable.CpuPercentWithoutWrap | collector/collector.c:199-204 | without wrap-around, CPU% is 100 times the tick delta over the total delta |
| ProcessTable.TickRegressionWraps | collector/collector.c:199-204 | a pid whose ticks went backwards gets an enormous CPU% from the unsigned wrap, not 0 |
| ProcessTable.TotalJiffies | collector/collector.c:103-119 | the total is the eight counters summed modulo 2^64, or 0 when the line cannot be read |
| ProcessTable.ParsePidName | collector/collector.c:249-253 | a name is accepted only when `strtoul` consumes all of it (optional leading whitespace, at most one sign, then digits) and the value is nonzero; an all-digit name below 2^32 gives its value and an all-digit zero is rejected |
| ProcessTable.PidNameRoundTrip | collector/collector.c:249-253 | the decimal name of every nonzero pid parses back to that pid |
| ProcessTable.NonDigitNameRejected | collector/collector.c:249-253 | a name holding a character that is neither a digit, whitespace nor a sign is never a pid |
| ProcessTable.DigitsStart | collector/collector.c:250 | `strtoul`'s digits start after the leading whitespace and at most one `+` or `-` |
| ProcessTable.Strtoul | collector/collector.c:250 | with no digits the end offset is 0 and the value 0; otherwise the digits run from the sign to the end offset, and the character there is not a digit |
| ProcessTable.StrtoulSigned | collector/collector.c:250 | whitespace, a sign and digits are consumed whole; the value saturates at ULONG_MAX and a `-` negates it modulo 2^64 |
| ProcessTable.ParseSignedName | collector/collector.c:249-253 | every name of whitespace, an optional sign and digits is accepted exactly when `strtoul`'s value is nonzero, as that value cut to 32 bits |
| ProcessTable.NegativePidNameWraps | collector/collector.c:249-256 | "-5" passes the filter as pid 2^32-5 |
| ProcessTable.TrailingSpaceRejected | collector/collector.c:249-253 | "5 " is rejected because `strtoul` stops before the space |
| ProcessTable.Accepted | collector/collector.c:243-264 | an entry contributes a sample exactly when it is a directory with a pid name and both per-process files were read; the sample carries that pid |
| ProcessTable.UpdateAll | collector/collector.c:243-265 | after the directory loop, the pid set is the old pids plus those of the accepted entries, and old records keep their position |
| ProcessTable.ScanProcesses | collector/collector.c:230-269 | a zero total or an unopenable directory changes nothing, not even the stored total; otherwise every accepted entry is applied and the total is stored |
| ProcessTable.ScanTableContents | collector/collector.c:230-269 | after a pass the table has one record per pid, holding the old pids plus the accepted ones |
| Snapshots.SortByCpu | collector/collector.c:221-227 | the result is ordered by non-increasing CPU% and is a permutation of the table |
| Snapshots.BuildSnapshot | collector/collector.c:272-291 | the snapshot is stamped with the time and stored total; the table is reordered by CPU% as a permutation; the entries are the first min(n, 10) records, in rank order |
| Snapshots.SnapshotHoldsTheTop | collector/collector.c:277-290 | any record ranked strictly above the last entry is in the snapshot; a table of at most ten records is copied whole |
| RingCache.ResizeSlots | collector/collector.c:305-309 | the file is cut or zero-extended to exactly 60 slots, and existing slots are kept |
| RingCache.InitCache | collector/collector.c:294-331 | it fails exactly when open, ftruncate or mmap fails; otherwise the header is always magic/version/slot size/60/cursor 0 and the old slots are kept |
| RingCache.RestartKeepsSlots | collector/collector.c:319-325 | reopening a full-sized file keeps every snapshot but rewinds the cursor |
| RingCache.Write | collector/collector.c:334-350 | the slot under the cursor gets the snapshot; the cursor advances modulo 60; no other slot or header field changes |
| RingCache.LatestIndex | collector/collector.c:455-457 | TOP's slot is the one just before the cursor, modulo 60 |
| RingCache.History | collector/collector.c:459-472 | HISTORY walks the 60 slots starting at the cursor, oldest first, and keeps the live slots of that order |
| RingCache.LiveIsWrittenSlots | collector/collector.c:466-471 | the walk keeps every slot with a positive timestamp as often as it occurs, and no other slot |
| RingCache.LiveKeepsOrder | collector/collector.c:466-471 | the kept slots appear in the order the walk visits them |
| RingCache.LatestIsNewest | collector/collector.c:455-467 | TOP's slot is the last one in HISTORY's oldest-first order |
| RingCache.WriteRotates | collector/collector.c:342-346 | a write drops the oldest slot of the order and appends the new snapshot |
| RingCache.LatestAfterWrite | collector/collector.c:449-458 | TOP right after a write reads the snapshot just written |
| RingCache.WriteAllKeepsLastSlots | collector/collector.c:334-350 | after any sequence of writes, the ring holds the last 60 snapshots of everything ever written, oldest first |
| RingCache.HistoryIsLastWrites | collector/collector.c:459-472 | on a fresh cache, HISTORY returns exactly the last min(n, 60) written snapshots, in write order |
| Protocol.Write | collector/collector.c:419-422 | a write sends all of its data or nothing, and fails exactly when that attempt is one that fails |
| Protocol.FirstFailureIsFirst | collector/collector.c:418-439 | no write attempt before the first failing one fails |
| Protocol.SendLines | collector/collector.c:417-439 | the lines are written one call each, up to the first failed call; exactly the lines before it are sent |
| Protocol.Fixed2 | collector/collector.c:433-434 | `%.2f` gives digits, a point and two digits, within half a hundredth of the value |
| Protocol.EntryRows | collector/collector.c:430-439 | one row per entry, row i rendering entry i |
| Protocol.BlockRows | collector/collector.c:418-443 | a block is TIMESTAMP, ENTRIES with the count, one row per entry, then END |
| Protocol.SendBlock | collector/collector.c:412-445 | a failed header or row write ends the block there, without END, having sent exactly the lines before it; otherwise END is attempted and its failure is ignored |
| Protocol.SendSnapshot | collector/collector.c:412-445 | every block attempts at least one write and leaves the connection's failing attempts as they were |
| Protocol.FailedTimestampStopsBlock | collector/collector.c:418-422 | when the TIMESTAMP write fails, nothing is sent and nothing more is attempted |
| Protocol.Classify | collector/collector.c:449-476 | a line is TOP, HISTORY or QUIT exactly when it starts with that word, checked in that order |
| Protocol.PrefixMatching | collector/collector.c:449-473 | "TOPX" is TOP and "QUITTING" is QUIT; "TO" and lower-case "top" are unknown |
| Protocol.HandleCommand | collector/collector.c:448-482 | QUIT leaves the connection as it was; an unknown command makes one write attempt of the error line |
| Protocol.HealthyReplies | collector/collector.c:448-482 | on a connection with no failing writes: TOP sends the newest slot's block, HISTORY sends one block per live slot oldest first, anything else sends the error line |
| Protocol.BlockSplitsIntoRows | collector/collector.c:412-445 | splitting a block on newlines gives back exactly its rows, provided no name holds a newline |
| Protocol.TopBeforeFirstSample | collector/collector.c:418-443 | a slot with timestamp 0 and no entries, as a fresh zero-filled file holds, renders as "TIMESTAMP 0\nENTRIES 0\nEND\n" |
| Server.AcceptClient | collector/collector.c:391-409 | at ten clients, or with no pending connection, nothing changes; otherwise exactly the accepted descriptor is appended with an empty buffer and the given failing writes; the count never exceeds ten and descriptors stay distinct |
| Server.ServeAll | collector/collector.c:503-510 | serving keeps each client on its own descriptor |
| Server.ProcessClients | collector/collector.c:485-516 | every client is either kept or closed |
| Server.SurvivorsKeepOrder | collector/collector.c:492-500 | the survivors keep their relative order |
| Server.RouteKeepsOrder | collector/collector.c:492-500 | removing closed clients by shifting keeps the others in order |
| Server.Route | collector/collector.c:492-500 | every client ends up either among the survivors or among the closed, none lost and none added |
| Server.ProcessClientsRoutes | collector/collector.c:488-512 | a read returning 0 or less closes its client; any other read has its complete lines dispatched, and the served client is kept |
| Server.RouteSends | collector/collector.c:490-513 | each client is closed or kept according to its own read's return value |
| Server.ProcessClientsFromClients | collector/collector.c:492-500 | every survivor and every closed descriptor was a client |
| Server.RouteFromClients | collector/collector.c:492-500 | routing invents no descriptor |
| Server.FailedReadRemoves | collector/collector.c:492-500 | with distinct descriptors, a client whose read failed is not among the survivors |
| Server.RouteRemovesFailed | collector/collector.c:492-500 | with distinct descriptors, a closed client is not among the survivors |
| Server.WouldBlockCloses | collector/collector.c:490-500 | a client whose read would block is closed |
| Server.QuitKeepsClient | collector/collector.c:473-475 | "QUIT\n" keeps the client connected and unchanged |
| Server.SplitCommandIsLost | collector/collector.c:503-512 | a command split across two reads is lost: "TO" dispatches nothing, and "P\n" dispatches "P", an unknown command |
| Server.SortKeepsPidsUnique | collector/collector.c:277 | reordering the table keeps one record per pid |
| Server.SampleTick | collector/collector.c:526-534 | a tick keeps the table's pids unique and the cache valid; the table is a permutation of the scanned table, sorted by CPU%; the ring rotates by one snapshot stamped with the time and the stored total, holding the first min(n, 10) records of the table in rank order; the clients are untouched |
| Server.TopAfterTick | collector/collector.c:526-540 | after a tick, TOP on a healthy connection sends the snapshot just built |
| TopProcs.Usage | top_procs.c:45-46 | the usage is 0 for a different pid; a zero sample delta gives NaN when no CPU time was spent and infinity otherwise; any other delta gives a finite value |
| TopProcs.UsageIsRate | top_procs.c:45-46 | for the same pid over a nonzero interval, usage times the wrapped sample delta equals 100 times the wrapped CPU-time delta |
| TopProcs.UsageWithoutWrap | top_procs.c:45-46 | without wrap-around, the usage is 100 times CPU-time growth over elapsed ticks |
| TopProcs.Update | top_procs.c:43-50 | the node takes every field of the scan, with the usage recomputed against its previous values |
| TopProcs.CloseOffset | top_procs.c:76 | the backward search stops on the last `)` at offset 1 or more, or at 0 |
| TopProcs.ExtractComm | top_procs.c:73-79 | the name is at most 31 bytes and lies within the record after the first `(` |
| TopProcs.CommBetweenParentheses | top_procs.c:73-79 | the name is the bytes right after the first `(`; unless cut at 31 bytes it ends at the last `)` of the record, or is empty when none follows |
| TopProcs.NestedParentheses | top_procs.c:73-79 | with the first `(` and the last `)` of a record, the name is everything between them, parentheses included, when shorter than 31 bytes |
| TopProcs.CpuTimeAndRss | top_procs.c:81-94 | the CPU time is the wrapped sum of four tick counters; fewer than five conversions force both it and rss to 0 |
| TopProcs.Atoi | top_procs.c:62 | the pid is the value of the name's leading digits |
| TopProcs.AtoiRoundTrip | top_procs.c:62 | every pid is read back from its decimal name |
| TopProcs.Scan | top_procs.c:59-96 | an unreadable record gives "(defunct)" with no ticks or rss; otherwise the name, CPU time and rss of the record stamped with the tick count |
| TopProcs.FindPid | top_procs.c:123-130 | the deletion loop stops on a node with the scanned pid, or at the end |
| TopProcs.FindPidIsFirst | top_procs.c:123-130 | every node the deletion loop passes over has another pid |
| TopProcs.ScanAll | top_procs.c:114-119 | a pass yields at most one scan per directory entry |
| TopProcs.ScanAllSplits | top_procs.c:114-119 | scanning a listing split in two is scanning each part in turn, in order |
| TopProcs.ScanAllOne | top_procs.c:117-119 | a single entry yields its scan exactly when its name starts with a digit, and nothing otherwise |
| TopProcs.Merge | top_procs.c:121-148 | the refreshed list has at least one node per scan |
| TopProcs.MergeFollowsScans | top_procs.c:121-140 | after a refresh, the list starts with one node per scan in scan order, each holding that scan's fields; the usage is fresh or computed against an old node of the same pid |
| TopProcs.MergeTailAt | top_procs.c:121-148 | after the scanned nodes comes the old list from a computed position on |
| TopProcs.MergeDropsFirst | top_procs.c:121-148 | after the first scan is placed, the rest of the list is what the pass over the remaining scans leaves |
| TopProcs.MergeKeepsTail | top_procs.c:121-148 | after the scanned nodes comes an untouched suffix of the old list |
| TopProcs.SameProcessesUpdateInPlace | top_procs.c:131-133 | a scan of exactly the listed pids, in order, updates every node in place |
| TopProcs.OutOfOrderScanRecreates | top_procs.c:121-140 | two listed pids met in the opposite order: the first is deleted and re-created with a fresh usage |
| TopProcs.TrackTop | top_procs.c:131-145 | the pointer stays put exactly when no step beats the key of its pointee, read after that node's own update when it is rescanned; otherwise it ends on the first step from the first beating one whose key is the largest from there on |
| TopProcs.FirstMove | top_procs.c:142-145 | the first step whose key beats the pointee, every earlier step failing to |
| TopProcs.FirstPassTracksMaximum | top_procs.c:142-145 | with no pointer yet, the first scanned node takes it |
| TopProcs.RescannedPointeeCanLose | top_procs.c:133-145 | a pointee at 100 rescanned at 50 loses the pointer to a following node at 60 |
| CpuUsage.Busy | cpu_usage.c:47 | busy time is user, nice, system, irq and softirq summed modulo 2^64 |
| CpuUsage.Total | cpu_usage.c:48 | total time is busy plus idle plus iowait, modulo 2^64 |
| CpuUsage.Fraction | cpu_usage.c:52-60 | a counter that did not grow gives 0; one that grew over a zero total delta divides by zero; otherwise the result is the wrapped scaled quotient cast to `int` |
| CpuUsage.SampleCpu | cpu_usage.c:25-67 | it succeeds exactly when four counters were read and neither fraction divides by zero; both fractions use this interval's deltas; this call's counters become the baseline |
| CpuUsage.FractionWithoutWrap | cpu_usage.c:52-60 | a counter that grew by no more than the total, with no wrap-around, gives scale times its growth over the total's, rounded down, in [0, scale] |
| CpuUsage.UsageIsShareOfScale | cpu_usage.c:52-55 | without wrap-around, usage equals scale times busy delta over total delta, rounded down, and lies in [0, scale] |
| CpuUsage.SameCountersGiveZero | cpu_usage.c:62-64 | sampling the same counters twice gives zero fractions the second time |
| CpuUsage.FileReadInt | cpu_usage.c:69-81 | the number read; the fallback on no file or no match; whatever the local held at end of input |
| CpuUsage.ToMhz | cpu_usage.c:103 | kHz to MHz truncates toward zero |
| CpuUsage.CpuFreq | cpu_usage.c:88-122 | a negative current value latches at 0; a failure sets it to -1; the first success takes the range from its files; later successes widen the range to include each reading |
| CpuUsage.FreqFailureLatches | cpu_usage.c:91-121 | after one failed read, every later call returns 0 and changes nothing |
| CpuUsage.RangeFallsBackToReading | cpu_usage.c:108-114 | with unreadable range files, the first range is the reading itself |
| CpuUsage.Degrees | cpu_usage.c:154 | readings above 1000 are millidegrees rounded to the nearest degree; others are kept |
| CpuUsage.CpuTemperature | cpu_usage.c:124-160 | once unavailable, the result is 0 forever; no file or a failed read makes it unavailable; an ACPI mismatch on first open switches to the plain format |
| CpuUsage.TemperatureLatches | cpu_usage.c:127-159 | after a failed read, every later call returns 0 and changes nothing |
| CpuUsage.KbToMb | cpu_usage.c:178-183 | MB is kB shifted right by 10 (a floor division by 1024) |
| CpuUsage.ReadMemInfo | cpu_usage.c:165-193 | the three sizes in MB with Available falling back to Free; a failure latches and returns the cached summary |
| CpuUsage.MemInfoLatches | cpu_usage.c:168-192 | after a failure, every later call returns the same summary |
| TrayGraph.Position | gatotray.c:195 | column i of n sits at a position in [0, ONE) |
| TrayGraph.PersistenceRange | gatotray.c:211-212 | the newest point has persistence 0 and every position has persistence in [0, ONE] |
| TrayGraph.PersistenceMonotone | gatotray.c:196-212 | persistence never decreases with distance from the newest column |
| TrayGraph.Blend | gatotray.c:213-215 | the blend stays between the two values and is exact at P = 0 and P = ONE |
| TrayGraph.BlendFitsInt | gatotray.c:213-215 | for values in [0, SCALE], the blend's 32-bit products and sum do not overflow |
| TrayGraph.BlendStatus | gatotray.c:217-220 | all four fields are blended with the same persistence |
| TrayGraph.AgeHistory | gatotray.c:192-223 | column 0 is kept; column i becomes the blend of its old value with the old value of column i-1 |
| TrayGraph.AgeingKeepsBounds | gatotray.c:192-223 | values within a range stay within it through ageing |
| TrayGraph.NormalizeFreqAsWritten | gatotray.c:226-227 | the division traps exactly when the 32-bit divisor `max - min` is 0, or is -1 while the wrapped product `(freq - min) * SCALE` is INT_MIN; an empty frequency range is therefore a division by zero |
| TrayGraph.NormalizeAsWrittenWithoutOverflow | gatotray.c:226-227 | when the range is positive and fits in an `int` and `(freq - min) * SCALE` does too, the 32-bit computation gives the intended position |
| TrayGraph.IntMinOverMinusOneTraps | gatotray.c:226-227 | a range read back as 0..-1 with the clock at 2048 makes the product INT_MIN, and the division traps |
| TrayGraph.FreqNormalisationOverflows | gatotray.c:226-227 | 3000 MHz in 800..3400 normalises to -764653 because the 32-bit product overflows |
| TrayGraph.FreqNormalisationWithoutDriver | gatotray.c:226-227 | with no frequency driver (0 in 0..0) the normalisation divides by zero |
| TrayGraph.NormalizeFreq | gatotray.c:226-227 | corrected: a frequency in the range maps into [0, SCALE], min to 0 and max to SCALE; an empty range gives 0 |
| TrayGraph.Tick | gatotray.c:189-230 | a failed CPU sample fails the tick with its error, and a trapping frequency division fails it; the tick succeeds exactly when neither happens, and then columns 1.. are aged, column 0 is the fresh sample with the frequency normalised in 32-bit arithmetic, and every probe's state advances |
| TrayGraph.TickCorrected | gatotray.c:189-230 | corrected: a tick fails exactly when the CPU sample does, and column 0 holds the frequency's exact position in its range |
| TrayGraph.Start | gatotray.c:332-336 | start-up fails exactly when the first CPU sample does; otherwise the history is one column with the first busy and iowait fractions, frequency 0 and the first temperature, and the CPU and temperature probes keep their new state |
| TrayGraph.Resize | gatotray.c:157-163 | growing appends copies of the oldest column; the history never shrinks; the width becomes the new size and never exceeds the history |
| TrayGraph.ResizesKeepHistory | gatotray.c:157-163 | after any sequence of resizes, every original column is still in place |
| TrayGraph.Shade | gatotray.c:83 | a normalised frequency in [0, SCALE] maps to freq * 99 / SCALE in [0, 99], SCALE itself to 99; a small negative gives 0 and a larger negative wraps, through the unsigned cast, to above 2^32 - 2049 |
| TrayGraph.ShadeMonotone | gatotray.c:83 | within [0, SCALE] a higher frequency never gets a lower shade |
| TrayGraph.ShadeOfOverflowedFreq | gatotray.c:83-98 | the overflowed normalisation -764653 gives the index 4294967224, far outside the 100-entry gradient |
| TrayGraph.ThermometerLevel | gatotray.c:102-109 | the thermometer is hidden exactly when T = 0 or on even ticks at or above the alarm; otherwise it shows T-5 clamped to [0, 99] |
| TrayGraph.ThermometerMonotone | gatotray.c:102-109 | a hotter reading never shows a lower level |
| Settings.MixChannel | settings.c:68-73 | each gradient step lies between the two channel values, exactly at steps 0 and 99 |
| Settings.MixMonotone | settings.c:68-73 | gradient channels never step back |
| Settings.GradientOf | settings.c:66-75 | 100 colours running from the lower colour to the upper, each between them |
| Settings.Gradient | settings.c:67-74 | the loop computes exactly the reference gradient |
| Settings.Strip | settings.c:89 | the result is a contiguous slice with only GLib ASCII whitespace (space, tab, newline, form feed, carriage return; not the vertical tab) cut away on either side, and it neither starts nor ends with such whitespace |
| Settings.StripKeepsTrimmed | settings.c:89 | text that neither starts nor ends with GLib whitespace is left unchanged |
| Settings.StripIdempotent | settings.c:89 | stripping twice is stripping once |
| Settings.EntryValue | settings.c:87-98 | the stripped entry, or the default when nothing remains; never empty when the default is not |
| Settings.VerticalTabEntryKept | settings.c:87-98 | an entry holding only a vertical tab is kept as it is, because GLib does not strip it |
| Settings.LoadColor | settings.c:109-118 | the preset when the key is absent, the parsed colour when it parses, the zeroed colour otherwise |
| Settings.PrefInit | settings.c:100-139 | the preferences are the loaded colours and options, with both gradients derived from the loaded colour pairs |
| Settings.LoadReadsOnlyPrefKeys | settings.c:109-137 | two key files that agree on the preference keys load the same preferences |
| Settings.WithGradients | settings.c:66-75 | both gradients run between their colour pair |
| Settings.DefaultsFromEmptyFile | settings.c:24-62 | an empty key file gives black, white, blue, green, red, blue and red, transparency, alarm 85 and the xterm command |
| Settings.LoadedBlankCommandKept | settings.c:131-137 | a blank command from the file is kept as it is, while a blank edited entry reverts to the default |
| Settings.LoadedAlarmNotClamped | settings.c:125-130 | a loaded alarm outside 30..100 stays outside it |
| Settings.Saved | settings.c:141-155 | saving writes the seven colours, the boolean, the integer and the command under their keys and keeps every other key |
| Settings.SaveThenLoad | settings.c:100-155 | loading what was saved gives back the saved colours and options |

## Left out

**System interfaces and runtime behaviour**
- Sockets, the abstract socket name, `fcntl`, `mmap`/`msync`, `daemonize`, signal handling, `getopt`, `cleanup` and the rest of `main` are left out. They are I/O and process plumbing; their outcomes are inputs instead.
- `collector/client.c` is not part of this model. It is a separate reader program.
- The cadence of `daemon_loop` is not modelled: the one-second sample test, `usleep` and the `running` flag. One tick is `Server.SampleTick`, one poll is `Server.AcceptClient` then `Server.ProcessClients`, and their interleaving over time is not modelled.
- `realloc` failure (`exit(1)`) is left out. Memory exhaustion is not modelled.
- Partial writes are left out. A `write` sends all of its data or fails.

**Parsing modelled as inputs**
- The 1023-byte read buffer is not modelled. A read's bytes are an input of any length.
- The `fscanf` parsing of `/proc/[pid]/stat` and `/proc/[pid]/status` in the collector, and of `/proc/stat`, `/proc/meminfo` and the sysfs files in the tray, is replaced by already-parsed values.
- Per-process names are parsed from the raw record only in `top_procs.c`, where the parenthesis search is the point.

**Floating point and integer width**
- C `float` and `double` are not modelled. CPU% and usage are exact reals, so `printf` rounding is the exact round-half-up of the real value. `ProcessTable.CpuPercent` therefore does not reproduce `double` rounding.
- `ProcessTable.ParsePidName`: its own contract states the exact value only for all-digit names below 2^32. Signs, leading whitespace, saturation at ULONG_MAX and the 32-bit cast are stated by `ProcessTable.ParseSignedName`. `strtoul`'s hexadecimal and locale-specific forms do not apply with base 10 in the C locale and are not modelled.
- `TopProcs.Atoi`: the contract holds only below 2^32. `atoi` overflow is undefined in C and is modelled as a 32-bit wrap.
- `TopProcs.ExtractComm` requires a `(` with a byte after it. A stat record always has one. Without it, `strchr` returns NULL and the C code reads out of bounds. The negative `comm_len` case is not modelled.
- `CpuUsage.Degrees`: the `T+500` overflow for readings above 2^31-501 (cpu_usage.c:154) is not modelled. The model rounds those readings as if the sum fitted in 32 bits.

**Uninitialised memory and pointers**
- Uninitialised C fields are modelled as 0: the defunct scan's `rss`, `cpu_time` and `sample_time`, and a fresh node's `cpu_usage`. A colour that fails to parse is the zero-initialised global.
- `TopProcs.TrackTop` models the `top_mem`/`top_cpu` pointers within one pass: the pointee's key before the pass, and its position if the pass rescans it. It does not model that the pointers persist across refreshes, nor that they dangle after the node they point to is freed. A pointee the pass deletes is compared by its last key, which the freed memory would still hold; the use after free itself is not modelled.
- The debug warnings of `top_procs.c` (`g_debug`, `g_critical`, `g_warning_once`) are left out.

**Tray interface and output**
- Drawing, GTK widgets, the preferences dialog and the tooltip text are left out. They are display only.
- GLib is not part of this model. `g_strstrip` is taken to strip the characters GLib's `g_ascii_isspace` accepts (space, tab, newline, form feed and carriage return), as GLib documents it. C's `isspace`, used by `strtoul`, also accepts the vertical tab.
- `Settings.Saved` models the `g_key_file_set_*` calls of `pref_save`. Writing the file to disk is left out. A colour is saved as the colour itself: that `gdk_color_parse` reads back what `gdk_color_to_string` writes is assumed, not modelled.
- The tooltip reads `mi.Total` and `mi.Available`, but the `MemInfo` struct in `cpu_usage.c` names its fields `Total_MB` and so on. That text is not modelled.
- The key file is modelled as the typed values its reads return. Parsing the key file and colour names is not modelled.

**Wrap-around and range assumptions**
- `Protocol.HandleCommand` states the QUIT and unknown-command cases in its own contract. The TOP and HISTORY replies are stated by `Protocol.HealthyReplies` for connections without failing writes. Under failing writes they are given by `Protocol.SendBlock` per block.
- `Protocol.SendSnapshot` states in its own contract only that a write is attempted. What a block sends is `Protocol.SendBlock`'s contract applied to the snapshot's lines.
- `TrayGraph.Tick`: the ageing blend is computed on unbounded integers. For stored values outside [0, SCALE] its 32-bit products could overflow; that is not modelled. `TrayGraph.BlendFitsInt` shows they do not overflow for values in [0, SCALE].
- `TrayGraph.ThermometerLevel`: the `(T-5)*100` overflow for readings beyond about ±21474841 degrees is not modelled.
- `TopProcs.Merge` and `TopProcs.ScanAll` state only lengths in their own contracts. Their contents are stated by `TopProcs.MergeFollowsScans`, `TopProcs.MergeTailAt`, `TopProcs.ScanAllSplits` and `TopProcs.ScanAllOne`.
- `Settings.LoadColors` and `Settings.LoadOptions` are stated through `Settings.SaveThenLoad`, `Settings.LoadReadsOnlyPrefKeys` and `Settings.DefaultsFromEmptyFile`, not by rows of their own.
- `RingCache.Valid` fixes the slot count at 60, the value `init_cache` always writes. A header altered by another process is not modelled.
- `CpuUsage.UsageIsShareOfScale` states the fraction only where no 64-bit sum or product wraps. The wrapped case is what `CpuUsage.Fraction` states.

## Findings

| source | as written | input that shows it | evidently intended | confidence | as-written member | corrected member |
|---|---|---|---|---|---|---|
| gatotray.c:226-227 | `(freq - min) * SCALE / (max - min)` divides by `max - min` unguarded | no frequency driver: `cpu_freq` returns 0 and the range stays 0..0, so the divisor is 0 | an empty range gives frequency 0 | high, not executed | TrayGraph.NormalizeFreqAsWritten, TrayGraph.FreqNormalisationWithoutDriver, TrayGraph.Tick | TrayGraph.NormalizeFreq, TrayGraph.TickCorrected |
| gatotray.c:226-227 | `(freq - min) * SCALE` is computed in 32-bit `int` with SCALE = 2^20 | 3000 MHz in 800..3400: 2200 * 2^20 overflows, and the column gets -764653 | the position of `freq` in [min, max] on [0, SCALE] | high, not executed | TrayGraph.NormalizeFreqAsWritten, TrayGraph.FreqNormalisationOverflows, TrayGraph.ShadeOfOverflowedFreq | TrayGraph.NormalizeFreq, TrayGraph.TickCorrected |
