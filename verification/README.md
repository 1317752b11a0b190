# Verified model of the coherence and memory micro-benchmarks

This Dafny project models the parts of the benchmark suite whose correctness is not obvious
from reading them, and proves what they are for. `dafny verify dfyconfig.toml` checks all of it.

**Pointer-chase memory.** A region is one or two disjoint allocations, modelled byte by byte as
two arrays. `MemRegion` threads it in place into a circular list in one of three patterns
(`MemLayout`, `Words`, `Shuffle`, `Orders`, `MemRegion`, `Patterns`). A ghost `order` of line
offsets is carried along, and the main result is that following pointers from any element visits
every element once and comes back (`Chase`). The values of `rand()` are an arbitrary function, and
`RandomStream` is the recurrence by which they select the swaps, so every result holds for every
stream. `NarrowLines` says exactly how wide a line must be. `LatencyChase` is the latency
benchmark: threading, the divisibility check and the unrolled chase.

**The turn-passing pipeline.** `TurnProtocol` is a state machine with a program counter for each
thread: lock, test, sleep, wake (also spuriously), work one turn, increment, broadcast, release.
`TurnRuns` has safety, deadlock freedom and termination for all interleavings; `TurnLiveness` has
termination of all fair infinite behaviours. `ReadModifyWrite`, `Coverage` and `RmwWork` are one
work item, `HalfPoints` its second stream from any address. `Pipeline` puts the two together: the
bytes of each partition in every reachable state, down to a turn inside a work item;
`PipelineLiveness` does so for infinite behaviours. `MultipleRdwr` is the program: it builds the
partitions and states the final contents of memory after warm-up and main run, from the sizes on the
command line (`MultipleRdwr.WholeProgram`). With `wraps = false` and one partition and iteration the
same protocol is the program in `src/misc/pthread_mutex.cc`.

**The others.** `WriterGate` is the writer-first gate, a mutex with a condition variable and a
rwlock; `GateLiveness` has its fair infinite behaviours. `PagePicker` finds physically contiguous
page groups. `PerfRing` is a ring buffer with a producer that appends at any moment and wraps
records round its end, read in place by `PidChannel` (a filter) and by `PebsChannel` (all cores into
one `PageHistogram`). `ThreadMap` maps threads to cores. `BandwidthKernels` are the unrolled
bandwidth loops.

## What the code does not do

Four promises do not hold without a condition. The code is modelled as it is, a lemma or a verified
method gives an input on which each fails, and the exact condition is proved for all inputs.

- The dual-stream update covers every line exactly once if and only if the list has even length
  and the half point is its middle line (`HalfPoints.DualExactAnywhere`, for every address the
  half point may be). Stride lists with an even number of lines and page-ordered lists with an even
  number of pages have that. The program always uses dual streams. With the fully random pattern a
  line can be missed (`MultipleRdwr.AllRandomHalfPoint`, `MultipleRdwr.AllRandomCanMissALine`, and
  how many: `Coverage.DualCoverage`). With an odd number of pages it depends on what is drawn
  (`HalfPoints.OddPagesExact`, `MultipleRdwr.OddPagesCanMissALine`). With an odd number of lines in
  stride order the half point is no line, and from five lines on the second turn of the first work
  item follows a null pointer (`MultipleRdwr.OddStridePartitionFaults`,
  `MultipleRdwr.FiveLinesFault`).
- A pass of the latency chase loads, and a work item of a single stream updates, as many lines as
  numActiveLines() says. In stride order the list has that many if and only if the stride divides
  the page and the page the active size (`Orders.StrideCountIsLineCount`); otherwise it is longer
  and its last lines are never visited (`LatencyChase.LengthIsActiveLines`,
  `LatencyChase.ShortPassMissesLines`, `MultipleRdwr.ShortSingleStreamMissesLines`), nor do dual
  streams of as few turns reach all lines (`HalfPoints.DualExactInTurns`). Strides of 96 bytes over
  128 pages of 4 KB pass the check that the latency benchmark makes and miss 86 lines of 5462
  (`LatencyChase.NinetySixByteStrides`).
- A list built by stride_init survives if and only if a line holds a pointer, or there is one
  line, or there are two and the bytes of the base address happen to repeat
  (`NarrowLines.StrideListIntact`); in a region of up to 4 GB three narrow lines or more survive
  in no other order either (`NarrowLines.NoNarrowList`). Counters touch no link and stay inside
  exactly as `NarrowLines.CountableLines` says; in a region that the lines fill, exactly if a line
  has 40 bytes (`NarrowLines.FilledRegionCounts`). Lines of 32 bytes lose the next link to the
  first increment (`NarrowLines.LinesOf32Break`).
- Both readers of the perf ring read a record where it starts, through a pointer to a struct, but
  the kernel wraps records round the end of the ring, and nothing is mapped there. A call faults
  exactly if it comes to a record with a field it reads beyond the end
  (`PidChannel.Channel.ReadSample`, `PebsChannel.Channel.Drain`), and what is consumed without a
  fault is right. On a stream of bare samples no call ever faults if and only if the size of a
  sample divides the ring (`PidChannel.NoCallFaults`, `PebsChannel.NoDrainFaults`); neither size
  does. With 40-byte samples in 16384 bytes the 410th call faults (`PidChannel.FirstLap`), with
  24-byte samples in 262144 bytes the drain that comes to the 10923rd (`PebsChannel.FirstLap`).

Assumptions, all visible as preconditions: allocations are non-null, disjoint and below 2^64;
every pointer that an initialiser stores is inside one of the two parts of the region; sequences
are short enough for the 32-bit index of the shuffle; records of the perf ring carry their own
size, and samples hold the fields that are read; pages have distinct, page-aligned physical addresses.

## Model

| member | source | states |
|---|---|---|
| MultipleRdwr.WholeProgram | src/coherence/multiple_rdwr.cc:84-124 | From the sizes on the command line: MemSetup's partitions, one at the page boundary after each answer of malloc and each in its drawn order, are ready for the pipeline, and for every interleaving of the warm-up and of the main run every line of every partition ends with its counter at 2*N*I modulo 2^64 and its link as it was initialised |
| MultipleRdwr.EndToEnd | src/coherence/multiple_rdwr.cc:94-124 | For every interleaving of the warm-up run and of the main run, any number of threads, partitions and iterations, with the second stream started at the address getHalfPoint computes: each line's counter word is N*I after the first run and 2*N*I after the second, modulo 2^64, and every link word is as the initialiser left it |
| Pipeline.BothRunsFromZero | src/coherence/multiple_rdwr.cc:110-124 | The same for partitions in any layout and order whose counters start at zero: in single-stream mode for every list, in dual-stream mode when the half point is the middle line of an even list |
| Pipeline.AfterBothRuns | src/coherence/multiple_rdwr.cc:20-63 | For any half point on the list: after two runs, the second by threads created anew on the mutexes, flow steps and memory that the first left, memory differs from the start by 2*N*I times what one work item adds to each line, and in nothing else |
| Pipeline.AfterAllWork | src/coherence/multiple_rdwr.cc:20-63 | When all threads of one run have returned, each partition shows exactly N*I work items |
| Pipeline.SystemRunInv | src/coherence/multiple_rdwr.cc:20-63 | Every run of any length keeps the invariant that ties each partition's bytes, even in the middle of a work item, to the completed items of that partition |
| Pipeline.SystemStepInv | src/coherence/multiple_rdwr.cc:23-59 | Every step of every thread keeps it |
| Pipeline.SystemRunIsRun | src/coherence/multiple_rdwr.cc:20-63 | Memory never influences the protocol: a run of the whole system is a run of the turn protocol, so its results carry over |
| Pipeline.CanFinish | src/coherence/multiple_rdwr.cc:23-63 | From every reachable state of the whole system some run, without spurious wake-ups, brings all threads home |
| Pipeline.SomeRunFinishes | src/coherence/multiple_rdwr.cc:110-124 | So for every set-up a finished run exists, and the results about finished runs are not empty |
| Pipeline.ReadyAgain | src/coherence/multiple_rdwr.cc:110-124 | A finished run leaves lists intact, mutexes free and flow steps at 0: threads created anew on it are in the state in which the first run began |
| PipelineLiveness.FairBehavioursFinish | src/coherence/multiple_rdwr.cc:20-63 | Every fair infinite behaviour of the whole program, with any number of spurious wake-ups, reaches an instant at which a finished run is behind it |
| PipelineLiveness.FairBehavioursCount | src/coherence/multiple_rdwr.cc:20-63 | At that instant every partition shows exactly N*I work items |
| PipelineLiveness.SomeBehaviourIsFair | src/coherence/multiple_rdwr.cc:20-63 | Every set-up has a fair behaviour |
| MultipleRdwr.MemSetup | src/coherence/multiple_rdwr.hh:50-79 | One region per partition, each at the page boundary after what malloc answered for it and apart from the others, linked from cleared memory in the chosen pattern, in the order its own values of rand() lead to, for every stride whose stores are inside the partition; an unknown pattern exits unless there are no partitions |
| MultipleRdwr.NewPartition | src/coherence/multiple_rdwr.hh:65-77 | One partition: allocated, zeroed, and linked by the stores of its pattern, whether or not they overlap; one cycle if lines hold a pointer |
| MultipleRdwr.IsThreaded | src/coherence/multiple_rdwr.cc:41-42 | With lines of five words or more, the last of which ends inside, moreover every line has a counter of its own, inside the partition and at zero |
| MultipleRdwr.PartitionsAreSetUp | src/coherence/multiple_rdwr.cc:84-108 | Partitions made with a stride that divides the page and a page that divides the partition are set up as the end-to-end result needs: without further condition for a single stream, with an even number of lines (stride) or pages (pageRand) for dual streams |
| MultipleRdwr.SetUpIsReady | src/coherence/multiple_rdwr.cc:94-108 | Partitions so made meet what the pipeline needs, and with the stated parity the half point lies at the middle position of every list |
| Patterns.ListShape | src/coherence/multiple_rdwr.hh:107-113 | The list has one element per line the pattern links and starts at offset 0 |
| Patterns.Initialise | src/coherence/multiple_rdwr.hh:68-77 | The pattern chooses the initialiser, for lines of any size whose stores are inside the region: memory is what its stores leave one after the other in the order of that pattern, one cycle with nothing else written if lines hold a pointer; an unknown pattern leaves the region alone |
| Patterns.FittingIsStorable | src/utils/lib_mem_region.cc:213-255 | Sizes with which all stores are inside: lines hold a pointer, no line straddles the two parts, and the active part is inside the region |
| MultipleRdwr.HalfIsMiddle | src/utils/lib_mem_region.hh:42 | Stride lists of even length and page-ordered lists of an even number of pages have half the active size at their middle position |
| MultipleRdwr.CountersStayClear | src/utils/lib_mem_region.cc:50 | Linking writes no counter word: it is still zero after the initialiser |
| MultipleRdwr.OddStridePartitionFaults | src/coherence/multiple_rdwr.cc:38-45 | On a stride partition with an odd number of lines, three or more, getHalfPoint answers no line; the first turn of the first work item loads a null pointer from there, and the work item faults exactly if there are more than three lines |
| MultipleRdwr.FiveLinesFault | src/coherence/multiple_rdwr.cc:38-45 | For instance five lines of 1024 bytes in a partition of 5 KB |
| MultipleRdwr.AllRandomHalfPoint | src/coherence/multiple_rdwr.hh:72-73 | From any seed some values of rand() make all_random_init link four lines of 256 bytes in the order 0, 512, 256, 768 |
| MultipleRdwr.AllRandomCanMissALine | src/coherence/multiple_rdwr.cc:38-45 | On a 1 KB partition in that order the dual streams, from the address getHalfPoint answers, never update one of the lines |
| MultipleRdwr.OddPagesHalfPoint | src/coherence/multiple_rdwr.hh:70-71 | From any seed some values of rand() make page_random_init link the four lines of each of three pages of 1 KB in the order 0, 512, 256, 768 |
| MultipleRdwr.OddPagesCanMissALine | src/coherence/multiple_rdwr.cc:38-45 | On a 3 KB partition in that order the dual streams never update one of the twelve lines |
| MultipleRdwr.ShortSingleStreamMissesLines | src/coherence/multiple_rdwr.hh:107 | A stride list is longer than getNumLines says if and only if the stride does not divide the page or the page the partition; then a work item of a single stream leaves the counters of its last lines at 0 |
| Region.MemRegion.StrideInit | src/utils/lib_mem_region.cc:214-221 | For lines of any size the loop makes its stores in address order, the last one back to the start; where lines hold a pointer the region is one cycle through the multiples of the line size below the active size, and no byte outside the link words changes |
| Region.MemRegion.AllRandomInit | src/utils/lib_mem_region.cc:245-255 | For every stream of rand() values and lines of any size whose stores are inside: the stores are made through all numActiveLines() active lines, from offset 0, in the order that the stream determines; where lines hold a pointer the region is one cycle through them and no other byte changes |
| Region.MemRegion.PageRandomInit | src/utils/lib_mem_region.cc:224-242 | The same over all pages times lines in a page, also when the line size does not divide the page size: a page is finished before the next one is entered at its first line |
| Region.MemRegion.Create | src/utils/lib_mem_region.cc:14-70 | The constructor fails exactly when region 2 is larger than the whole; otherwise it yields a zeroed region of the given sizes, in which each part that has a size starts at the first multiple of the page size after what malloc answered, or at its mapping, and the start point is the start of the first such part |
| Region.BaseStartsIn | src/utils/lib_mem_region.cc:104-130 | The address taken inside a padded allocation is the first page boundary after the pointer, that of a mapping the pointer itself |
| Region.LayoutForValid | src/utils/lib_mem_region.cc:44-67 | Aligned addresses inside disjoint allocations give disjoint in-bounds regions |
| Region.MemRegion.StrideRing | src/utils/lib_mem_region.cc:214-221 | Every offset that stride_init touches is inside one of the two regions and no two of its link words overlap |
| Region.MemRegion.AllRandomRing | src/utils/lib_mem_region.cc:245-255 | The same for every permutation of the lines |
| Region.MemRegion.PageRing | src/utils/lib_mem_region.cc:224-242 | The same for every permutation of the lines of a page |
| Region.MemRegion.LoadWord | src/lat_bw/lat_mem_rd.cc:121 | A load at a mapped address reads the word at its offset |
| Region.MemRegion.StoreWord | src/utils/lib_mem_region.cc:218 | A store at a mapped address changes the eight bytes at its offset and no others, in whichever region they are |
| MemLayout.AddrRoundTrip | src/utils/lib_mem_region.cc:204-211 | Every offset below the size maps to an address of one of the regions, from which the offset can be recovered; the assertion never fails |
| MemLayout.ObjectsDisjoint | src/utils/lib_mem_region.cc:204-211 | Objects at two offsets overlap in memory if and only if they overlap as offsets; different offsets never alias |
| MemLayout.AlignedAddrFits | src/utils/lib_mem_region.cc:124-126 | The address taken from the padded allocation is the first page boundary after its start and leaves the whole requested size inside |
| Chase.HopsOnCycle | src/utils/lib_mem_region.cc:213 | k hops from position i of a cycle reach position (i + k) modulo its length |
| Chase.CycleVisitsEachOnce | src/utils/lib_mem_region.cc:213 | From any element, as many hops as there are elements visit every element exactly once and return |
| Chase.LinkNext | src/utils/lib_mem_region.cc:218 | Writing one more link keeps those already written, because no two link words overlap |
| Orders.LineOrderCovers | src/utils/lib_mem_region.cc:244-255 | An order of the lines from a shuffle starts at 0, repeats nothing and contains exactly the active line offsets |
| Orders.PageOrderCovers | src/utils/lib_mem_region.cc:223-242 | Position i*L is the start of page i, and positions i*L .. (i+1)*L - 1 are the lines of page i, each of them |
| Orders.PageOrderSpaced | src/utils/lib_mem_region.cc:231-241 | No two elements of a page order are closer than a line |
| Orders.StrideCountIsLineCount | src/utils/lib_mem_region.hh:39 | ceil(active / line) is numActiveLines() if and only if the line divides the page and the page the active size; otherwise it is more |
| NarrowLines.StrideListIntact | src/utils/lib_mem_region.cc:214-221 | For lines of any size in one page-aligned part: after stride_init every link leads on if and only if a line holds a pointer, or there is one line, or there are two and the bytes of the base address repeat with the line size as period |
| NarrowLines.ThreeNarrowLinesFail | src/utils/lib_mem_region.cc:214-221 | No memory at all holds three or more lines narrower than a pointer linked in address order |
| NarrowLines.NoNarrowList | src/utils/lib_mem_region.cc:245-255 | Nor linked in any other order, in a region of up to 4 GB |
| NarrowLines.FourByteLinesFail | src/utils/lib_mem_region.cc:217-220 | For instance 256 lines of four bytes in a region of 2 KB |
| NarrowLines.NarrowLinesLeaveTheRegion | src/utils/lib_mem_region.cc:220 | If the active size is the whole region, the last store of lines narrower than a pointer runs over its end |
| NarrowLines.CountableLines | src/coherence/multiple_rdwr.cc:41-42 | A list of evenly spaced lines can be counted on - links apart, every counter inside the region and on no link - exactly if the last counter is inside and there is one line or lines hold a pointer and no small multiple of the line size lies strictly between 24 and 40 |
| NarrowLines.CountersClearOfLinks | src/coherence/multiple_rdwr.cc:41-42 | Exactly when some counter shares a byte with some link |
| NarrowLines.FilledRegionCounts | src/coherence/multiple_rdwr.cc:41-42 | If the lines fill the region, a list can be counted on exactly if a line has 40 bytes |
| NarrowLines.CounterBreaksLink | src/coherence/multiple_rdwr.cc:41-42 | A counter that starts inside a link changes it with the first increment |
| NarrowLines.LinesOf32Break | src/coherence/multiple_rdwr.cc:41-42 | For instance lines of 32 bytes |
| Shuffle.RandomizeSequence | src/utils/lib_mem_region.cc:176-202 | For any stream and any positive unit the result lists {0, unit, ..., (size - 1) * unit} once each: in order, or shuffled by the stream with 0 first |
| Shuffle.SwapAtRandom | src/utils/lib_mem_region.cc:186-193 | The swap loop, with its recurrence r = (r << 1) ^ rand(), computes the shuffle that the stream determines and keeps a permutation |
| Shuffle.StartWithZero | src/utils/lib_mem_region.cc:194-201 | The zero is exchanged to the front with a 32-bit index, for every size that index can count to |
| Shuffle.ShuffleKeepsPermutation | src/misc/contiguous_mem_alloc.cc:25-46 | The shuffle of a permutation is a permutation |
| Shuffle.ShuffleReachesEvery | src/utils/lib_mem_region.cc:186-202 | For every order of up to 2^31 entries that starts with 0 and from any first value of r, some stream of rand() values yields that order and no other: nothing smaller than any order can be promised |
| Shuffle.ShuffleLands | src/utils/lib_mem_region.cc:188-193 | The swaps take each entry to the place found by following it: the one drawn for a position stays there, the one it drives out takes its place, the others do not move |
| Shuffle.StreamOrder | src/utils/lib_mem_region.cc:186-202 | Which order a stream leads to: every multiple stands where it lands, except that the one that lands first has traded places with zero |
| Shuffle.FourLines | src/utils/lib_mem_region.cc:176-202 | For instance four lines, r = 0 at first and rand() values 1, 0, 0: the order 0, 3, 2, 1 |
| RandomStream.StreamAims | src/utils/lib_mem_region.cc:187-189 | Whatever remainders of r are wanted at the positions, some stream of 31-bit rand() values leads r = (r << 1) ^ rand() through them |
| RandomStream.DrawBits | src/utils/lib_mem_region.cc:187-189 | Closed form of r = (r << 1) ^ rand(): digit b of r at a position is the parity of the ones that meet there, of the first r shifted left once for every draw so far and of each rand() value shifted left once for every draw since |
| RandomStream.DrawFits | src/utils/lib_mem_region.cc:187-189 | r has no digits beyond the 64th, so those determine it |
| LatencyChase.BenchmarkLoads | src/lat_bw/lat_mem_rd.cc:127-140 | In any memory: every outer pass makes the loads of the simple chase from the start, for any iteration count; it faults exactly where that chase follows a pointer to no word, and errs exactly if the chase ends at null |
| LatencyChase.LapReadsEachLineOnce | src/lat_bw/lat_mem_rd.cc:89-92 | A trace as long as the list loads every line, none twice |
| LatencyChase.PassEndsAtStart | src/lat_bw/lat_mem_rd.cc:89-92 | A pass ends where it began exactly if the length of the list divides its 256 * loop_count loads |
| LatencyChase.Measure | src/lat_bw/lat_mem_rd.cc:73-119 | From the choice of the pattern to the result, for lines of any size whose stores are inside: when it faults; where lines hold a pointer it does not, every pass makes numActiveLines() loads round the list, and it loads every line exactly once and comes back to the start if and only if that is the length of the list |
| LatencyChase.LengthIsActiveLines | src/utils/lib_mem_region.hh:39 | It is for both random patterns, and for strides if and only if they divide the page and the page the active size; otherwise the list is longer |
| LatencyChase.ShortPassMissesLines | src/lat_bw/lat_mem_rd.cc:127-140 | A pass of fewer loads than the list is long never loads the lines after that |
| LatencyChase.NinetySixByteStrides | src/lat_bw/lat_mem_rd.cc:89-92 | For instance strides of 96 bytes over 128 pages of 4 KB: 5376 loads, which the unrolled loop divides, and 5462 lines |
| RmwWork.Work | src/coherence/multiple_rdwr.cc:31-51 | One work item on real memory, from whatever addresses the region answers: it faults exactly if some turn follows a pointer to no word, and otherwise does what the turn-by-turn state machine does; on a list with room for counters and, for dual streams, a half point on it there is no fault, counters grow by their tally, nothing else changes and the final pointer is not null |
| RmwWork.Turn | src/coherence/multiple_rdwr.cc:41-44 | One turn of the loop is one step of the work-item state machine, also when both streams meet on one line |
| RmwWork.CountedDetermines | src/coherence/multiple_rdwr.cc:31-51 | The tally fixes every byte of the result |
| ReadModifyWrite.RunWalks | src/coherence/multiple_rdwr.cc:33-51 | After k turns both pointers stand at their k-th line and the counters show the k-turn tally |
| ReadModifyWrite.BumpCounts | src/coherence/multiple_rdwr.cc:41-42 | Incrementing through a pointer changes the counter of that line only |
| ReadModifyWrite.CountedKeepsCycle | src/coherence/multiple_rdwr.cc:41-49 | Counter writes never touch a link word, so the list stays one cycle |
| ReadModifyWrite.CountedCompose | src/coherence/multiple_rdwr.cc:20-21 | Work after work adds up, with 64-bit wrap-around |
| ReadModifyWrite.ReaderLap | src/coherence/multiple_rdwr.cc:34-37 | The work item of a reader reads every line, none twice, ends at the start and writes nothing |
| Coverage.DualCoverage | src/coherence/multiple_rdwr.cc:38-45 | Dual streams on a cycle of length 2q with the half point at k: no line more than twice, 2q updates in all, and as many lines missed as updated twice: abs(q - k) |
| HalfPoints.DualExactAnywhere | src/coherence/multiple_rdwr.cc:38-45 | For every list with room for counters and every address getHalfPoint may answer, a line or not: the dual streams update every line exactly once if and only if the length is even and the half point is the middle line |
| HalfPoints.DualExactInTurns | src/coherence/multiple_rdwr.cc:38-45 | The same for any number of turns up to half of the lines, which is what a stride list longer than numActiveLines() gets: exactly once each if and only if the turns are half of the lines and the half point is the middle line |
| HalfPoints.OffListMisses | src/coherence/multiple_rdwr.cc:38-45 | From a half point that is no line some line is never updated, whatever memory leads the second stream to |
| HalfPoints.UpdatesAreTallied | src/coherence/multiple_rdwr.cc:40-45 | From a half point on the list each line is updated as often as its tally says |
| HalfPoints.StrideHalfIsALine | src/utils/lib_mem_region.hh:42 | On a stride list that fills the active size half of that is a line if and only if there is an even number of lines |
| HalfPoints.OddPagesExact | src/utils/lib_mem_region.hh:42 | With an odd number of pages of even size: half the active size is the middle line if and only if the pages have an even number of lines and the order drawn for them has the line in the middle of the page halfway |
| HalfPoints.OddStrideFaults | src/coherence/multiple_rdwr.cc:38-45 | With an odd number of lines, three or more, the first turn on a freshly linked region loads null at the half point; a second turn, with five lines or more, follows it |
| Coverage.SingleExact | src/coherence/multiple_rdwr.cc:46-51 | A single stream updates every line exactly once, a reader none |
| Coverage.ShortSingleStream | src/coherence/multiple_rdwr.cc:46-51 | A single stream of m turns on a list no shorter than m updates every line exactly once if and only if the list has m lines, and leaves the lines from the m-th on alone |
| Coverage.TallyDual | src/coherence/multiple_rdwr.cc:40-45 | How often each line has been updated after k turns |
| Coverage.StrideHalfPoint | src/utils/lib_mem_region.hh:42 | On an even stride list half the active size is the middle if and only if the line size divides the active size |
| Coverage.PageHalfPoint | src/utils/lib_mem_region.hh:42 | On a page-ordered list of an even number of pages half the active size is the middle |
| TurnRuns.TurnOrder | src/coherence/multiple_rdwr.hh:118-120 | In every reachable state: at most one thread works on a partition and it is the one flow_step names; the k-th completed item is thread k mod N's; flow_step is the number of completed items mod N; of two threads the earlier is ahead by 0 or 1 |
| TurnRuns.RunInv | src/coherence/multiple_rdwr.cc:20-63 | Every run of every interleaving keeps mutual exclusion, turn order and no lost wake-up |
| TurnProtocol.StepLocks | src/coherence/multiple_rdwr.cc:23-26 | Each mutex has exactly one holder while held and none otherwise |
| TurnProtocol.StepInTurn | src/misc/pthread_mutex.cc:37-40 | A thread past the test is the one whose id flow_step shows |
| TurnProtocol.StepOrdered | src/coherence/multiple_rdwr.cc:57 | Completed items stay in turn and each thread's share of them matches its place in its loops |
| TurnProtocol.StepNoLostWakeup | src/coherence/multiple_rdwr.cc:57-59 | No thread sleeps on a partition whose flow_step equals its id, except while the holder is between increment and broadcast |
| TurnRuns.ShareCounts | src/coherence/multiple_rdwr.hh:118-120 | Of w items in turn order thread t has done w / N, and one more if t < w mod N |
| TurnRuns.LeastHasTurn | src/coherence/multiple_rdwr.cc:24 | The thread with the lexicographically least unfinished (iteration, partition, thread) always has the turn on its partition |
| TurnRuns.Progress | src/coherence/multiple_rdwr.cc:23-59 | Deadlock freedom: while work is unfinished that thread, or the holder of the mutex it needs, can step |
| TurnRuns.OnlyTheMutexBlocks | src/coherence/multiple_rdwr.cc:23-26 | An unfinished thread can move exactly if it is not in the wait and, where it is to lock, no thread is between lock and unlock of that mutex |
| TurnRuns.StepIsLocal | src/coherence/multiple_rdwr.hh:50-79 | A step on one partition changes neither mutex, flow step and record of another one nor any thread at another one |
| TurnRuns.RunBound | src/coherence/multiple_rdwr.cc:20-63 | Termination: a run has no more steps than a bound fixed at the start plus three per spurious wake-up |
| TurnRuns.EndOfRun | src/coherence/multiple_rdwr.hh:118-120 | When all threads have returned every partition has N*I items, a free mutex and flow_step 0; without wrap-around it holds N*I |
| TurnLiveness.FairRunsFinish | src/coherence/multiple_rdwr.cc:20-63 | Every fair infinite behaviour, with any number of spurious wake-ups, reaches a state in which all threads have returned |
| TurnLiveness.EventuallyFinished | src/coherence/multiple_rdwr.cc:20-63 | So does what follows any moment of such a behaviour |
| TurnLiveness.WorkGoesOn | src/coherence/multiple_rdwr.cc:20-63 | From any instant of a fair behaviour at which work is unfinished, the work left falls |
| WriterGate.WriterBeforeReaders | src/misc/pthread_rdwr.cc:29-52 | In every run no reader works before the writer has released the rwlock, and every reader's work in the log comes after that release |
| WriterGate.Progress | src/misc/pthread_rdwr.cc:65-89 | No reachable state is deadlocked, although the writer lets go of the mutex before the rwlock |
| WriterGate.OnlyLocksBlock | src/misc/pthread_rdwr.cc:29-89 | Anyone unfinished can move exactly if no one else is inside the lock that is to be taken next, unless asleep in the wait |
| WriterGate.CompleteRun | src/misc/pthread_rdwr.cc:20-91 | A complete run records the work of the writer, then the release of the rwlock, then the work of each reader, each once |
| WriterGate.StepInv | src/misc/pthread_rdwr.cc:29-52 | Lock ownership, a read lock for exactly the readers at work, the gate, no lost wake-up and the record are kept by every step, spurious wake-ups included |
| WriterGate.RunBound | src/misc/pthread_rdwr.cc:20-91 | A run has no more steps than a bound fixed at the start plus three per spurious wake-up |
| GateLiveness.FairBehavioursFinish | src/misc/pthread_rdwr.cc:20-91 | An infinite behaviour, with any number of spurious wake-ups, is fair if and only if it comes to an instant at which the writer and all readers have finished |
| GateLiveness.EventuallyDone | src/misc/pthread_rdwr.cc:20-91 | So it does from any instant of a fair behaviour |
| PagePicker.PickGroups | src/misc/contiguous_mem_alloc.cc:154-169 | The loop leaves exactly the specified picks in the array and never overruns it |
| PagePicker.WindowIsContiguous | src/misc/contiguous_mem_alloc.cc:159-160 | Checking the first and the last address of a window of sorted distinct pages suffices: all its pages are consecutive |
| PagePicker.CompleteHasWindow | src/misc/contiguous_mem_alloc.cc:159-160 | Conversely every complete aligned group in the pool passes that check |
| PagePicker.StartsAreGroupBases | src/misc/contiguous_mem_alloc.cc:157-160 | The windows found are the complete groups of the pool, each once |
| PagePicker.PicksCount | src/misc/contiguous_mem_alloc.cc:155-167 | min(groups asked for, complete groups in the pool) groups are picked |
| PagePicker.PicksAreCanonical | src/misc/contiguous_mem_alloc.cc:157-168 | The k-th group picked is the k-th lowest complete group, its j-th page the j-th page of that group |
| PagePicker.GroupsDoNotOverlap | src/misc/contiguous_mem_alloc.cc:157-163 | Although the index advances by one, no page is in two windows |
| PagePicker.PicksAscend | src/misc/contiguous_mem_alloc.cc:157-163 | Picks are in strictly ascending address order, so none occurs twice |
| PerfRing.ProduceValid | src/misc/perf_sample_pid.cc:221-233 | Appending a record that fits in what has been freed, wrapped round the end of the ring if need be, leaves every unread record in place |
| PerfRing.DeliverValid | src/misc/perf_sample_pid.cc:221-233 | So does any sequence of attempts, which never takes anything back |
| PerfRing.ReadInPlace | src/misc/perf_sample_pid.cc:232-234 | The fields read at the tail that end before the end of the ring are those of the next record of the log, and adding its size reaches the next boundary, not beyond the head |
| PerfRing.PublishValid | src/misc/perf_sample_pid.cc:250-251 | Writing the new tail frees the records read and no others |
| PerfRing.WriteKeeps | src/misc/perf_sample_pid.cc:231-232 | Writing a record spares every byte less than a ring behind its end |
| PerfRing.WriteStores | src/misc/perf_sample_pid.cc:231-232 | A record no longer than the ring is there to be read back, byte j at its position modulo the size of the ring |
| PerfRing.StraddlesUnlessDivides | src/misc/perf_sample_pid.cc:232-233 | In a stream of records of one size none straddles the end of the ring if and only if that size divides the ring |
| PerfRing.ReadsOverTheEnd | src/misc/perf_sample_pid.cc:233-244 | In such a stream a read that ends in the last eight bytes of a record leaves the mapping exactly if the record straddles the end |
| PidChannel.NoCallFaults | src/misc/perf_sample_pid.cc:207-253 | On a stream of matching bare 40-byte samples no call ever faults if and only if 40 divides the ring |
| PidChannel.BareSampleFaults | src/misc/perf_sample_pid.cc:232-244 | The call that has the k-th of them waiting faults exactly if that one straddles the end |
| PidChannel.FirstLap | src/misc/perf_sample_pid.cc:216-253 | On a freshly bound channel of 16384 bytes, one such sample before each call: 409 calls return it, the 410th faults |
| PidChannel.Channel.ReadSample | src/misc/perf_sample_pid.cc:216-253 | With the kernel appending at any moment: the call faults exactly if, of the records there when the head is read, one up to the first match is read over the end of the mapping; otherwise the sample returned has cpu, pid, tid and address of the next matching record, each under its own name, in order and once, or EAGAIN is returned after everything produced before the call has been looked at; an unbound channel is refused and untouched |
| PidChannel.RecordRead | src/misc/perf_sample_pid.cc:207-246 | For a record laid out as struct perf_sample: it matches exactly if its id and pid are those of the channel, the sample read from it has its components by name, and 16, 20 or 36 bytes of it are read |
| PidChannel.SampleIsRecord | src/misc/perf_sample_pid.cc:207-214 | Every sample record is the layout of such components |
| PidChannel.Channel.Scan | src/misc/perf_sample_pid.cc:227-249 | The scan ends at the first record whose fields run over the end, or just after the first match, or at the head, always on a record boundary, having passed over records only that neither match nor run over |
| PidChannel.Channel.Refines | src/misc/perf_sample_pid.cc:216-253 | Samples returned so far followed by the matching records still waiting are the matching records produced |
| PidChannel.MatchingConcat | src/misc/perf_sample_pid.cc:235-237 | Filtering a log in two pieces is filtering it whole |
| PebsChannel.Channel.ReadPebsData | src/misc/perf_sample_cpu.cc:165-242 | Over all buffers and passes: under each process and each 4096-byte page the histogram gains exactly the number of samples consumed of that process with an address on that page, samples and others together are the records consumed, each counter wraps at 2^32, every pass leaves at most 128 bytes of what it finds in each buffer of the group, no other buffer is consumed from, what was consumed stays consumed, and none of it was read over the end of a mapping; a fault means that in some buffer of the group a record waits that is |
| PebsChannel.RecordRead | src/misc/perf_sample_cpu.cc:196-206 | For a record laid out as struct perf_sample: what is counted has its pid and the page of 4096 bytes that holds its address, and 24 bytes of it are read |
| PebsChannel.SampleIsRecord | src/misc/perf_sample_cpu.cc:48-55 | Every sample record is the layout of such components |
| PebsChannel.CountedByName | src/misc/perf_sample_cpu.cc:203-206 | What is counted under a process and a page are exactly the samples of that process with an address on that page |
| PebsChannel.OneSample | src/misc/perf_sample_cpu.cc:203-206 | For instance one sample of process 7 at address 0x1234567 counts under page 0x1234 |
| PebsChannel.Channel.Drain | src/misc/perf_sample_cpu.cc:177-217 | One buffer: it faults exactly if, of the records more than 128 bytes before the head read, one runs over the end of the mapping; otherwise the tail ends within 128 bytes of that head and not beyond it, and no other buffer is consumed from |
| PebsChannel.Channel.Monitor | src/misc/perf_sample_cpu.cc:252-268 | Unless a drain faults: the four rounds drain cores 4i to 4i + 3, counted round the cores, so at most 128 bytes of what waited in each core below 16 are left and no other core is touched; what is reported of every process is what the records consumed from all buffers say, no process with a sample waiting before those bytes is missing, and the totals reported are the samples of all calls modulo 2^32 |
| PebsChannel.TotalsUpdate | src/misc/perf_sample_cpu.cc:177-217 | Consuming from one buffer adds to the account of all buffers what it adds to that one |
| PebsChannel.ProgressCompose | src/misc/perf_sample_cpu.cc:172-217 | Accounts of successive passes and calls add up |
| PebsChannel.GroupFits | src/misc/perf_sample_cpu.cc:255-259 | Every group of four cores lies within the buffers |
| PebsChannel.NoDrainFaults | src/misc/perf_sample_cpu.cc:57-64 | On a stream of bare 24-byte samples no drain ever faults if and only if 24 divides the ring |
| PebsChannel.BareDrainFaults | src/misc/perf_sample_cpu.cc:187-206 | On bare samples a drain faults exactly if one more than five before the last straddles the end |
| PebsChannel.FirstLap | src/misc/perf_sample_cpu.cc:177-217 | On a freshly bound channel of 262144 bytes flooded with bare samples the first drain of 10922 samples does not fault, the second one does |
| PageHistogram.PageCount.Add | src/misc/perf_sample_cpu.cc:203-206 | The nested map goes on representing the multiset of all accesses counted |
| PageHistogram.BumpRepresents | src/misc/perf_sample_cpu.cc:203-206 | One more access: a counter for every pair that occurs and for no other, equal to its number of occurrences modulo 2^32 |
| PageHistogram.ProcessOne | src/misc/perf_sample_cpu.cc:154-161 | A process is reported with its number of distinct pages and its number of accesses, modulo 2^32 |
| PageHistogram.ProcessStats | src/misc/perf_sample_cpu.cc:152-163 | In any iteration order each process seen is reported once and the totals add up to all accesses modulo 2^32 |
| ThreadMap.Create | src/utils/lib_threading.hh:37-78 | The set-up exits if and only if the step does not divide the cores; otherwise every thread has its id and core |
| ThreadMap.BlockIsPermutation | src/utils/lib_threading.hh:61-63 | Each block of as many threads as cores, from a multiple of the cores, covers every core once |
| ThreadMap.CoreWalk | src/utils/lib_threading.hh:61-63 | Thread 0 is on the start core, the next thread of a group a step further, the first of the next group next to the first of this one, round the cores |
| ThreadMap.FourCores | src/coherence/multiple_rdwr.cc:77 | For instance, as the usage text says, step 2 on four cores leads to 0, 2, 1, 3 |
| ThreadMap.Balanced | src/utils/lib_threading.hh:59-76 | For any number of threads and any start core each core gets the floor or the ceiling of its share |
| ThreadMap.LoadIs | src/utils/lib_threading.hh:59-76 | It gets one thread of every whole block and one more exactly if the last block has come to it |
| BandwidthKernels.BenchmarkPrmw | src/lat_bw/bw_mem.cc:156-174 | Every fourth word of the active size grows by the number of iterations modulo 2^64; no other word changes; all accesses in bounds |
| BandwidthKernels.BenchmarkPcp | src/lat_bw/bw_mem.cc:176-198 | Every fourth word of the second half becomes its source, unless there are no iterations; no other word changes |
| BandwidthKernels.BenchmarkPrd | src/lat_bw/bw_mem.cc:114-134 | The result is the sum of every fourth word times the iterations, modulo 2^64, as an int |
| BandwidthKernels.LoopsCoverActiveSize | src/lat_bw/bw_mem.cc:95-97 | The loops go over exactly the active size, and the copy's half point is the first word after it |
| BandwidthKernels.RunsInside | src/lat_bw/bw_mem.cc:114-117 | In a region of two parts the addresses that a kernel walks are those of the active bytes, offset by offset, if and only if the first part holds them, or there is none, or the second part directly follows it; otherwise the kernel leaves the region where the first part ends |
| BandwidthKernels.RowSum | src/lat_bw/bw_mem.cc:123-129 | The 32 unrolled terms are the simple stride-4 sum of a row |

## Left out

- Operating-system calls (malloc, mmap, numa, mremap, /proc/self/pagemap, perf_event_open and its ioctls, close): their results are parameters with stated conditions. So bind, unbind, enable, disable and setPeriod are not modelled.
- Page migration and `src/misc/move_pages.cc`: a foreign call and status printing.
- Timers, wall-clock and floating-point figures, the size and sleep computations of readPebsData: the clock appears as a number of passes, at least one.
- Argument parsing, usage text, dump functions and console output.
- `src/coherence/smt_rdwr.cc`: the single-stream count without the turn protocol.
- `src/misc/virt_to_phys_user.cc`: file input and a split of bit fields.
- The quality of `rand()`: every stream of 31-bit values is allowed. The first value of r is taken as arbitrary: the code computes it from two calls of rand() in a signed int that may overflow.
- Shuffle.ShuffleReachesEvery: for up to 2^31 entries, as many as rand() has values; the shuffle itself is modelled up to 2^32.
- NarrowLines.NoNarrowList: for regions of up to 4 GB and orders of all lines, not for page orders; the result for stride_init has no such bound.
- Records that do not fit in what the consumer has freed: the modelled producer drops them.
- PidChannel.Channel.ReadSample, PebsChannel.Channel.Drain: a read beyond the end of the mapping ends the model. What another mapping there, if there is one, would supply is not modelled, nor is what a faulting drain has already counted of the record it faults on.
- Hardware memory ordering: steps are sequentially consistent.
- Wrap-around of sizes, offsets, ring positions and loop counters in 32 or 64 bits (for instance `1024*partition_size`): excluded by preconditions or by unbounded integers. Wrap-around of counters that the programs report or write to memory is modelled.
- Sorting the page pool: std::sort is foreign code, and the picker starts from a pool sorted by distinct addresses.
- The remapping of picked pages and the chase in `src/misc/contiguous_mem_alloc.cc`: its shuffle and initialiser are those of the region with one allocation.
- benchmark_pwr of `src/lat_bw/bw_mem.cc`: prmw's loop with a constant, easier than prmw.
- setRoutine, create and join of `ThreadHelper`: a filtered fill of an array and foreign calls.
- The read-only flag is one of three modes of the work item; the programs never mix modes between threads, and neither does the model.
- RmwWork.Work: the three loops of the branch are one loop that dispatches on the mode.
- Pipeline.SystemRunInv: partitions are separate byte sequences; `MultipleRdwr.MemSetup` shows that their arrays and their addresses are apart, given that malloc's answers are. A dual stream whose half point is no line of its list follows pointers to anywhere; `HalfPoints` and `RmwWork` treat that case, up to the fault, and Pipeline does not.
- TurnLiveness.FairRunsFinish, PipelineLiveness.FairBehavioursFinish, GateLiveness.FairBehavioursFinish: fairness is strong (a thread that can step again and again does step), which a mutex without any fairness does not promise; without that assumption Progress and RunBound of TurnRuns and WriterGate hold.
- LatencyChase.BenchmarkLoads: the macros LOOP4 to LOOP256 are methods.
- BandwidthKernels.BenchmarkPrmw, BandwidthKernels.BenchmarkPcp, BandwidthKernels.BenchmarkPrd: words of contiguous memory. In a region of two parts that is what they walk exactly as BandwidthKernels.RunsInside says; where they leave the first part for addresses that are not the second one's, they are not modelled. The unrolled rows are methods of four and eight terms.
- Stores of an initialiser outside the region: excluded by preconditions, which for a partition are MultipleRdwr.StoresInside.
- WriterGate.WriterBeforeReaders: the floating-point loop that stands for work is one step.
- PebsChannel.Channel.ReadPebsData: rings are values in a sequence field, replaced when the kernel or the consumer writes them.
