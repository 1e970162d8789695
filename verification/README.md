# Equal-distribution frame allocation with per-process LRU, in Dafny

This project models the core of a Kotlin simulator of frame allocation for
virtual memory. The core has three parts:

- **Process state** (`src/Process.kt`). A process owns a contiguous page range
  and keeps a resident set: a map from page to the trace position of its last
  use. It also keeps a frame capacity, a page-fault counter, and the locality
  counters that drive its reference bursts.
- **Equal distribution** (`src/FrameAllocationAlgorithms.kt`). The frame budget
  is split evenly over the processes. Any remainder goes one frame at a time to
  the first processes. The reference trace is then replayed. Each reference
  goes to the first process owning its page. A reference to a page that is not
  resident is a page fault. The fault evicts the least recently used page when
  the frames are full, and the page is then stamped with its trace position.
  The fault counts are reported in process order, and the processes are reset.
- **Partition construction** (`src/Generator.kt`). `howMany - 1` distinct
  division points are drawn from `0..pageCount - 2*howMany` and sorted. The
  maximum is appended. The points are then turned into contiguous page ranges.
  Every range after the first has at least two pages, and the first has
  `points[0] + 3`.

Layout:

- `results.dfy` (module `Results`): `Option` and a failure-compatible `Result`.
  Its `Error` names the runtime exceptions the Kotlin code can end in: division
  by zero, `first { }` finding no owner, and `random()` on an empty range.
- `process.dfy` (module `ProcessState`): `Process` as an immutable datatype.
  Each Kotlin mutator becomes a function from the old state to the new one.
- `frame_allocation.dfy` (module `FrameAllocation`): the capacity split, the
  routing, the fault/eviction step `Access`, and the replay `Run`. It also has
  the loop versions `DistributeEqually`, `Replay` and `EqualDistribution`, and a
  worked two-process example.
- `generator.dfy` (module `Generator`): collecting, sorting and closing the
  division points, and building the ranges.
- `simulation.dfy` (module `Simulation`): how the generated partition and the
  allocator fit together.

Random draws and the untyped parts of the source are handled as follows:

- Every `random()` draw is a parameter: the value drawn, or the stream of
  values a loop consumes.
- A draw from an empty Kotlin range is a `Failure(EmptyRandomRange)`.
- `Process` does not define several members that the allocator calls:
  `addFrameCapacity`, `hasReference`, `hasPage`,
  `removeLeastRecentlyUsedReference` (the class spells it
  `removeLastRecentlyUsedReference`) and `reset`. Each is given its evident
  meaning:
  - `addFrameCapacity` adds to the capacity;
  - `hasReference` tests residency;
  - `hasPage` tests membership in `pages`;
  - `removeLeastRecentlyUsedReference` is the class's own method;
  - `reset` returns the resident set, capacity and fault count to their
    initial values.
- `frameMapCapacity` is a `val` fixed at 0 in the class, so `addFrameCapacity`
  could not change it. The model treats the capacity as the mutable field the
  allocator evidently expects.

Behaviour of the code as written, which the model keeps and states:

- **No budget check.** Equal distribution does not check that the budget
  covers one frame per process. A process with capacity 0 counts as "full"
  only while its resident set is empty. After its first fault it never evicts,
  and its resident set grows past the capacity (`ZeroCapacityOverflows`).
  Every share is at least one frame exactly when the budget is at least the
  number of processes (`EveryShareAtLeastOneIff`), and whenever it is, the
  resident sets stay within their shares (`EqualSharesBoundResidentSets`).
  When it is not, a process with a zero share overflows at its first fault; a
  zero-share process that no reference reaches never does.
  This reading takes `minBy` to return null on an empty map; see "Left out".
- **The last page is `pageCount`.** The first range is `0..points[0] + 2`, so
  it has `points[0] + 3` pages. The generated ranges therefore cover pages
  `0..pageCount`, which is `pageCount + 1` pages (`GeneratedRangesPartition`).
- **`howMany <= 0` still yields one range**, `0..pageCount - 2*howMany + 2`.
- **A lone range can be small.** With `howMany <= 1` the only range is
  `0..generationMaximum + 2`: for `generateProcesses(1, 0)` that is `0..0`, a
  single page, and for `generateProcesses(0, -3)` it is `0..-1`, with no pages.
- **`howMany >= 2` needs room.** The drawing loop stops only if
  `howMany - 1 <= generationMaximum + 1` (`DrawingNeedsRoom`). Otherwise it
  draws forever. When `generationMaximum < 0`, the first draw throws instead
  (`TooFewPagesThrow`): `generateProcesses(2, 3)` fails this way.

## Model

| member | source | states |
|---|---|---|
| ProcessState.PagesFrom | src/Process.kt:2 | `(first..last).toList()` has `last - first + 1` pages (none when `last < first`); page `i` is `first + i`; a page is listed iff it lies in the range |
| ProcessState.HasPage | src/FrameAllocationAlgorithms.kt:32 | a process has a page exactly when the page is among its `pages` |
| ProcessState.NewProcess | src/Process.kt:1-28 | a new process has exactly the given first and last page, no resident pages, capacity 0 and no faults; it keeps the drawn base chance, gain, scope bounds and length bounds; no burst is active, the chance is at its base, no burst references are left, and the current range is `0..0` |
| ProcessState.NewProcessIsReset | src/Process.kt:1-28 | a fresh process is already in the state `reset` leaves behind |
| ProcessState.FreshProcessLocalityCycle | src/Process.kt:5-7 | with a gain drawn from `1..2 * LOCALITY_GAIN`, a fresh process's chance climbs from its base by at least one per increment up to 100, and stopping a burst returns it to the base chance |
| ProcessState.LeastRecentlyUsed | src/Process.kt:58 | the chosen page is resident and its last use is no later than any other resident page's |
| ProcessState.LeastRecentlyUsedUnique | src/Process.kt:58 | when last-use times are distinct, only one page is least recently used |
| ProcessState.HasReference | src/FrameAllocationAlgorithms.kt:17 | a page is a hit exactly when it is resident (used by `Access`) |
| ProcessState.IsFrameMapFull | src/Process.kt:56 | the frames count as full only when the resident set has exactly as many pages as the capacity, so an overfull set is not "full" (`ZeroCapacityOverflows`) |
| ProcessState.RemoveLeastRecentlyUsedReference | src/Process.kt:58 | an empty resident set is left unchanged (`minBy` gives null); otherwise exactly one least recently used page is removed, the others keep their times, and nothing else changes |
| ProcessState.AddReference | src/Process.kt:60 | the page becomes resident with the new time; the other pages keep their times; the set grows by one exactly when the page was absent |
| ProcessState.IncrementFaultCount | src/Process.kt:62 | the fault count goes up by one and nothing else changes |
| ProcessState.AddFrameCapacity | src/FrameAllocationAlgorithms.kt:4 | the capacity goes up by the given frames and nothing else changes |
| ProcessState.Reset | src/FrameAllocationAlgorithms.kt:28 | no resident pages, capacity 0, no faults; range and locality state kept |
| ProcessState.ResetIdempotent | src/FrameAllocationAlgorithms.kt:28 | resetting twice is the same as resetting once |
| ProcessState.IncrementLocalityChance | src/Process.kt:34-37 | the chance becomes `min(100, chance + gain)`, so never above 100; nothing else changes |
| ProcessState.LocalityChanceSaturates | src/Process.kt:34-37 | with a positive gain, `n` increments raise the chance by at least `min(n, 100 - chance)`; it never passes 100, and after `100 - chance` calls it is exactly 100 |
| ProcessState.StartLocality | src/Process.kt:39-43 | fails exactly when the start-index range `0 until pages.size - rangeLength` or the length range is empty; otherwise the burst is active, its range is `pages[startIndex]..pages[startIndex + rangeLength]`, that is `firstPage + startIndex` to `firstPage + startIndex + rangeLength`, inside the process's pages, its length is the drawn one, and every other field (base chance, gain, chance, scope and length bounds, pages, frames) is kept |
| ProcessState.StopLocality | src/Process.kt:45-48 | the burst ends and the chance returns to the base chance |
| ProcessState.StopRestoresBaseChance | src/Process.kt:45-48 | however many increments came before, stopping restores the base chance |
| ProcessState.TickLocality | src/Process.kt:50-52 | one reference of the burst is consumed |
| ProcessState.IsLocalityReferencesLeftZero | src/Process.kt:54 | the burst has no references left (used by `TicksReachZeroExactly`) |
| ProcessState.TicksReachZeroExactly | src/Process.kt:50-54 | after `n` ticks `n` references are consumed, and the counter reads zero after exactly as many ticks as were left |
| FrameAllocation.WithEqualShares | src/FrameAllocationAlgorithms.kt:3-13 | each process receives its share of the split, in order |
| FrameAllocation.EqualShareLaw | src/FrameAllocationAlgorithms.kt:3-13 | for a non-negative budget each share is `F / n` or `F / n + 1`, and exactly the first `F mod n` processes get the extra frame; a negative budget gives no extra frame |
| FrameAllocation.SumOfSharesPrefix | src/FrameAllocationAlgorithms.kt:6-12 | the first `m` shares add up to `m * (F / n) + min(m, F mod n)` |
| FrameAllocation.EqualSharesSumToBudget | src/FrameAllocationAlgorithms.kt:3-13 | a non-negative budget is handed out completely |
| FrameAllocation.EveryShareAtLeastOneIff | src/FrameAllocationAlgorithms.kt:3-13 | every process gets at least one frame exactly when the budget is at least the number of processes |
| FrameAllocation.DistributeEqually | src/FrameAllocationAlgorithms.kt:3-13 | fails with a division by zero exactly when there are no processes; otherwise the two loops give the equal shares |
| FrameAllocation.AddToEach | src/FrameAllocationAlgorithms.kt:4 | every process, in order, receives the truncated share and is otherwise unchanged |
| FrameAllocation.HandOutRemainder | src/FrameAllocationAlgorithms.kt:7-12 | with `0 < framesLeft <= n`, the loop with its `break` gives exactly the first `framesLeft` processes one more frame and leaves the rest alone |
| FrameAllocation.FindProcess | src/FrameAllocationAlgorithms.kt:32 | the result is the first process owning the page; there is none exactly when no process owns it |
| FrameAllocation.FindProcessSeesRangesOnly | src/FrameAllocationAlgorithms.kt:32 | routing depends on the page ranges only |
| FrameAllocation.Access | src/FrameAllocationAlgorithms.kt:16-24 | the page ends resident and stamped with the trace position; other stamps are kept; a hit changes neither the fault count nor the resident pages; a fault counts once and either adds the page, or replaces a least recently used page when the frames are full |
| FrameAllocation.ZeroCapacityOverflows | src/FrameAllocationAlgorithms.kt:18-24 | with no frames, two faults leave two resident pages, more than the capacity |
| FrameAllocation.Run | src/FrameAllocationAlgorithms.kt:15-25 | a successful replay returns one state per process |
| FrameAllocation.RunKeepsIdentity | src/FrameAllocationAlgorithms.kt:15-25 | the replay changes only resident sets and fault counts: ranges, capacities and locality state come out as they went in |
| FrameAllocation.RunStep | src/FrameAllocationAlgorithms.kt:15-25 | one more reference routes by the original ranges and applies `Access` to its owner alone |
| FrameAllocation.RunStepSucceeds | src/FrameAllocationAlgorithms.kt:16 | one more step succeeds exactly when the prefix succeeded and the new page has an owner |
| FrameAllocation.RunSucceedsIffAllOwned | src/FrameAllocationAlgorithms.kt:15-16 | the replay succeeds exactly when every reference has an owner |
| FrameAllocation.RunFailsOnFirstUnowned | src/FrameAllocationAlgorithms.kt:16 | the replay fails with `NoProcessForPage` of the first reference that has no owner, as `first { }` throws there |
| FrameAllocation.RunFailurePersists | src/FrameAllocationAlgorithms.kt:15-16 | once a prefix fails, the whole trace fails with the same error |
| FrameAllocation.RunFaultBounds | src/FrameAllocationAlgorithms.kt:17-22 | fault counts never drop, and each process faults at most once per reference routed to it |
| FrameAllocation.RunRespectsCapacity | src/FrameAllocationAlgorithms.kt:17-24 | a process with at least one frame never holds more resident pages than frames |
| FrameAllocation.AccessKeepsStampsDistinct | src/FrameAllocationAlgorithms.kt:24 | a step keeps last-use times distinct and below the next position |
| FrameAllocation.RunKeepsStampsDistinct | src/FrameAllocationAlgorithms.kt:15-24 | throughout the replay no two resident pages of a process share a last-use time, so the LRU victim is unique |
| FrameAllocation.Replay | src/FrameAllocationAlgorithms.kt:15-25 | the loop over the trace computes the replay, including its failure |
| FrameAllocation.ReplayOverSplit | src/FrameAllocationAlgorithms.kt:3-16 | the split keeps the ranges, so ownership is the same before and after it, and the replay over the split processes stops at the first unowned reference |
| FrameAllocation.EqualDistribution | src/FrameAllocationAlgorithms.kt:1-30 | division by zero for no processes; success exactly when every reference has an owner; otherwise the error is the replay's error (`NoProcessForPage` of the first unowned reference, by `RunFailsOnFirstUnowned` and `ReplayOverSplit`); counts in process order equal to the replay's, bounded by the references routed to each process; processes returned reset |
| FrameAllocation.RoutedSeesRangesOnly | src/FrameAllocationAlgorithms.kt:32 | the references routed to a process depend on the ranges only |
| FrameAllocation.EqualSharesBoundResidentSets | src/FrameAllocationAlgorithms.kt:3-24 | from reset processes and a budget of at least one frame each, every resident set stays within its equal share |
| FrameAllocation.RunAppend | src/FrameAllocationAlgorithms.kt:15-25 | appending a reference runs exactly one more step, or fails as the prefix did or on an unowned page |
| FrameAllocation.ExampleBurst | src/FrameAllocationAlgorithms.kt:15-25 | `x x y z w` to a process with two empty frames costs four faults and leaves the other processes untouched |
| FrameAllocation.ExampleReplay | src/FrameAllocationAlgorithms.kt:15-25 | the whole trace gives four faults to each process |
| FrameAllocation.DistributeCleanTrace | src/FrameAllocationAlgorithms.kt:1-30 | when the replay over the split processes has no unowned page, `equalDistribution` succeeds and reports that replay's fault counts in process order |
| FrameAllocation.WorkedEqualDistribution | src/FrameAllocationAlgorithms.kt:1-30 | `equalDistribution` on the worked example (two processes over pages 0..4 and 5..9, four frames, trace `0 0 1 2 3 5 5 6 7 8`) returns the fault counts `[4, 4]` |
| FrameAllocation.WorkedExample | src/FrameAllocationAlgorithms.kt:1-25 | two processes over pages 0..4 and 5..9 with four frames and the trace `0 0 1 2 3` then `5 5 6 7 8` get two frames each and fault four times each |
| Generator.Collect | src/Generator.kt:11-15 | the points collected are distinct, keep the points already held, come from the draws, and never exceed the number needed |
| Generator.CollectReachesNeed | src/Generator.kt:12-15 | draws with at least the needed number of distinct values make the loop collect exactly that many points |
| Generator.CollectsAllPoints | src/Generator.kt:12-15 | from no points, enough distinct draws give all `howMany - 1` division points |
| Generator.DrawingNeedsRoom | src/Generator.kt:10-15 | the loop can only finish when `howMany - 1 <= generationMaximum + 1`, since draws from `0..generationMaximum` hold at most that many values |
| Generator.Insert | src/Generator.kt:16 | inserting into a sorted list keeps it sorted and adds exactly the new element |
| Generator.Sort | src/Generator.kt:16 | the result is sorted and a permutation of the input |
| Generator.SortDistinct | src/Generator.kt:14-16 | sorting distinct points gives a strictly increasing list of the same values |
| Generator.BuildRanges | src/Generator.kt:20-28 | one range per division point |
| Generator.BuildRangesClosedForm | src/Generator.kt:22-27 | the first range starts at 0; range `i` ends at `points[i] + 2 + 2i`; each range starts right after its predecessor |
| Generator.RangeSizes | src/Generator.kt:22-27 | the first range has `points[0] + 3` pages; range `i >= 1` has `points[i] - points[i-1] + 2 >= 2` pages, exactly 2 when the points are equal |
| Generator.PartitionOwnsEachPage | src/Generator.kt:25 | in touching, non-empty ranges each page of the covered interval lies in exactly one range |
| Generator.PartitionIncreasing | src/Generator.kt:25 | the ranges of such a partition lie strictly one after another |
| Generator.PartitionWithin | src/Generator.kt:25 | every range of a partition lies within the covered interval |
| Generator.DivisionPoints | src/Generator.kt:10-18 | the points the drawing loop collected (none if `howMany <= 1`; exactly `howMany - 1` when the draws hold enough distinct values, by `CollectsAllPoints`), sorted, then the generation maximum, all usable for building ranges |
| Generator.GenerateProcesses | src/Generator.kt:4-30 | fails with the empty-range error exactly when `howMany >= 2` and the draw range `0..pageCount - 2*howMany` is empty; otherwise `howMany` ranges (one if `howMany <= 1`) that start at page 0, each start right after the previous end, have at least two pages after the first; with `howMany >= 1` the last range ends at `pageCount`, and with `howMany <= 0` the single range is `0..pageCount - 2*howMany + 2` |
| Generator.TooFewPagesThrow | src/Generator.kt:10-13 | with `howMany >= 2` and fewer than `2*howMany` pages no value can be drawn, and the generation fails on its first draw |
| Generator.TwoProcessesOverThreePagesThrow | src/Generator.kt:10-13 | `generateProcesses(2, 3)` draws from `0..-1` and fails |
| Generator.GeneratedRangesPartition | src/Generator.kt:10-27 | with `howMany >= 1` and `pageCount >= 0`, the ranges partition pages `0..pageCount` |
| Generator.BoundariesAreDraws | src/Generator.kt:11-27 | the boundaries are the distinct drawn values in increasing order: range `i` ends at the `i`-th smallest plus `2 + 2i` |
| Simulation.RoutingFollowsPartition | src/FrameAllocationAlgorithms.kt:32 | over a partition, a page has an owner exactly when it lies in the covered interval, and the owner's range holds it |
| Simulation.GeneratedProcessesOwnTheirPages | src/FrameAllocationAlgorithms.kt:15-16 | with `howMany >= 1` and `pageCount >= 0`, processes built over the ranges of `generateProcesses` (src/Generator.kt:20-27) replay a trace without error exactly when every reference lies in `0..pageCount` |

## Left out

- `src/Main.kt` as a program: it only wires the generator to `println`. Its call `generateReferences(processes)` does not match the declared signature.
- `generateReferences` (src/Generator.kt:1-2): an empty stub with nothing to model.
- `generateRoughReferencesAmount` (src/Process.kt:65-68): a random workload size with nothing to state beyond its range.
- Randomness: every `random()` draw is a parameter. The scope bounds `(0.3 * pages.size).toInt()` and `(0.4 * pages.size).toInt()` use floating point, so they are taken as given `nat` fields rather than computed.
- The other allocation policies (proportional, page-fault-frequency, working-set zone) and the frozen state: `src/FrameAllocationAlgorithms.kt` defines only `equalDistribution` and `findProcess`, so there is no code for them to model.
- HandOutRemainder: requires `0 < framesLeft <= n`. Line 7 guards the loop with `framesLeft > 0`, and the truncated division of line 3 leaves fewer than `n` frames. A larger remainder, for which the Kotlin loop would end without its `break`, cannot reach it.
- RemoveLeastRecentlyUsedReference: on a tie in last-use time it removes the smaller page, while Kotlin's `minBy` removes the first one in the map's insertion order. Ties cannot happen during a replay, since stamps are distinct trace positions (`RunKeepsStampsDistinct`).
- RemoveLeastRecentlyUsedReference: assumes the nullable `minBy` of Kotlin 1.4 and earlier, which the `?.key` on src/Process.kt:58 implies, so that on an empty map it removes `null` and changes nothing. From Kotlin 1.7 `Map.minBy` throws `NoSuchElementException` on an empty map, and under that version a capacity-0 process's first fault throws instead of growing the resident set. `ZeroCapacityOverflows` and the "No budget check" behaviour hold only under the older API.
- Process identity: Kotlin's `Process` is a reference type, so one object listed twice in `processes` would receive its share twice (src/FrameAllocationAlgorithms.kt:4 and :9) and report the same count at both positions (:26). The model's `seq<Process>` holds values, so it treats the entries as distinct objects.
- IncrementFaultCount: does not model 32-bit `Int` wrap-around of the counter. The same holds for trace positions, capacities and page numbers, which are unbounded integers here.
- StartLocality: requires its drawn values to lie in the ranges they are drawn from, and the scope bounds to form a range. It does not model that `hasLocality` is already set when a draw then throws.
- Run: its own contract states only the length of the result. What each step does is stated by `RunStep`, `RunAppend` and the lemmas after them.
- GenerateProcesses: requires the draws to lie in `0..generationMaximum` and, unless the first draw throws, to hold enough distinct values for the loop to stop. A stream that never does stands for the Kotlin loop running forever, which is not modelled.
- BuildRanges: requires sorted points, with the first one non-negative when a range's `pages.last()` is read. This guarantees those ranges are non-empty, so the `NoSuchElementException` of `last()` on an empty list is not modelled. `generateProcesses` always supplies such points.
- Exceptions part-way through a mutation: the Kotlin code mutates processes before it throws (capacities are already added when `findProcess` fails). The model returns only the failure.
