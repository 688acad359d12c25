# A verified model of ScanCry's pointer scanner

ScanCry finds chains of pointers that lead from a loaded object of a process to an address of
interest. A pool of threads slides a page-sized buffer over the selected areas of the process and
hands every aligned word to the scanner. The scanner grows a tree from the target address: level 0
is the target, and a word that points at or just below a node of level d - 1 becomes a node of
level d. When all depths are done, each leaf is flattened to a chain of offsets, which can be
verified against memory, saved and loaded.

The project models that whole path and proves what it promises.

| file | what it models |
|---|---|
| Target.dfy | 64-bit addresses, memory, the map of areas and objects |
| MapAreaSet.dfy | the one-pass selection of areas with skip-ahead |
| WorkDivision.dfy | sorting the areas and dividing them between workers |
| Worker.dfy | the sliding read buffer and the loop over an area |
| Barrier.dfy | the release/exit protocol of the worker pool, as a state machine, and its counters |
| BarrierRun.dfy, Behaviours.dfy, BarrierFair.dfy | a single run under a discipline: it scans everything and it returns |
| BarrierRaces.dfy | runs without the discipline: when the flag can be believed, and runs that go wrong |
| Shutdown.dfy | killing the pool: under fairness every worker leaves; the pool that is spawned next |
| Rounds.dfy | the barrier joined with the scan: which visits a run of the pool makes |
| PtrscanTree.dfy | nodes, children lists and depth levels, on the heap |
| Matching.dfy | the window test, presets and smart scan |
| Growth.dfy, LevelRun.dfy | what a level holds after all calls, and any interleaving of threads |
| Paths.dfy | following chains; soundness of a scan |
| Independence.dfy, Exactness.dfy | the result does not depend on threads; what a level holds exactly |
| Completeness.dfy | the paths and chains of a plain scan in terms of memory alone |
| FbufUtil.dfy, ResultFile.dfy | the byte printer and parser, and the body of a result file |
| Ptrscan.dfy | the scanner object: growing, flattening, verifying, saving, loading, scanning |
| ScanTheorems.dfy | what a finished scan promises about its chains |
| Boundaries.dfy | where the buffer stops agreeing with memory: area ends and alignments |
| SmartOrder.dfy | two smart scans of one memory whose chains differ with the order of the calls |

## How to read the main results

1. Soundness. `Paths.FollowPath`, `Paths.PathTruthful`, `Paths.ScanSound` and
   `ScanTheorems.ChainSound` combine the buffer, the window arithmetic and the tree: a chain built
   backwards from the target leads to it when followed forwards, modulo 2^64. The hypothesis that no
   pointer lies across the end of its area is exact per visit (`Boundaries.ClearExactly`), it is
   automatic when the alignment equals the pointer width (`ScanTheorems.ScanVerifies`), and
   `Boundaries.StaleScan` scans a page of any size and lists a chain that verification then drops.
2. Completeness. `Completeness.PathsExactly` and `Completeness.LeavesExactly` say in terms of memory
   alone which paths a plain scan finds and which of them become chains: exactly those, each once.
3. Determinism. `LevelRun.RunIsSchedule` shows that any run of threads that match without a lock and
   add under a lock leaves what some order of whole calls leaves;
   `Growth.InterleaveIsPermutation`, `Independence.SameLeaves` and `ScanTheorems.SameChains` show
   that the order in which the areas are listed, the number of workers, the division and the
   interleaving do not change the multiset of chains; `ScanTheorems.ScanTwice` applies this to two
   calls of the scanner. Smart scans are not deterministic: `Matching.SmartScanOrder` gives the exact
   condition for one pointer, and `SmartOrder.TwoOrders` two full scans of one memory that differ.
4. Division. `WorkDivision.DescendingBound` is Graham's (4m - 1)/(3m) bound and
   `WorkDivision.ListSchedulingBound` his (2m - 1)/m bound, for every rival division.
5. Barrier. `Barrier.CountersInvariant` and `BarrierRun.RunScansEverything` hold over whole runs,
   `BarrierFair.RunReturns` and `Shutdown.KillCompletes` over every fair infinite execution. The source
   does not keep to the discipline these runs are under; `BarrierRaces.RaisedTruthfully` and
   `BarrierRaces.ReturnedExactly` are exact without it, for every pool a run may find.
   `Rounds.DisciplinedRunIsFull` and `Rounds.RaisedIsFullExactly` carry both over to the visits a
   depth of the scan makes.
6. Files. `ResultFile.BodyRoundTrip` and `ResultFile.DeepRoundTrip` give the exact results that survive
   a save and a load; `ScanTheorems.ScanIsProduced` shows that results of scans are among those they
   speak of.

`Ptrscanner.Ptrscan.Scan` ties the imperative parts to these: when all depths complete, its
postcondition yields the hypotheses of the theorems in ScanTheorems.dfy and Completeness.dfy.

The contracts of the methods name specification functions. The lemmas whose names end in `Exactly` say
what these mean by the fields of the map, the options, the nodes and the chains, by the bytes of memory
and of the file, and by plain integers: `MapAreaSet.SelectionExactly` for the areas of a set,
`ScanWorker.AreaCallExactly` for the calls of an area, `Ptrscanner.MatchesExactly` for what a call adds,
`Completeness.NodeExactly` for a node, `ScanTheorems.ChainExactly` for a chain,
`Ptrscanner.AcceptedExactly` for verification, `ResultFile.HeaderPositions` to
`ResultFile.BodyEndExactly` for the bytes of a file, and `ResultFile.LoadExactly` and
`ResultFile.DeepExactly` for what a load makes of bytes.

## Modelling decisions

- Memory is a fixed finite map from addresses to bytes; a read succeeds if and only if all its bytes
  are in the map. `mc_read` into `addr` in the chain walk reads eight bytes, whatever the pointer width.
- Area and object nodes are identified by their position in the map's lists. The area of the target,
  which the source looks up in MemCry, is a parameter.
- The per-address callback of a worker is modelled as a log of calls. `Ptrscan.ProcessAll` then makes
  the logged calls in an order that is chosen freely at every turn; a ghost schedule records it. The
  calls only read what an earlier level holds, so scanning first and adding later is the same. That the
  pool's run makes all these calls is `Rounds.DisciplinedRunIsFull`, under the barrier's discipline.
- In the barrier a step is what one thread does under its locks. The count and the comparison with the
  other count are one step, as are a worker's exit and its effect on the flags. The broadcast is made
  without the lock, as in the source, so it does not wake a worker that is still on its way into the wait.
- The discipline of a single run: the manager does not begin before every worker has started and is
  counted, it does not wake the pool while a worker is on its way into the wait, no worker waits again
  before all woken ones are uncounted, and no wakeup is spurious. None of this is enforced by the source.
- A worker that has not started is one whose thread was created but has not counted itself as alive.
- An execution is a function from moments to states. Fairness is weak: a thread that can move at every
  moment from some point on does move. Idling is always allowed.
- `Undefined`, `Overrun` and `Outside` are the outcomes where the source reads, writes or indexes past
  the end of a container.
- Unsigned 64-bit arithmetic is `Wrap`, the conversion to `off_t` is `ToOffset`, the cast to
  `uint32_t` is `Low32`.

## Where the code and its comments or documentation disagree

The code is modelled as written; corrected variants are named as such in the files.

- The division is called Largest Differencing (`src/lib/worker.cc:629`); it is greedy list scheduling
  of areas in descending order, and the bounds proved are those of that algorithm.
- A smart scan should keep the nearest parents (`src/lib/scancry.h:226`), but `min_obj_sz` is never
  lowered. `Matching.SmartScanExact` says when the result is still right, and
  `Matching.LaterMatchWins` that of two near matches the later one is kept, so the result depends on the
  order of the level and with it on the scheduling of the threads (`SmartOrder.TwoOrders`).
  `Matching.LoweringScanIsNearest` and `Matching.LoweringScanOrder` are about the corrected loop.
- The last preset offset is not enforced (`src/lib/ptrscan.cc:645`); see `Matching.PresetsEnforced`.
- A loaded file yields one pathname and one chain: the terminator of a string is left unread
  (`src/lib/fbuf_util.cc:155`), and the loop ends as soon as the buffer is at least as long as the
  cursor (`src/lib/ptrscan.cc:914`). `ResultFile.RepairedRoundTrip` is about a reader with both put right.
- An element whose first stored byte is 0xFF ends an array (`src/lib/fbuf_util.cc:223`).
- The space check before an array is printed mixes signed and unsigned values and never fires
  (`src/lib/fbuf_util.cc:91`); the size computed beforehand is what keeps the writes in bounds.
- The space check before a string is printed subtracts the length and then adds the one for the
  terminator (`src/lib/fbuf_util.cc:20`, `src/lib/fbuf_util.cc:41`): a string that leaves no room for
  its terminator is accepted, and a string one byte too long is written past the end.
- The space check before a value is read compares with an unsigned size (`src/lib/fbuf_util.cc:180`):
  with the cursor past the end it always passes.
- `scan` returns 0 when setup or a run fails (`src/lib/ptrscan.cc:1016`, `src/lib/ptrscan.cc:1055`).
- A single run can return 0 with areas left, for three reasons: a woken worker waits again before a
  slower one uncounts itself (`BarrierRaces.ReparkRace`); the broadcast comes between the flag being
  raised and the raising worker blocking (`BarrierRaces.LostWakeup`), and the run may then also never
  return (`BarrierRaces.AllCaughtNeverReturns`); the flag goes up before all threads have started
  (`BarrierRaces.LateStart`). `BarrierRun.RunScansEverything` therefore assumes a discipline, and
  `BarrierRaces.RaisedTruthfully` gives the exact condition without it.
- The flag stays up when the workers are killed (`src/lib/worker.cc:288-295`) and is not cleared when new
  ones are spawned (`src/lib/worker.cc:452-488`), so the next run of such a pool need not wait for any
  thread to start; it may return 0 with nothing scanned (`Shutdown.KilledRespawns`).
- A thread that starts after `alive_count` was seen at 0 is never woken, and joining it never ends
  (`src/lib/worker.cc:524-545`, `Shutdown.LateThreadWaits`).
- Nothing is asked of the alignment, but the loop over an area works exactly for those that divide the
  page size less the pointer width, or leave no second read to the area. With others the second read
  moves the wrong word to the front, or the unsigned number of bytes left wraps and the buffer is overrun
  (`Boundaries.AlignmentExactly`).
- A string that no NUL ends, and an array whose last delimiter ends the buffer, are read one byte past the
  buffer (`src/lib/fbuf_util.cc:155`, `src/lib/fbuf_util.cc:223`).
- Verification reads eight bytes for 4-byte pointers as well (`src/lib/ptrscan.cc:462`);
  `ScanTheorems.WideReadExact` says when that is the same pointer.

## Model

| member | source | states |
|---|---|---|
| MapAreaSet.IsAccess | src/lib/map_area_set.cc:84-110 | the bit loop answers whether each of the four permissions that is asked for is present |
| MapAreaSet.InAddrRanges | src/lib/map_area_set.cc:114-127 | a range is found if and only if one starts at or before the area and ends at or after it, and the one found does |
| MapAreaSet.IsBlacklisted | src/lib/map_area_set.cc:37-48 | true exactly for the four listed pathnames, byte by byte |
| MapAreaSet.SkipObject | src/lib/map_area_set.cc:259-283 | jumping to the last area of a rejected object skips only areas the filter rejects |
| MapAreaSet.AreaSet.SkipRange | src/lib/map_area_set.cc:296-312 | walking out of an omitted range makes progress and skips only areas the filter rejects |
| MapAreaSet.AreaSet.Consider | src/lib/map_area_set.cc:244-346 | one turn of the pass keeps the set equal to the filter on the areas passed, jumps included |
| MapAreaSet.AreaSet.UpdateSet | src/lib/map_area_set.cc:179-358 | the set is exactly the areas that meet the filter, which `SelectionExactly` spells out; -1 exactly when it is empty |
| MapAreaSet.SelectionExactly | src/lib/map_area_set.cc:179-358 | an area is in the finished set if and only if it has every permission asked for, neither it nor its object is omitted, its object has none of the four pathnames, no omitted range holds it, and some exclusive set or range holds it if any is given: over the fields of the constraints and the map |
| ScanWorker.AreaVisitsAt | src/lib/worker.cc:418-441 | one call for every multiple of the alignment below the size of an area, the k-th at start + k * alignment, and no other |
| ScanWorker.AreaCallExactly | src/lib/worker.cc:125-439 | the k-th call of an area has its node, the address start + k * alignment, and byte for byte what memory holds there, or page - width bytes before where that lies past the end |
| ScanWorker.CallCarriesMemory | src/lib/worker.cc:125-169 | a call carries memory up to the end of its area; the rest of the word is what lay one slide earlier |
| ScanWorker.SlideAgrees | src/lib/worker.cc:136-162 | after a refill the buffer again agrees with the area, given that the carried word and the clamped read did |
| ScanWorker.RefillPosition | src/lib/worker.cc:421-424 | every refill after the first comes exactly when one word is left, with the buffer before it full |
| ScanWorker.NextFetchTiles | src/lib/worker.cc:125-162 | the next read starts where the last one stopped and stays inside the area |
| ScanWorker.OfferedSuits | src/lib/worker.cc:411-441 | if the alignment suits the area the whole loop offers the visits, stays inside the buffer and reads every byte to be read once; all its reads succeed exactly if that can be read |
| ScanWorker.ReadExactly | src/lib/worker.cc:92-172 | for any alignment: where a read starts, how long it is, and every byte of the buffer it leaves, in terms of the old buffer and memory |
| ScanWorker.TurnWithRead | src/lib/worker.cc:418-439 | a turn with at most a word of the buffer left reads, and offers the first word of the new buffer |
| ScanWorker.TurnWithoutRead | src/lib/worker.cc:418-439 | any other turn changes nothing but the place, and offers the word at the current byte |
| ScanWorker.OfferedEnds | src/lib/worker.cc:418 | the loop ends at the end of the area, or when the count of bytes left, unsigned in the source, has wrapped |
| ScanWorker.ReadableExactly | src/lib/worker.cc:125-172 | what has to be in memory: the whole area if the alignment divides the page size less the width, else its first page |
| ScanWorker.ScannableExactly | src/lib/worker.cc:411-441 | the areas, pages and alignments a scan is for, in plain integers |
| ScanWorker.SetVisitsInOrder | src/lib/worker.cc:382-443 | the calls of a set are those of its areas one after the other |
| ScanWorker.Worker.ReadBufferSmart | src/lib/worker.cc:92-172 | what is read, where it goes, what is carried over, and that it fails exactly if the range is not mapped |
| ScanWorker.Worker.Offer | src/lib/worker.cc:418-439 | one turn reads exactly if the buffer has run out, offers the word at the current byte and advances; it fails exactly if the read does |
| ScanWorker.Worker.ScanArea | src/lib/worker.cc:411-441 | for any alignment what is offered and read is what the loop says, overruns of the buffer included; if the alignment suits the area, all aligned addresses are offered in order, the reads tile what is to be read, and it succeeds exactly if that can be read |
| ScanWorker.Worker.ScanSet | src/lib/worker.cc:382-443 | the calls of a worker's set are those of its areas, in order |
| WorkDivision.WorkerPool.Insert | src/lib/worker.cc:605-619 | the entry is put once, before the first one that is not larger, and the list stays in descending order |
| WorkDivision.WorkerPool.SortBySize | src/lib/worker.cc:569-624 | the sorted entries are the areas of the set, each once, in descending order; fails exactly on an empty set |
| WorkDivision.SortedExactly | src/lib/worker.cc:569-624 | every area of the set is listed in exactly one position, with the difference of its addresses as size, and no entry is smaller than a later one |
| WorkDivision.WorkerPool.MinElement | src/lib/worker.cc:661-663 | the first of the least loads |
| WorkDivision.WorkerPool.UpdateScanAreaSet | src/lib/worker.cc:633-672 | sets and running sums are those of a list schedule of the sorted entries |
| WorkDivision.DivisionExactly | src/lib/worker.cc:656-669 | entry i goes to the first of the workers with least to do, whose sum grows by its size and whose set gets its area at the end |
| WorkDivision.StepAverage | src/lib/worker.cc:656-669 | at every step the least loaded worker is below the average any rival division has to reach |
| WorkDivision.ListSchedulingBound | src/lib/worker.cc:656-669 | m * load <= (2m - 1) * best against any rival, for any order of the entries |
| WorkDivision.LoadsAreClose | src/lib/worker.cc:656-669 | two loads never differ by more than the largest area |
| WorkDivision.NeverTight | src/lib/worker.cc:606-669 | in descending order, the one case the average does not decide cannot arise, by counting jobs |
| WorkDivision.DescendingBound | src/lib/worker.cc:569-672 | 3m * load <= (4m - 1) * best against any rival, thanks to the descending order |
| WorkDivision.DivisionPartitions | src/lib/worker.cc:656-669 | the worker sets together hold every entry exactly once |
| WorkDivision.LoadIsSetSize | src/lib/worker.cc:665-667 | the running sum of a worker is the total size of its set |
| WorkDivision.PoolDivision | src/lib/worker.cc:633-672 | the pool's sets partition the area set, and no set exceeds (4m - 1)/(3m) of a rival's largest |
| Barrier.CountersInvariant | src/lib/worker.cc:219-302 | in every state of every run the counters count the waiting and the living workers, and 0 <= release_count <= alive_count |
| Barrier.RaisedExactly | src/lib/worker.cc:226-240 | when a worker raises the flag all live workers are counted; all are done if and only if none is woken but not uncounted |
| BarrierRun.RoundInvariant | src/lib/worker.cc:683-724 | the invariant of a disciplined single run, over all its reachable states |
| BarrierRun.WorkerRaises | src/lib/worker.cc:235-240 | under the discipline the flag goes up without error only when every worker waits again |
| BarrierRun.WorkerQuiets | src/lib/worker.cc:235-295 | the last worker to come to rest raises the flag |
| BarrierRun.RunScansEverything | src/lib/worker.cc:683-724 | a disciplined run, the first one of a pool or a later one, that returns 0 has scanned every area of every set, in order and once, and the pool is ready for the next run |
| BarrierFair.SomebodyMoves | src/lib/worker.cc:683-724 | before it returns, a disciplined run is never stuck |
| BarrierFair.RunReturns | src/lib/worker.cc:683-724 | every fair disciplined execution of a pool with a worker, freshly spawned or not, returns, and if with 0, with everything scanned |
| BarrierRaces.PlainInvariant | src/lib/worker.cc:683-724 | without the discipline too, whoever has started, what each worker has scanned is told by where it is; one that did not wait at the broadcast scans nothing |
| BarrierRaces.RaisedTruthfully | src/lib/worker.cc:683-724 | without the discipline, from any pool: at the first moment at which the manager may return 0, everything has been scanned if and only if no worker that has areas is still woken but not uncounted or was missed by the broadcast, be it not started, arriving or about to block |
| BarrierRaces.RaisedAfterParking | src/lib/worker.cc:708-716 | the same when all workers were parked as the pool was woken: only woken workers matter |
| BarrierRaces.ReturnedExactly | src/lib/worker.cc:683-724 | when a run returns 0, everything has been scanned by then if and only if every worker with areas was woken and has finished its set |
| BarrierRaces.ReturnTellsFailure | src/lib/worker.cc:712-724 | a single run returns -1 if and only if some worker left in the middle of an area since the broadcast, and else 0, disciplined or not |
| BarrierRaces.FailureStopsAll | src/lib/worker.cc:84-89 | once a worker has failed no worker begins another area |
| BarrierRaces.NothingScanned | src/lib/worker.cc:708-716 | a broadcast that finds nobody waiting leaves everything unscanned, however the run goes on |
| BarrierRaces.AllCaughtNeverReturns | src/lib/worker.cc:708-716 | when the flag is down and the broadcast meets only workers about to block, the run never returns |
| BarrierRaces.ReparkRace | src/lib/worker.cc:219-252 | a run without spurious wakeups in which a worker waits again too early and 0 is returned with an area left |
| BarrierRaces.LostWakeup | src/lib/worker.cc:704-716 | a run from an unstarted pool in which the broadcast misses a worker and 0 is returned with an area left |
| BarrierRaces.LateStart | src/lib/worker.cc:226-240 | the first run of a fresh pool, disciplined but for its start, in which the flag goes up before all threads have started and 0 is returned with an area left |
| BarrierRaces.RespawnedReturns | src/lib/worker.cc:683-762 | any pool spawned after a shutdown, with the flag still up, may return 0 from its next run with nothing scanned |
| BarrierRaces.FailureReturnsEarly | src/lib/worker.cc:290-295 | an error can raise the flag while another worker has not begun |
| Shutdown.DyingStep | src/lib/worker.cc:84-89 | with the exit flag set every worker step lowers a rank and no step raises it |
| Shutdown.KillProgress | src/lib/worker.cc:524-537 | while a worker is alive some thread can take a rank-lowering step: no deadlock |
| Shutdown.KillCompletes | src/lib/worker.cc:496-537 | from any state of a pool being killed every fair execution reaches alive_count = 0, and the flag is then up |
| Shutdown.NobodyAlive | src/lib/worker.cc:524-527 | when nobody is alive, all workers have left if and only if all had started |
| Shutdown.AllLeave | src/lib/worker.cc:496-537 | a pool whose threads had all started as the exit flag was set loses all of them |
| Shutdown.LateThreadWaits | src/lib/worker.cc:524-541 | a thread that starts after alive_count was seen at 0 blocks for ever, and with it the join |
| Shutdown.KilledRespawns | src/lib/worker.cc:729-762 | every pool killed with a live worker is spawned anew with the flag up, and its next run may return 0 with nothing scanned |
| Rounds.DisciplinedRunIsFull | src/lib/worker.cc:371-443 | the calls of a disciplined run that returns 0, the first one of a pool or a later one, are a full run of the scan |
| Rounds.RaisedIsFullExactly | src/lib/worker.cc:371-443 | without the discipline, from any pool: the calls made at the first moment at which the manager may return 0 are a full run if and only if no worker with areas was left behind |
| PtrscanTree.RootedUnique | src/lib/ptrscan.cc:387-399 | a node has one depth |
| PtrscanTree.ChildrenInExactly | src/lib/ptrscan.cc:88-89 | a children list holds exactly the nodes of the next level that name it as parent, each once |
| PtrscanTree.GrownLayered | src/lib/ptrscan.cc:77-95 | adding a node below a node of the level before keeps every node at its depth and listed once |
| PtrscanTree.GrownLink | src/lib/ptrscan.cc:83-92 | adding a node adds it to its parent's children and changes no other children list |
| PtrscanTree.Tree.constructor | src/lib/ptrscan.cc:67-74 | max_depth + 1 empty levels |
| PtrscanTree.Tree.AddNode | src/lib/ptrscan.cc:77-95 | the level grows by the new node and the tree stays layered and linked |
| Matching.WindowExact | src/lib/ptrscan.cc:626-628 | the wrapping window test accepts exactly 0 <= own - p <= max, for own >= max, and nothing for own < max |
| Matching.AcceptsExactly | src/lib/ptrscan.cc:626-661 | a pointer is accepted exactly in the window, and at depths below the number of presets exactly at the preset below the parent modulo 2^64; from the last preset on the window alone decides |
| Matching.PresetsEnforced | src/lib/ptrscan.cc:642-661 | the preset test agrees with the documentation exactly at depths other than the number of presets |
| Matching.SmartScanExact | src/lib/ptrscan.cc:591-685 | a smart scan keeps exactly the nearest parents if and only if all are at the object size or the last is strictly nearest |
| Matching.LaterMatchWins | src/lib/ptrscan.cc:664-685 | of two matches nearer than the object size the later one is kept, whichever is nearer |
| Matching.SmartScanOrder | src/lib/ptrscan.cc:664-685 | what a smart scan keeps of distinct matches is the same for every order of them if and only if there is at most one or all are at the object size |
| SmartOrder.TwoOrders | src/lib/ptrscan.cc:616-712 | for a memory and any common page size, two smart scans that make every visit once at every depth have different paths, one of them not to the nearest parent |
| SmartOrder.OrderDecides | src/lib/ptrscan.cc:616-712 | in every such scan the worker whose calls come last at depth 1 decides the path |
| Matching.LoweringScanIsNearest | src/lib/scancry.h:225-235 | corrected variant: lowering the minimum keeps exactly the nearest parents |
| Matching.LoweringScanOrder | src/lib/scancry.h:225-235 | corrected variant: what is kept does not depend on the order of the matches |
| Growth.LevelExact | src/lib/ptrscan.cc:616-712 | in a plain scan a level holds each (address, accepting parent) as often as its pointer was delivered |
| Growth.DeliveredOnce | src/lib/ptrscan.cc:616-712 | with distinct addresses that is at most once |
| Growth.InterleaveIsPermutation | src/lib/ptrscan.cc:695-719 | any complete schedule makes the same calls, each as often |
| Growth.InterleaveExactly | src/lib/ptrscan.cc:695-719 | the call of a turn is the next one of the worker whose turn it is, so each worker keeps its order |
| LevelRun.RunInv | src/lib/ptrscan.cc:591-719 | matching without the lock and adding under it: the level is always that of the committed calls in commit order |
| LevelRun.RunIsSchedule | src/lib/ptrscan.cc:591-719 | every finished run of such threads equals some schedule of whole calls |
| Paths.FollowPath | src/lib/ptrscan.cc:385-414 | offsets taken backwards lead forwards to the end of the path, modulo 2^64 |
| Paths.OffsetsExactly | src/lib/ptrscan.cc:385-414 | every offset of a path is the distance it bridges, modulo 2^64 |
| Paths.NodeOrigin | src/lib/ptrscan.cc:684-711 | every node above the root comes from a visit, and its parent accepted the pointer |
| Paths.VisitTruthful | src/lib/worker.cc:418-441 | a visit clear of its area's end delivers what memory holds |
| Paths.PathTruthful | src/lib/ptrscan.cc:517-722 | every pointer of a path is what memory holds at its address |
| Paths.ScanSound | src/lib/ptrscan.cc:1045-1090 | the chain of any node, followed in the scanned memory, arrives at the target |
| Paths.ChainShape | src/lib/ptrscan.cc:385-399 | a node at depth d has d offsets up to the root, each in [0, max_obj_sz] |
| Paths.MovedTree | src/lib/worker.cc:577-595 | the order in which the areas of a scan are listed does not matter to its tree |
| Paths.SamePaths | src/lib/ptrscan.cc:517-722 | two plain scans of the same areas, listed and visited in any order, have the same paths at every depth |
| Independence.DivisionMakesFullRun | src/lib/worker.cc:656-669 | any division and interleaving makes every visit of the scan exactly once |
| Independence.LeafExact | src/lib/ptrscan.cc:381 | a node is childless exactly if no visit of the next level is accepted for its address |
| Independence.SameLeaves | src/lib/ptrscan.cc:370-422 | two plain scans of the same areas have the same leaf paths, each as often |
| Exactness.SetVisitsDistinct | src/lib/worker.cc:382-443 | disjoint areas: no address is visited twice |
| Exactness.LevelHoldsExactly | src/lib/ptrscan.cc:517-722 | a level holds exactly one node for every visited address and accepting parent, and nothing else |
| Completeness.ScanIsSeparate | src/lib/map_area_set.cc:204-348 | a set of areas of a well-formed map does not overlap |
| Completeness.NodeExactly | src/lib/ptrscan.cc:517-722 | a node above the root, in a scan of any kind: aligned in a scanned area, its pointer the word there byte by byte, its parent of the level before and within the window and the preset |
| Completeness.VisitedExactly | src/lib/worker.cc:411-441 | what a visited step is, over the fields of its area and the bytes of memory |
| Completeness.ScanPathExactly | src/lib/ptrscan.cc:517-722 | a path a scan looks for ends at the root, and each of its steps is a visit that the next step accepts at its depth |
| Completeness.PathsExactly | src/lib/ptrscan.cc:517-722 | a path is at level d, exactly once, if and only if it has d + 1 steps, ends at the root, and every other step is a visit whose pointer the next step accepts |
| Completeness.LeavesExactly | src/lib/ptrscan.cc:353-425 | a path becomes a chain, exactly once, if and only if it is such a path of at most max_depth + 1 steps that no visit makes longer |
| FbufUtil.WordOfU32 | src/lib/fbuf_util.cc:180-186 | the four stored bytes of a number give it back |
| FbufUtil.PackString | src/lib/fbuf_util.cc:34-46 | refuses a string at least two bytes longer than the space, overruns the buffer with one a byte longer, and otherwise writes the string and moves one past it, room for the terminator or not |
| FbufUtil.PackType | src/lib/fbuf_util.cc:50-63 | fails exactly without room and then changes nothing |
| FbufUtil.PackTypeArray | src/lib/fbuf_util.cc:82-111 | writes the elements with their control bytes and nothing else, or overruns the buffer exactly if they do not fit |
| FbufUtil.UnpackString | src/lib/fbuf_util.cc:125-160 | reads up to the first NUL and leaves that NUL unread; a non-empty string that no NUL ends is read past the buffer |
| FbufUtil.UnpackType | src/lib/fbuf_util.cc:166-189 | reads exactly if enough bytes are left, and outside the buffer if the cursor is past its end |
| FbufUtil.UnpackTypeArray | src/lib/fbuf_util.cc:208-248 | the loop is the parse of the bytes after the cursor, malformed arrays and the one read past the buffer after a trailing delimiter included |
| FbufUtil.ParsePrinted | src/lib/fbuf_util.cc:208-248 | a printed array reads back as the elements before the first that starts with the end byte |
| FbufUtil.ArrayRoundTrip | src/lib/fbuf_util.cc:82-248 | an array comes back in full, with the cursor past it, if and only if no element starts with the end byte |
| FbufUtil.ParseExactly | src/lib/fbuf_util.cc:208-248 | on any bytes: past the elements with a delimiter after them, which of the five ends the parse comes to, and with which numbers |
| FbufUtil.LeadingOfString | src/lib/fbuf_util.cc:148-156 | a NUL-free string is found again |
| ResultFile.HeaderPositions | src/lib/ptrscan.cc:748-763 | bytes 0, 4, 8 and 12 hold the words of the number of pathnames, their file position, the number of chains and theirs, modulo 2^32 |
| ResultFile.BodyNameExactly | src/lib/ptrscan.cc:767-778 | from byte 16 on the pathnames, each with a zero after it, and another zero |
| ResultFile.BodyChainExactly | src/lib/ptrscan.cc:781-787 | then the chains, each beginning with the word of its pathname's position |
| ResultFile.BodyOffsetExactly | src/lib/ptrscan.cc:789-802 | each offset as the word of its low 32 bits and a byte, 0xFF after the last and zero after the others |
| ResultFile.BodyEndExactly | src/lib/ptrscan.cc:804-807 | the byte after the chains is 0xBB and the last |
| ResultFile.ChainSurvives | src/lib/ptrscan.cc:326-350 | a chain is read back with its offsets if and only if all of them are in [0, 2^32) and do not start with the end byte |
| ResultFile.ParsePrintedStart | src/lib/ptrscan.cc:292-322 | of any printed table at most the first pathname is read |
| ResultFile.FirstChainReadBack | src/lib/ptrscan.cc:881-926 | with one non-empty pathname, the table and the first chain come back if and only if that chain is storable; a loaded chain has the pathname it was stored with and no object |
| ResultFile.BodyRoundTrip | src/lib/ptrscan.cc:725-926 | a result survives save and load if and only if it has one non-empty pathname and one storable chain, which then carries its pathname and no object |
| ResultFile.DeepReadBack | src/lib/ptrscan.cc:818-878 | with one non-empty pathname: a deep load succeeds if and only if the map has an object of it and the first offset cannot be taken for an end, and recovers the first chain if and only if moreover that chain is storable; the chain has that object and no pathname |
| ResultFile.DeepRoundTrip | src/lib/ptrscan.cc:818-878 | a result survives save and deep load if and only if it has one non-empty pathname with an object in the map and one storable chain; the chain then has that object and no pathname |
| ResultFile.StartExactly | src/lib/ptrscan.cc:292-322 | on any bytes: the bytes from 16 to the first zero are the one pathname read, none if that zero is the first of them, and the next byte is skipped |
| ResultFile.LoadExactly | src/lib/ptrscan.cc:881-926 | on any bytes with a pathname and a chain: the chain is added with its numbers, the pathname it names and no object, or the table is indexed past its end |
| ResultFile.LoadFails | src/lib/ptrscan.cc:881-926 | on all other bytes: how the load ends, and what is left of the table |
| ResultFile.DeepStarts | src/lib/ptrscan.cc:818-878 | a deep load of any bytes by what it finds behind the pathname |
| ResultFile.DeepExactly | src/lib/ptrscan.cc:840-870 | a chain of the first object with its pathname ends the deep load and has that object and no pathname; one without any object is skipped |
| ResultFile.DeepFails | src/lib/ptrscan.cc:840-846 | where there is no chain the deep load ends |
| ResultFile.RepairedRoundTrip | src/lib/ptrscan.cc:725-815 | corrected variant: every pathname and every chain comes back |
| Ptrscanner.Ptrscan.MatchNode | src/lib/ptrscan.cc:620-685 | one turn of the loop over the parents, in plain integers: nothing outside the window or off the preset; else the candidate is added, to an empty container in a smart scan if it is nearer than the object size |
| Ptrscanner.Ptrscan.FindMatches | src/lib/ptrscan.cc:616-687 | the container holds the accepted parents, or under smart scan those from the last one nearer than the object size; `MatchesExactly` says which and with what fields |
| Ptrscanner.MatchesExactly | src/lib/ptrscan.cc:616-687 | the positions of the parents in the window and on the preset, which of them a smart scan keeps, and for each in level order a node with the call's address, its word and its area |
| Ptrscanner.Ptrscan.ProcessAddr | src/lib/ptrscan.cc:517-722 | the current level grows by the call's matches in one batch, nothing else changes, and the caller is told to advance by the alignment |
| Ptrscanner.Ptrscan.GetChainIdx | src/lib/ptrscan.cc:239-254 | a known pathname keeps its position, a new one goes to the end; the table has no duplicates |
| Ptrscanner.Ptrscan.WalkUp | src/lib/ptrscan.cc:385-399 | the parent walk terminates with the offsets of the node's path |
| Ptrscanner.Ptrscan.FlattenTree | src/lib/ptrscan.cc:353-425 | one chain per childless node, in level order; the table holds each needed pathname once and no other; `ScanTheorems.ListedInOrder` and `ScanTheorems.ChainExactly` say which chains these are and in what order |
| Ptrscanner.Ptrscan.IsChainValid | src/lib/ptrscan.cc:435-468 | true exactly if following the offsets arrives at the target |
| Ptrscanner.AcceptedExactly | src/lib/ptrscan.cc:435-468 | a chain is accepted if and only if its object is known and there are addresses to go through, each the sum of an offset and the start or the word read before, modulo 2^64, and the last the target |
| Ptrscanner.Ptrscan.Verify | src/lib/ptrscan.cc:1112-1164 | erasing in place leaves exactly the accepted chains, in order; the four refusals change nothing |
| Ptrscanner.AcceptedAreAccepted | src/lib/ptrscan.cc:1145-1156 | every kept chain is accepted and every accepted chain is kept as often as it was there |
| Ptrscanner.AcceptedInOrder | src/lib/ptrscan.cc:1145-1156 | the kept chains stay in order |
| Ptrscanner.VerifyIdempotent | src/lib/ptrscan.cc:1145-1156 | verifying again removes nothing |
| Ptrscanner.Ptrscan.GetFbufDataSz | src/lib/ptrscan.cc:257-288 | the sizes of the two printed sections |
| Ptrscanner.Ptrscan.GenerateBody | src/lib/ptrscan.cc:725-815 | the buffer is exactly the printed body, whose bytes `ResultFile.HeaderPositions` to `ResultFile.BodyEndExactly` give one by one, the final cursor its length; -1 exactly without chains |
| Ptrscanner.Ptrscan.HandleBodyStart | src/lib/ptrscan.cc:292-322 | the pathname loop ends and is the parse of the start of the bytes, reads past the end included |
| Ptrscanner.Ptrscan.HandleBodyChain | src/lib/ptrscan.cc:326-350 | the parse of one chain, reads past the end included |
| Ptrscanner.Ptrscan.ReadBody | src/lib/ptrscan.cc:881-926 | on any bytes: outcome, table and chains of a shallow load, which `ResultFile.LoadExactly` and `ResultFile.LoadFails` give in terms of the bytes |
| Ptrscanner.Ptrscan.ProcessBody | src/lib/ptrscan.cc:818-878 | on any bytes: outcome, table and chains of a deep load, which skips chains of absent objects; `ResultFile.DeepStarts`, `ResultFile.DeepExactly` and `ResultFile.DeepFails` give it in terms of the bytes |
| Ptrscanner.Ptrscan.CollectCalls | src/lib/worker.cc:371-443 | every worker scans its own set; success exactly if all that is to be read can be |
| Ptrscanner.Ptrscan.ProcessAll | src/lib/ptrscan.cc:690-719 | whatever the order of turns, the level is what some complete schedule adds |
| Ptrscanner.Ptrscan.SingleRun | src/lib/ptrscan.cc:1053-1055 | under the discipline of the barrier, all threads started included, a depth completes exactly if all areas can be read; it then makes every visit once and extends its level by what they add |
| Ptrscanner.Ptrscan.RunDepths | src/lib/ptrscan.cc:1044-1087 | levels are completed in order and no level index leaves the tree |
| Ptrscanner.Ptrscan.Scan | src/lib/ptrscan.cc:950-1109 | under the discipline of the barrier, all threads started included, a scan completes exactly with options, areas and, for any depth, all areas readable; its chains are then those of the childless nodes of a tree grown by full runs; otherwise there are none, and the result is 0 all the same |
| ScanTheorems.LeafPathOrigin | src/lib/ptrscan.cc:374-381 | every listed path is that of a childless node |
| ScanTheorems.ListedInOrder | src/lib/ptrscan.cc:366-422 | every node that is nobody's parent is listed, and of two of them the one of the lower level, or the first of the same level, is listed first |
| ScanTheorems.ChainExactly | src/lib/ptrscan.cc:225-422 | a listed chain belongs to the nodes from a childless one up to the target's: its object is that of the first node's area, or the last one before it, its pathname that object's, its first offset leads from the object's start to the first node, the others from pointer to parent, modulo 2^64 |
| ScanTheorems.ChainSound | src/lib/ptrscan.cc:353-468 | with 8-byte pointers every chain clear of area ends passes verification in the scanned memory |
| ScanTheorems.ScanVerifies | src/lib/ptrscan.cc:1145-1156 | with aligned 8-byte pointers verifying right after a scan removes nothing |
| ScanTheorems.ChainOffsets | src/lib/ptrscan.cc:385-418 | a chain comes from a childless node of some depth d, has d + 1 offsets, and all but the first lie in [0, max_obj_sz] |
| ScanTheorems.ScanIsProduced | src/lib/ptrscan.cc:353-425 | every scan lists a chain, and its result is one a file can be made of, if object pathnames hold no NUL |
| ScanTheorems.SameChains | src/lib/ptrscan.cc:353-425 | two plain scans of the same areas list the same objects, pathnames and offsets, each as often, whatever the listing order, the workers and the threads did |
| ScanTheorems.ScanTwice | src/lib/ptrscan.cc:950-1109 | two calls of the scanner on the same areas, with any pools, complete alike and list the same chains |
| Boundaries.ClearExactly | src/lib/worker.cc:133-162 | a visit delivers what memory holds, for every memory, if and only if its word ends within the area |
| Boundaries.AlignmentExactly | src/lib/worker.cc:411-441 | whatever memory and the buffer hold, the loop over an area offers its visits and stays inside the buffer, if and only if the alignment divides the page size less the width or the area ends before a second read |
| Boundaries.StaleListed | src/lib/worker.cc:133-162 | for any page size, every plain scan of a certain page lists a chain whose last pointer is partly stale, and following it does not arrive |
| Boundaries.StaleScan | src/lib/ptrscan.cc:950-1164 | the scanner lists that chain, and verifying right after drops it |
| ScanTheorems.WideReadExact | src/lib/ptrscan.cc:462 | an 8-byte read gives the 4-byte pointer if and only if the next four bytes are zero |
| ScanTheorems.NarrowChainSound | src/lib/ptrscan.cc:435-468 | a chain of a 4-byte scan passes verification if all its pointers are followed by zeros |
| ScanTheorems.NarrowPairExact | src/lib/ptrscan.cc:435-468 | a chain of one 4-byte pointer passes if and only if the pointer is followed by zeros |

## Left out

- MapAreaSet.AreaSet.UpdateSet: assumes areas in address order without overlap and, from any area of an object to the object's last one, only areas of that object; the pass may loop or skip wrongly otherwise.
- WorkDivision.WorkerPool.UpdateScanAreaSet: assumes at least one worker, as the comment in the source does.
- ScanWorker.Worker.ScanArea: its second half assumes that the width divides page and area size, that an area is at least a page long, and that the alignment suits it, as do the scans; `Boundaries.AlignmentExactly` shows that the last is needed.
- Barrier.CountersInvariant: an update of a counter and its comparison with the other one are one step; thread start between the two is not modelled.
- BarrierRun.RunScansEverything: assumes the discipline and no spurious wakeup; `BarrierRaces.ReparkRace`, `BarrierRaces.LostWakeup` and `BarrierRaces.LateStart` show why, and `BarrierRaces.RaisedTruthfully` is exact without the discipline.
- Ptrscanner.Ptrscan.SingleRun: threads take turns call by call and the barrier is taken to be disciplined, its pool's threads all started; the finer interleaving is LevelRun.dfy, and Rounds.dfy says what a run of the barrier contributes, disciplined or not. The three are not one program.
- Ptrscanner.Ptrscan.Scan: assumes the discipline of the barrier at every depth, the first included, that every selected area and the area of the target belong to a known object, and sizes below 2^63; the source dereferences a null object otherwise. Only the first session's page size and width are used, and all sessions see the same memory. The flags that keep the workers or the scan sets of an earlier scan are not modelled: every scan divides its areas anew.
- ScanTheorems.NarrowChainSound: one direction only; for longer chains of unpadded pointers a wrong read may still end at the target by chance. `ScanTheorems.NarrowPairExact` is exact for one pointer.
- Growth.LevelExact: presets and the window are inside `Accepts`; smart scans are covered by `Matching.SmartScanExact` per call only.
- Option setters and getters, the C interface and its container copies: plumbing.
- The serialiser's file streams and run-time type checks: input and output. The header offset is a parameter.
- MemCry's map and session internals, read failures other than unmapped bytes, and a target that changes during a scan.
- The cancel flag, static areas, node ids, the stored root node and the header counts on load: stored but without effect on the modelled results.
- The cached depth level pointer: re-fetched at the start of every area, and the level it names does not change during a run.
- Failures of locks, threads and condition variables, sleeping, tracing and error strings.
- Negative option sizes.
