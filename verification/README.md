# Page-replacement simulators: a Dafny model

This project models the three page-replacement simulators of a Monte Carlo
study of virtual memory: `LRU`, `FIFO` and `Clock` in `Program_3.cpp`. Each one
replays an integer page trace against a working set of `wss` slots and returns
a fault count. Each is modelled as an immutable state, a `Step` function per
reference, and a `Run` fold over the trace. `Faults` is the simulator's return
value. Lemmas prove the invariants the steps keep and what the count means.

- `Pages` (pages.dfy): pages as `int`, `Elems` (the set of pages in a
  sequence), `Distinct`, and the sequence/set facts the policies share.
- `Fifo` (fifo.dfy): the shadow set `s` as a `set<int>` and the queue `q` as a
  `seq<int>`, oldest first.
- `Lru` (lru.dfy): the arrays `workingSet` and `time` as sequences of length
  `wss`, `initiationIndex` as `filled`, and the shadow set `s`. The eviction
  branch keeps both source scans: the maximum-age scan (`MaxFrom`) and the
  scan that overwrites every slot of maximal age (`EvictFrom`).
- `Clock` (clock.dfy): the arrays `workingSet` and `useBit`, `framePointer`,
  and the shadow set `s`. The sweep loop is `SweepFrom`, which recurses on the
  number of set use bits.
- `Scenarios` (scenarios.dfy): the trace a b a c, for any three distinct
  pages, replayed by each policy with two slots, one reference at a time.

The model follows the code, not the textbook:

- **Cold placements are not counted.** A miss while the set still has room
  puts the page in and leaves `faults` unchanged in all three simulators. So
  `Faults` counts only the misses beyond the first `wss`. `FaultsAreLateMisses`
  and `QueueHoldsLatestMisses` prove `faults == misses - min(wss, misses)`,
  where `misses` counts every reference that found its page absent.
- Textbook page-fault counts include the cold misses that fill an empty
  set; this code counts only misses with the set full. So a b a c with two
  slots gives 1 fault under each policy, not the textbook 3 (`Scenarios`).
  Whenever at most `wss` distinct pages occur the count is 0
  (`FewPagesNoFaults`). In general the count is not bounded below by the
  number of distinct pages; it satisfies `faults + wss >= distinct pages`.
- Clock's sweep loop runs at most `wss + 1` times (`SweepFrom`:
  `rounds <= |bits| + 1`): one pass clearing set bits, then the slot it
  started from.
- The source loops run over a hard-coded 1000 references. Here they run over
  `|data|`, so a 1000-element trace gives the source's result.
- `wss >= 1` is a precondition everywhere. The source sizes arrays by `wss`.
  With `wss <= 0`, FIFO reads `q.front()` on an empty queue and Clock reads
  `useBit[0]` of a zero-length array. The source has no error path for a bad
  `wss`, so the model has none either. An empty trace is allowed and gives 0.
- LRU's eviction scan overwrites every slot whose age equals the maximum and
  adds a fault for each one. `Valid` keeps filled slots' ages pairwise
  distinct, so the maximum is unique. `EvictsOnlyOldest` then shows that the
  literal scan replaces exactly one slot and adds exactly one fault.
- The LRU and Clock hit loops compare `d` against all `wss` slots, including
  unfilled ones, which still hold 0. When page 0 is resident, such a slot gets
  age 0 or use bit 1. The model does the same. The invariants only constrain
  filled slots, and an unfilled slot is written before it is first used, so
  this has no effect.
- Clock wraps `framePointer` at the top of every iteration. A hit therefore
  leaves the pointer where it was, except that a pointer equal to `wss`
  becomes 0.

## Model

| member | source | states |
|---|---|---|
| Fifo.InitValid | Program_3.cpp:163-165 | the empty set and queue with a zero count are a valid state for every working-set size |
| Fifo.Admit | Program_3.cpp:175-179 | a miss with room appends the page to the back of the queue and adds it to the set; no fault; queue and set still hold the same distinct pages |
| Fifo.Replace | Program_3.cpp:184-191 | a miss with the set full removes exactly the queue front (the oldest insertion) from queue and set, appends the page, keeps exactly wss pages, and adds exactly one fault |
| Fifo.Step | Program_3.cpp:169-192 | a hit changes neither set, queue nor count; a miss with room appends the page to the queue; a miss with the set full drops the queue front from queue and set and appends the page; the queue and set stay equal, duplicate-free and at most wss long; the count grows by one exactly on a miss with the set full |
| Fifo.Run | Program_3.cpp:169-192 | after any prefix of the trace the queue/set invariant holds, the count is at most the number of references, and every resident page was referenced |
| Fifo.Faults | Program_3.cpp:161-195 | the result is at most the trace length, equals the misses beyond the first wss, is at least distinct pages minus wss, and is 0 when at most wss distinct pages occur |
| Fifo.QueueHoldsLatestMisses | Program_3.cpp:175-191 | the queue is the latest min(wss, misses) missed pages in order, whatever hits came between, and the count is the number of earlier misses |
| Fifo.FewPagesNoFaults | Program_3.cpp:175-179 | with at most wss distinct pages in the trace, every one of them is resident at the end and the count is 0 |
| Fifo.MissesCoverPages | Program_3.cpp:175-191 | the number of misses is at least the number of distinct pages in the trace |
| Lru.Init | Program_3.cpp:51-76 | both arrays start zeroed, initiationIndex at 0, nothing resident and no faults, and that state is valid |
| Lru.Tick | Program_3.cpp:82-85 | every slot, filled or not, is exactly one older, and the sequence keeps its length |
| Lru.TickKeepsOldest | Program_3.cpp:82-85 | a slot strictly older than all others after ageing was already strictly older than all others before it |
| Lru.MaxFrom | Program_3.cpp:104-114 | the first eviction scan returns a value at least its start that bounds every age scanned and is either the start or one of those ages |
| Lru.Overwrite | Program_3.cpp:122-126 | the overwritten slot gets the page and age 0, every other slot keeps its page and age, the slot's old page leaves the set and the new page joins it, and one fault is added |
| Lru.EvictFromMatches | Program_3.cpp:118-128 | the overwrite scan gives the page and age 0 to exactly the slots from its start whose age equals the maximum, leaves every other slot alone, and adds one fault per slot overwritten (`EvictFromSingle` and `EvictsOnlyOldest` then show one slot matches) |
| Lru.EvictFromUnmatched | Program_3.cpp:118-128 | when no scanned slot has the maximal age, the overwrite scan changes nothing |
| Lru.EvictFromSingle | Program_3.cpp:118-128 | when exactly one scanned slot has the positive maximal age, the overwrite scan replaces that slot alone and adds one fault |
| Lru.EvictsOnlyOldest | Program_3.cpp:104-128 | with pairwise distinct positive ages, the two eviction scans together replace exactly the strictly oldest slot and add exactly one fault |
| Lru.Place | Program_3.cpp:91-97 | a miss with room writes the page into slot initiationIndex and age 0 into its time entry, leaves every other slot and age alone, advances initiationIndex, adds the page to the set, keeps the state valid and adds no fault |
| Lru.Evict | Program_3.cpp:102-129 | a miss with the set full replaces the page of a slot strictly older than all others, resets that slot's age, keeps wss resident pages and adds exactly one fault |
| Lru.Touch | Program_3.cpp:134-143 | a hit resets to 0 the age of the slots holding the page and changes no other age, no slot, no membership and no count |
| Lru.Step | Program_3.cpp:78-144 | one reference keeps slots and set in step, keeps filled-slot ages distinct and initiationIndex equal to the set size, places on a miss with room, replaces the oldest slot on a miss with the set full, and adds a fault exactly then |
| Lru.StepAges | Program_3.cpp:82-85 | after one reference the filled slot holding the page has age 0 and every other filled slot keeps its page and is exactly one older |
| Lru.Run | Program_3.cpp:78-144 | after any prefix the slot/set/age invariant holds, the count is at most the number of references, every resident page was referenced, and every filled slot's age is below the number of references |
| Lru.Faults | Program_3.cpp:47-147 | the result is at most the trace length, equals the misses beyond the first wss, is at least distinct pages minus wss, and is 0 when at most wss distinct pages occur |
| Lru.FaultsAreLateMisses | Program_3.cpp:91-128 | the set holds min(wss, misses) pages and the count equals misses minus that |
| Lru.FewPagesNoFaults | Program_3.cpp:91-97 | with at most wss distinct pages in the trace, every one of them is resident at the end and the count is 0 |
| Lru.MissesCoverPages | Program_3.cpp:87-102 | the number of misses is at least the number of distinct pages in the trace |
| Lru.AgesAreRecency | Program_3.cpp:57-60 | the age of each filled slot is the number of references made since its page was last referenced |
| Lru.EvictsLeastRecentlyUsed | Program_3.cpp:104-128 | a miss with the set full evicts exactly one resident page, the one whose last reference is earlier than that of every other resident page |
| Clock.Init | Program_3.cpp:213-237 | both arrays start cleared, the pointer at 0, nothing resident and no faults, and that state is valid |
| Clock.Wrap | Program_3.cpp:243-246 | the wrapped pointer lies below wss: a pointer already below wss is left alone and one at or past wss goes back to 0; the sweep wraps the same way at lines 283-286 |
| Clock.SweepFrom | Program_3.cpp:277-310 | the sweep replaces the first slot from the wrapped pointer whose use bit is clear (the start slot itself when all are set), sets its bit, clears exactly the bits it passed, leaves the pointer one past it, and runs at most wss+1 times |
| Clock.VictimIsFirstClear | Program_3.cpp:279-306 | the replaced slot had a clear use bit, or every bit was set and it is the start slot; every slot passed had its bit set |
| Clock.Place | Program_3.cpp:250-256 | a miss with room puts the page in the slot under the pointer with use bit 1, advances the pointer by one, adds the page to the set and adds no fault |
| Clock.Mark | Program_3.cpp:261-270 | a hit sets the use bit of the slots holding the page, clears none, and moves neither pages, membership, pointer nor count |
| Clock.Replace | Program_3.cpp:275-311 | a miss with the set full replaces the sweep's victim in slot and set, keeps wss resident pages, leaves the pointer one past the victim and adds exactly one fault |
| Clock.Step | Program_3.cpp:241-311 | one reference keeps 0 <= pointer <= wss and slots and set in step; cold placements fill slots 0, 1, ... in order; a hit only sets use bits; the count grows by one exactly on a miss with the set full |
| Clock.StepSweeps | Program_3.cpp:275-310 | on a miss with the set full, the replaced slot is the first clear one from the pointer, the slots passed had their bits set and now have them clear, the others keep theirs, and the pointer ends one past the replaced slot |
| Clock.Run | Program_3.cpp:239-312 | after any prefix the slot/set/pointer invariant holds, the count is at most the number of references, and every resident page was referenced |
| Clock.Faults | Program_3.cpp:209-315 | the result is at most the trace length, equals the misses beyond the first wss, is at least distinct pages minus wss, and is 0 when at most wss distinct pages occur |
| Clock.FaultsAreLateMisses | Program_3.cpp:250-311 | the set holds min(wss, misses) pages and the count equals misses minus that |
| Clock.FewPagesNoFaults | Program_3.cpp:250-256 | with at most wss distinct pages in the trace, every one of them is resident at the end and the count is 0 |
| Clock.MissesCoverPages | Program_3.cpp:250-275 | the number of misses is at least the number of distinct pages in the trace |
| Scenarios.LruOnABAC | Program_3.cpp:47-147 | for any distinct pages a, b, c, LRU on a b a c with two slots ends with {a, c} resident (b, referenced less recently, evicted) and returns 1 |
| Scenarios.FifoOnABAC | Program_3.cpp:161-195 | for any distinct pages a, b, c, FIFO on a b a c with two slots ends with {b, c} resident (a evicted despite its hit) and returns 1 |
| Scenarios.ClockAfterABA | Program_3.cpp:239-270 | Clock on a b a with two slots fills slots 0 and 1 in order with use bits set, and the hit wraps the pointer from 2 to 0 |
| Scenarios.ClockOnABAC | Program_3.cpp:209-315 | for any distinct pages a, b, c, Clock on a b a c with two slots sweeps past both set bits, replaces a in slot 0 (slots [c, b], use bits [1, 0], pointer 1), ends with {b, c} resident and returns 1 |

## Left out

- `main` (Program_3.cpp:318-375) is not modelled. It generates traces with a Mersenne Twister and a floating-point normal distribution, which are randomness and floating point. It averages and prints with `cout`, which is I/O. Its accumulator arrays `LRUResults[20]` and `FIFOResults[20]` are never initialised and are indexed at 20, one past their end. That is a defect of the driver, not of the simulators.
- The hashing of `unordered_set` and the variable-length C arrays are not modelled. A mathematical `set<int>` and sequences of length `wss` stand in for them.
- Machine integers are not modelled. Ages, the pointer and the count are unbounded `nat`s. On the source's 1000-reference traces none of them can pass 1000, so 32-bit `int` never wraps there. Only on traces longer than 2^31 would the model and a 32-bit build differ.
- Parallel or repeated trials and averaging over traces are not modelled. Only one trace at one `wss` is in scope, so Belady-style comparisons across working-set sizes are not modelled either.
- Lru.EvictFromMatches: states the slots, ages and count for any number of matching slots, but states the shadow set only through `EvictFromSingle`, for the one-match case that valid states reach; with several matches the source's erase-then-insert sequence on `s` is not characterised.
- Clock.Step: its contract leaves the full-set miss to `Clock.StepSweeps`, which states that case for the same `Step` result.
