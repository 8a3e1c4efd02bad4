# smallprofiler, modelled in Dafny

`profiler.h` is a single-header, instrumenting CPU profiler. A program brackets
regions of code with `PROFILER_START(name)` / `PROFILER_STOP(name)`. Each call site
owns one slot of a fixed table of 256 `profiler_node` records. A slot holds a name,
a 64-bit running total of elapsed CPU cycles, the slot id of its parent region,
and an `is_setup` flag. A global cursor, `profiler_current_parent`, names the region
currently open. When a slot is activated for the first time after a reset, it takes
the cursor as its parent. `_profiler_get_results` renders the table as a report:
a header row and a separator row, followed by a depth-first walk of the region
tree from parent -1. Each level of the walk lists its children in descending cost.

The project has four modules:

- `Cycles` (cycles.dfy): `uint64_t` as the newtype `u64`. It writes out the
  wrapping `+` and `-` that the profiler applies to cycle counts.
- `Registry` (registry.dfy): the table, cursor and id counter as a value `State`.
  It gives the transitions of reset, node setup, START, STOP and id creation as
  functions, and lemmas about sequences of them.
- `Report` (report.dfy): the report as functions on a snapshot of the table:
  - `Scan` is one pass of the inner loop.
  - `Siblings` is the children one level lists.
  - `Walk` / `Emit` are the depth-first recursion.
  - `Render` is the whole report.

  Lemmas state the ordering, omission, tie and structure properties.
- `Runtime` (runtime.dfy): the profiler as it runs. `Profiler` is a class holding
  the node array, updated in place, together with the cursor and the counter.
  - `Reset`, `CreateId`, `NodeSetup`, `Start` and `Stop` are each proved to perform
    exactly the `Registry` function of the same name (`Setup` for `NodeSetup`).
  - `ScanChildren` is proved equal to `Report.Scan`, `ResultsSorted` to `Report.Walk`
    (with `ResultsNext` as one round of its loop), and `GetResults` to `Report.Render`.
  - The report methods keep the source's loops and recursion.
  - `IndentedName` is a separate module-level method, outside the class.

A report line is modelled as a `Row`: `Entry(level, name, cycles)`, or the
`Header` / `Separator` rows. The level determines the line's indentation, and
`IndentedName` builds that indented name column. The indentation is characterised
separately, by `IndentedName`'s own contract; `Render` stops at the level and does not
build the text of a line. Cycle counts that the source reads
with `get_cycles()` are parameters of `Stop`.

The model follows the code in four places where a prose reading of the profiler
might suggest otherwise:

- A slot's parent is written only when the slot is first set up after a reset
  (the `is_setup` guard of START). It is not written at every activation. So STOP
  of a region first entered elsewhere moves the cursor to that earlier parent
  (`Registry.StartStopCursor`).
- Before the first reset, static zero-initialisation leaves every parent at slot 0,
  not -1 (`Registry.Initial`).
- The renderer's first ceiling is `UINT64_MAX`, compared with a strict `<`. A region
  whose total is exactly `UINT64_MAX` is therefore never listed.
- A region whose total is 0 is never listed. Of two sibling regions with equal
  totals, only the lower slot is listed; the other is skipped.

## Model

| member | source | states |
|---|---|---|
| Cycles.WrapSub | profiler.h:305 | `now - start` on uint64_t: the true difference, or the difference plus 2^64 when `now < start` |
| Cycles.WrapAdd | profiler.h:305 | `total += d` on uint64_t: the true sum, or the sum less 2^64 on overflow |
| Cycles.AddElapsed | profiler.h:305 | adding the wrapped elapsed interval to a total equals `(total + now - start) mod 2^64` |
| Registry.Initial | profiler.h:131-133 | static start: every slot zeroed (parent 0, not set up, empty name, 0 cycles), cursor -1, counter 0, and the state is valid |
| Registry.Reset | profiler.h:156-166 | every slot gets total 0, parent -1, not set up and an empty name; the slot count, cursor and id counter are unchanged; validity is preserved |
| Registry.ResetIdempotent | profiler.h:156-166 | resetting twice gives the same state as resetting once |
| Registry.Setup | profiler.h:268-273 | slot `id` takes the name, the cursor as parent and the setup flag; its total and every other slot are unchanged; so are the cursor and counter |
| Registry.Start | profiler.h:297-302 | the cursor becomes `id`; a slot already set up keeps its name and parent; a new slot gets the name and the old cursor as parent; totals and other slots are unchanged |
| Registry.Stop | profiler.h:304-306 | slot `id`'s total becomes `(total + now - start) mod 2^64`; its other fields and every other slot are unchanged; the cursor becomes the slot's stored parent |
| Registry.CreateId | profiler.h:292 | hands out the counter's current value and increments the counter; the table and cursor are unchanged |
| Registry.StartStopCursor | profiler.h:297-306 | a START/STOP pair restores the cursor if and only if the slot was new, or its stored parent already was the cursor |
| Registry.Nesting | profiler.h:268-306 | START(A); START(B); STOP(B); STOP(A) on new slots: B's parent is A, A's parent is the initial cursor, the cursor ends where it began, names are recorded, and each total grows by its own elapsed cycles mod 2^64 |
| Registry.ActivationsAccumulate | profiler.h:297-306 | after any run of activations of one call site, its total is the old total plus the sum of the wrapped intervals, mod 2^64; the parent is fixed by the first activation; every other slot is unchanged |
| Registry.Activate | profiler.h:297-306 | one call site executed once per span, each time START then STOP; the table keeps its 256 slots (what the activations do to the slot is `ActivationsAccumulate`) |
| Registry.Run | profiler.h:297-306 | the table after any sequence of STARTs and STOPs, nested or interleaved: slot count and id counter unchanged, validity preserved (its totals and links are `RunAccumulates` and `RunKeepsSetup`) |
| Registry.Step | profiler.h:297-306 | one START or STOP applied to the table: slot count and id counter unchanged, validity preserved |
| Registry.StepEffect | profiler.h:297-306 | one START or STOP adds to a slot's total, wrapping, exactly the elapsed cycles of a STOP of that slot (nothing otherwise), and leaves a set-up slot's flag, name and parent alone |
| Registry.RunAccumulates | profiler.h:297-306 | after any sequence of STARTs and STOPs, each slot's total is its old total plus the wrapped elapsed cycles of all of its own STOPs, mod 2^64, whatever ran in between |
| Registry.RunKeepsSetup | profiler.h:297-301 | a slot already set up keeps its flag, name and parent through any sequence of STARTs and STOPs |
| Report.Scan | profiler.h:185-200 | the scan's result index is -1 or a slot scanned so far, and a found slot is a child of the parent being listed |
| Report.ScanBest | profiler.h:185-200 | the scan finds nothing (index -1, cost 0) exactly when no child below the ceiling has a non-zero cost; otherwise it finds the largest such cost, at the first slot holding it |
| Report.Siblings | profiler.h:180-204 | at most 256 picks per level, each a slot of the table whose parent is the one being listed |
| Report.SiblingsEligible | profiler.h:191-194 | every pick is a child of the parent, with a cost strictly between 0 and the ceiling |
| Report.SiblingsDescending | profiler.h:193-202 | picks are in strictly descending cost |
| Report.SiblingsFirst | profiler.h:193-197 | no earlier sibling slot has the same cost as a pick: among tied siblings only the first is listed |
| Report.SiblingsComplete | profiler.h:183-204 | every candidate's cost is the cost of some pick, unless all the remaining picks of the level were used |
| Report.SiblingsCoverAll | profiler.h:183-204 | on a table of at most 256 slots the 256-pick cap never hides a cost: every candidate's cost is listed |
| Report.PathExtend | profiler.h:214-239 | descending into a listed child keeps the chain of ancestors a parent chain that is never longer than the table, so the recursion terminates even if the parent links contain cycles |
| Report.ChainDistinctAt | profiler.h:191-239 | a chain of ancestors from the top never repeats a slot |
| Report.DistinctBound | profiler.h:183 | proof infrastructure, not a source operation: a repetition-free list of slot ids below n has at most n elements, and has all of them when it has exactly n; `SiblingsCoverAll` uses it to show the 256-pick cap of this loop hides nothing, and `PathExtend` to bound the recursion depth |
| Report.Walk | profiler.h:176-246 | the rows of a subtree: each listed child's entry followed by its own subtree; the first row, if any, is an entry at the subtree's own depth (its rows are characterised by `WalkRows` and `WalkTopLevel`, and `Runtime.Profiler.ResultsSorted` is proved equal to it) |
| Report.Emit | profiler.h:204-239 | the rows of the given children in order, each entry followed by that child's subtree: at least one row per child, and the first row is the first child's entry (`EmitRows`, `EmitTopLevel` and `EmitLeaves` state what the rows are) |
| Report.WalkRows | profiler.h:204-239 | a subtree holds only entries, none shallower than its depth, and none with cost 0 or UINT64_MAX |
| Report.EmitAppend | profiler.h:231-239 | unfolding step used by `WalkStep`: emitting one more child appends its row at the current level, then its subtree |
| Report.WalkEnd | profiler.h:183-244 | when the outer loop stops (256 picks made, or a scan finds nothing), the rows built so far are the whole subtree |
| Report.WalkStep | profiler.h:187-239 | a round whose scan finds slot j: j is the next listed child, the ceiling becomes j's cost, and j's row then j's subtree are appended |
| Report.PickNext | profiler.h:187-202 | the slot a scan finds is the next listed child, and the later picks are the picks under its cost |
| Report.Render | profiler.h:248-260 | the report starts with the header and separator rows; every later row is an entry with cost strictly between 0 and UINT64_MAX |
| Report.AtLevelAppend | profiler.h:231-239 | proof infrastructure, not a source operation: selecting the rows of one level distributes over concatenation; `EmitTopLevel` and `RenderTopLevel` use it for the rows these lines append |
| Report.EntriesFor | profiler.h:231-237 | one entry per listed slot, with that slot's name and cost at the given level |
| Report.EmitTopLevel | profiler.h:204-239 | the rows of the emitted children at the path's own depth are exactly their entries, in order |
| Report.WalkTopLevel | profiler.h:180-239 | a subtree's rows at its own depth are exactly its listed children, in pick order, with strictly descending costs; everything else is nested deeper |
| Report.RenderTopLevel | profiler.h:248-260 | the level-0 rows of the report are exactly the listed roots (parent -1) |
| Report.RenderRootsDescending | profiler.h:193-259 | the report's level-0 rows have strictly descending costs |
| Report.RenderRootsComplete | profiler.h:183-259 | every root with a cost strictly between 0 and UINT64_MAX has its cost listed at level 0 |
| Report.RootWithCost | profiler.h:183-204 | returns the pick among the roots that has the given root's cost |
| Report.LeafWalk | profiler.h:204-244 | a slot without children contributes no rows below its own |
| Report.EmitLeaves | profiler.h:204-239 | children without children of their own contribute exactly their own rows |
| Report.TwoRootsTable | profiler.h:156-166 | reset, then root "a" timed in slot 0 and root "b" in slot 1, with the cursor at -1, leaves exactly those two roots with their elapsed cycles and 254 cleared slots |
| Report.TwoRootScan | profiler.h:185-200 | on a 256-slot table whose other 254 slots are cleared and whose roots in slots 0 and 1 each cost more than 0, a scan for roots picks slot 1 when it is below the ceiling and strictly costlier than slot 0 (or slot 0 is not below it), else slot 0 when it is below the ceiling, else nothing |
| Report.TwoRootsDescending | profiler.h:180-259 | on that 256-slot table, when 0 < x < y < UINT64_MAX cycles are the costs of "a" and "b", the report is the header, the separator, "b", then "a" |
| Report.TwoRootsRender | profiler.h:180-259 | a 256-slot table whose other 254 slots are cleared and whose roots in slots 0 and 1 cost 0 < c0 < c1 < UINT64_MAX renders slot 1's row and then slot 0's row (a cost of UINT64_MAX is never listed, by `SiblingsEligible`) |
| Report.TieShowsFirstOnly | profiler.h:193-202 | on that 256-slot table, when both roots cost the same x with 0 < x < UINT64_MAX, the report lists only "a": the tied root in the higher slot is skipped |
| Report.TieRender | profiler.h:193-202 | a 256-slot table whose other 254 slots are cleared and whose roots in slots 0 and 1 cost the same c with 0 < c < UINT64_MAX renders slot 0's row only |
| Report.NestedTable | profiler.h:268-306 | reset, then START a; START b; STOP b (10 to 30); STOP a (5 to 100) leaves "a" as a root with 95 cycles, "b" under "a" with 20, and 254 cleared slots |
| Report.NestedPicks | profiler.h:180-204 | on a 256-slot table whose other 254 slots are cleared, with a root in slot 0 and its child in slot 1, each costing strictly between 0 and UINT64_MAX, the root level and the child's level each list exactly their one slot |
| Report.NestedRender | profiler.h:204-259 | such a table (other 254 slots cleared, both costs strictly between 0 and UINT64_MAX) renders the root at level 0 and then its child at level 1 |
| Report.NestedReport | profiler.h:176-306 | the nested run's report is the header, the separator, `a` (95 cycles) at level 0, then `b` (20 cycles) at level 1 |
| Runtime.Profiler.constructor | profiler.h:131-133 | the new profiler's state is `Registry.Initial()` |
| Runtime.Profiler.Reset | profiler.h:156-166 | the loop over all slots leaves the state `Registry.Reset` of the old state |
| Runtime.Profiler.CreateId | profiler.h:292 | the returned id and the new state are `Registry.CreateId` of the old state: the old counter value, the counter incremented, the table and cursor unchanged; validity is kept |
| Runtime.Profiler.NodeSetup | profiler.h:268-273 | the new state is `Registry.Setup` of the old state |
| Runtime.Profiler.Start | profiler.h:297-302 | the new state is `Registry.Start` of the old state |
| Runtime.Profiler.Stop | profiler.h:304-306 | the new state is `Registry.Stop` of the old state, for the cycle counts `start` and `now` |
| Runtime.Profiler.ScanChildren | profiler.h:185-200 | the loop's `max_cycles` / `max_index` equal `Report.Scan` over all 256 slots |
| Runtime.Profiler.ResultsSorted | profiler.h:176-246 | the rows the loop and its recursive calls produce are `Report.Walk` of the table below the current parent |
| Runtime.Profiler.ResultsNext | profiler.h:185-239 | one outer-loop round: the loop invariant is kept when a child is found, and the rows equal the whole subtree when none is found |
| Runtime.Profiler.GetResults | profiler.h:248-260 | the rows produced are `Report.Render` of the node array |
| Runtime.IndentedName | profiler.h:206-212 | the name column is 4 spaces per level followed by the name, and nothing else |

## Left out

- `get_cycles` and `get_milliseconds` (the `rdtsc` and OS timers) are not modelled. Cycle counts are parameters of `Stop`; the START-side read is the `start` argument.
- `_profiler_initialize`'s calibration busy-wait and `profiler_cycles_measure` are not modelled; they only affect the seconds columns. Initialisation is modelled as its `profiler_reset()` call.
- Float columns (seconds, %-total, %-local) are not modelled. They are floating-point presentation of `total_cycles`, which each `Entry` keeps exactly.
- `sprintf` formatting is not modelled: column widths, padding and the literal header text. `Header` and `Separator` stand for the two fixed lines, and `Entry` holds the level, name and cycle count that a line is built from.
- The 16384-byte text buffer is not modelled, so a report that would overflow it is not detected.
- Runtime.IndentedName: unbounded. The source's 256-byte `buffer_name` overflows for deep nesting or long names, and the model does not capture that overflow.
- `_profiler_dump_file` and `_profiler_dump_console` are not modelled; they are file and console output of the same buffer.
- `PROFILER_DISABLE` and the C build's `__COUNTER__` ids are not modelled (build configuration).
- Id range checks are modelled as preconditions, not as undefined behaviour. Ids must be below 256 (`requires id < NodesMax`), since the source indexes the table unchecked. `profiler_current_id` is an unbounded `nat`, so C `int` overflow is not modelled.
- Names are modelled as sequences of characters shorter than the 256-byte `name` field (`NameMaxLen`), so that the name and its terminating NUL fit. `_profiler_node_setup` copies `strlen(name) + 1` bytes without truncating, so a longer name writes past the field into `total_cycles`, `parent_id`, `is_setup` and the next slot. The precondition excludes that out-of-bounds write, and the model does not capture its effects.
- The report reads the table without changing it. The runtime methods take the array's contents as a ghost snapshot, which they are required to equal; aliasing between the table and the output buffer is not modelled.
- Concurrency is not modelled; the globals are unsynchronised in the source as well.
