# virtmem in Dafny

A model of the core of `virtmem.c`, a simulator of demand-paged virtual
memory over an inverted page table. The program reads a trace of memory
references, translates each logical address to a physical one, and on a page
fault places the page in a free frame. When no frame is free it evicts a
victim chosen by the configured scheme (FIFO, LRU or second chance). At the
end it reports memory references, page faults, swap-ins and swap-outs.

The model has two layers:

- **Specification functions** on values.
  - `Bits`: C's `>>`, `<<`, `&` and `|` on non-negative integers. `>>` is proved to be division by `2^n` and `<<` multiplication by `2^n`. `&` is proved to be the remainder modulo `2^n` only for the mask `2^n - 1`. `|` is proved to be addition only for an offset below `2^n` or-ed into a multiple of `2^n`.
  - `PageTable`: the frame record and the two linear scans.
  - `Policies`: the LRU and second-chance victim choice and the sweep's effect on the reference bits.
  - `Translator`: `resolve_address` on an explicit state record, with the invariant it keeps.
  - `Driver`: `main`'s configuration check and per-line loop over a parsed trace.
- **Imperative code** in `Virtmem`. A `Simulator` class holds the page table as an `array<Frame>` and the counters, clock and victim cursor as fields. Each routine of the core is a method. The contracts of `FindPage` and `FindFree` state the lowest holding or free frame directly. Every other method's contract ties its result and new state to the specification functions. `RunSimulation` is `main` from the check to the report.

`Scenarios` works two concrete traces through the model.

The source's globals become one record, `Translator.Engine`. The source's
`-1` from `resolve_address` is `None`. The exit through
`error_resolve_address` is `Err(Unresolved(addr, line))`, and the usage
error is `Err(Usage)`.

Points where the model settles a question about the source:

- **Second chance does not skip a frame.** `replace_second_chance` leaves `victim_frame` on the victim, and the caller then advances it once more. So the cursor ends one past the victim, as under FIFO, and no frame is skipped (`Translator.ResolveSecondChance`, clause `r.e.cursor == (v + 1) % n`).
- **FIFO on A, B, C, A with two frames gives four faults.** The trace gives 4 faults: C evicts A, so the returning A faults again (`Scenarios.FifoFourFaults`).
- **The record declaration sits inside a comment.** As written, `struct page_table_entry` and the `page_table` pointer (`virtmem.c:55-62`) lie inside the comment opened at line 53. The model uses the evidently intended record, `PageTable.Frame`.
- **A free frame is untouched.** `setup` sets only `free`. The model takes the rest of each fresh frame to be zero (`PageTable.Unused`). The consequence of not clearing it is under "## Findings".

## Model

| member | source | states |
|---|---|---|
| Bits.ShiftRight | virtmem.c:88 | `x >> n` by repeated halving; no contract of its own, `Bits.ShiftRightIsDiv` states it is `x / 2^n` |
| Bits.ShiftLeft | virtmem.c:120 | `x << n` by repeated doubling; no contract of its own, `Bits.ShiftLeftIsMul` states it is `x * 2^n` |
| Bits.And | virtmem.c:94 | `a & b` one low bit at a time; no contract of its own, `Bits.AndMaskIsMod` states what it gives with the mask `2^n - 1` |
| Bits.Or | virtmem.c:92 | bitwise or, one low bit at a time; no contract of its own, `Bits.BuildMask` and `Bits.OrDisjoint` state what it gives in the mask loop and in the address |
| Bits.ShiftRightIsDiv | virtmem.c:88 | `x >> n` is `x / 2^n` |
| Bits.ShiftLeftIsMul | virtmem.c:120 | `x << n` is `x * 2^n` (no fixed width) |
| Bits.AndMaskIsMod | virtmem.c:94 | masking with `2^n - 1` is the remainder modulo `2^n` |
| Bits.OrDisjoint | virtmem.c:120 | or-ing an offset below `2^n` into a multiple of `2^n` is addition |
| Bits.BuildMask | virtmem.c:90-93 | the mask loop, n rounds of shift-left and or-one from 0, yields `2^n - 1` |
| Bits.Decompose | virtmem.c:88-94 | page and offset recombine to the logical address, and the offset is below `2^n` |
| Bits.Compose | virtmem.c:120 | the physical address, `frame << n` or-ed with the offset; no contract of its own, `Bits.ComposeDecompose` states it is `frame * 2^n + offset` and decodes back |
| Bits.ComposeDecompose | virtmem.c:120 | or-ing the offset into `frame << n` gives `frame * 2^n + offset`, which decodes back to the frame and the offset |
| PageTable.Lookup | virtmem.c:96-103 | the lowest occupied frame holding the page, none earlier; none exactly when no occupied frame holds it |
| PageTable.FirstFree | virtmem.c:130-135 | the lowest free frame, none earlier; none exactly when every frame is occupied |
| PageTable.FilledSplit | virtmem.c:130-154 | with frames claimed lowest-free-first, exactly the first `Filled` frames are occupied |
| Policies.LruVictim | virtmem.c:238-245 | the LRU scan over the whole table lands within the table; `Policies.LruOver` and `Policies.LruVictimIsLeastRecent` state which frame it is |
| Policies.LruOver | virtmem.c:238-245 | the scan's victim has the least `last_access` of the frames scanned, and no earlier frame is as old (strict `<`) |
| Policies.LruVictimIsLeastRecent | virtmem.c:237-249 | the LRU victim is the unique frame of least last access with no earlier frame equally old |
| Policies.Ahead | virtmem.c:220 | stepping the cursor `d` places round `n` frames is `(c + d) % n` |
| Policies.Behind | virtmem.c:220 | the number of steps from the cursor to a frame, below `n`, and stepping that far reaches the frame |
| Policies.SweepFrom | virtmem.c:210-222 | the sweep passes only frames with the reference bit set, stops at the first clear one, and takes at most `n` steps |
| Policies.SecondChanceVictim | virtmem.c:210-222 | the frame the sweep stops on lies within the table; `Policies.SecondChanceChoice` states which frame it is |
| Policies.SecondChanceFrames | virtmem.c:210-222 | the table after the sweep has the table's length; `Policies.SecondChanceEffect` states what happens to each frame |
| Policies.SecondChanceChoice | virtmem.c:204-223 | the victim is the first frame from the cursor with a clear reference bit; with every bit set it is the cursor frame after a full round |
| Policies.SecondChanceEffect | virtmem.c:204-223 | the victim gets the page with its bit set, every frame passed had its bit set and has it cleared, every other frame is unchanged, and the sweep is a full round exactly when every bit was set |
| Translator.Runnable | virtmem.c:393-395 | the usage check without the file test; no contract of its own, `Driver.SimulateUsage` states when it rejects |
| Translator.Init | virtmem.c:294-296 | setup over zeroed memory; no contract of its own, `Translator.SetupAsWritten` states it is setup as written when the memory is zero and `Translator.InitInv` that it satisfies the invariant |
| Translator.SetupAsWritten | virtmem.c:284-296 | setup as written marks every frame free, leaves every other field of each frame as the allocator returned it, starts all counters and the cursor at zero, and is `Init` when the memory was zero |
| Translator.InitInv | virtmem.c:294-296 | the state after setup satisfies the invariant with no frame filled |
| Translator.Resolve | virtmem.c:80-202 | a translation keeps the table shape and never changes memory references or the clock |
| Translator.Replace | virtmem.c:156-201 | the full-table branch keeps the table shape and changes neither memory references nor the clock |
| Translator.Victim | virtmem.c:160-197 | the frame each scheme evicts is within the table |
| Translator.Touch | virtmem.c:115-119 | the hit's update of the frame; no contract of its own, `Translator.ResolveHit` states its effect |
| Translator.Install | virtmem.c:145-151 | the fill of the free frame; no contract of its own, `Translator.ResolveFill` and `Translator.InstallTable` state its effect |
| Translator.Evict | virtmem.c:163-196 | the caller's dirty write-back after each policy; no contract of its own, `Translator.ResolveEvict` states when it counts a swap-out and what dirty bit the victim keeps |
| Translator.ResolveHit | virtmem.c:114-122 | a hit sets the reference bit, the last access and (on a write) the dirty bit of the frame holding the page; nothing else changes |
| Translator.ResolveFill | virtmem.c:125-154 | a fault with a free frame counts one fault and swap-in and fills frame `Filled` with the page, referenced, accessed now, dirty exactly on a write |
| Translator.ResolveEvict | virtmem.c:156-201 | a fault on a full table counts a swap-out exactly for a dirty victim, which then holds the page, dirty exactly on a write; it fails exactly under REPLACE_NONE and REPLACE_OPTIMAL |
| Translator.ResolveFifo | virtmem.c:160-172 | FIFO evicts the cursor frame, changes only its page and dirty bit, and advances the cursor by one |
| Translator.ResolveLru | virtmem.c:173-184 | LRU evicts the least recently accessed frame (lowest index among equals), stamps it now, and leaves the cursor |
| Translator.ResolveSecondChance | virtmem.c:185-197 | second chance evicts the first clear-bit frame from the cursor, clears the bits it passed, and leaves the cursor one past the victim |
| Translator.ResolveAddress | virtmem.c:120 | a successful translation decodes to a frame that now holds the page and to the logical offset |
| Translator.ResolveFails | virtmem.c:201 | the result is -1 exactly when the page is absent, no frame is free and the scheme has no replacement |
| Translator.ResolveCountsFaults | virtmem.c:127-128 | a page fault is counted exactly when the page is not resident, with one swap-in per fault and at most one swap-out |
| Translator.ResolveFills | virtmem.c:144-154 | a hit leaves the fill count, and a fault with a free frame raises it by one |
| Translator.ResolveDirty | virtmem.c:114-197 | swap-outs plus dirty frames grow by at most one per translation, and only on a write |
| Translator.ResolveInv | virtmem.c:80-202 | every translation keeps the invariant: filled in order, no page held twice, free frames untouched, one swap-in per fault, FIFO cursor counting evictions |
| Translator.InstallTable | virtmem.c:144-151 | claiming the first free frame keeps the table invariant and fills one more frame |
| Translator.FullTable | virtmem.c:160-197 | giving a non-resident page to one frame of a full table keeps it full and without duplicates |
| Driver.RunFrom | virtmem.c:408-428 | the line loop; no contract of its own, `Driver.RunFromSettled` and `Driver.RunFromDirty` state what a trace does to the counters |
| Driver.Simulate | virtmem.c:393-432 | `main` on a parsed trace; no contract of its own, `Driver.SimulateCounters`, `Driver.SimulateUsage`, `Driver.SimulateUnresolved` and `Driver.SimulateSwapOuts` state the report |
| Driver.Step | virtmem.c:408-428 | one line keeps the table shape |
| Driver.StepSettled | virtmem.c:408-428 | a line counts one reference exactly for a reference line and always advances the clock, or fails on a reference under a scheme with no replacement |
| Driver.ResolveSettled | virtmem.c:418-421 | a translation followed by counting the reference keeps the state settled |
| Driver.RunFromSettled | virtmem.c:408-428 | a completed trace counts exactly its reference lines and one tick per line; a failed one names a reference line of the trace and its address |
| Driver.SimulateCounters | virtmem.c:320-329 | the report: one reference per reference line, faults at most references, swap-ins equal faults, swap-outs at most faults |
| Driver.SimulateUsage | virtmem.c:393-403 | the usage error arises exactly when the scheme is REPLACE_NONE or a size is not positive |
| Driver.SimulateUnresolved | virtmem.c:418-420 | an unresolvable address arises only under REPLACE_OPTIMAL, at a reference line, carrying its number and address |
| Driver.OptimalNeverEvicts | virtmem.c:185-201 | a completed REPLACE_OPTIMAL run never exceeds the frame count in faults and never swaps out |
| Driver.StepDirty | virtmem.c:408-428 | a line adds at most one to swap-outs plus dirty frames, and only a write line does |
| Driver.RunFromDirty | virtmem.c:408-428 | over a trace, swap-outs plus dirty frames grow by at most the trace's writes |
| Driver.SimulateSwapOuts | virtmem.c:163-169 | a completed run reports no more swap-outs than write references |
| Virtmem.Simulator.constructor | virtmem.c:280-299 | setup's loop leaves every frame free and unused, all counters zero, and the state settled |
| Virtmem.Simulator.ReplaceFifo | virtmem.c:229-232 | the cursor frame receives the page; nothing else changes |
| Virtmem.Simulator.ReplaceLru | virtmem.c:237-249 | the scan returns the LRU victim, which receives the page and the current time |
| Virtmem.Simulator.ReplaceSecondChance | virtmem.c:204-226 | the loop returns the second-chance victim, leaves the table as `SecondChanceFrames` and the cursor on the victim |
| Virtmem.Simulator.Replace | virtmem.c:156-201 | the full-table branch computes exactly `Translator.Replace`, including the cursor advance and the dirty write-back |
| Virtmem.Simulator.FindPage | virtmem.c:96-103 | the lookup loop returns the lowest frame holding the page, or -1 exactly when none does |
| Virtmem.Simulator.FindFree | virtmem.c:130-135 | the free-frame loop returns the lowest free frame, or -1 exactly when none is free |
| Virtmem.Simulator.Resolve | virtmem.c:80-202 | `resolve_address` on the array computes exactly `Translator.Resolve`: same address and same new state |
| Virtmem.Simulator.ProcessLine | virtmem.c:408-428 | one turn of the loop computes exactly `Driver.Step` and keeps the state settled |
| Virtmem.RunSimulation | virtmem.c:393-432 | `main` from the check to the report computes exactly `Driver.Simulate` |
| Scenarios.FifoFourFaults | virtmem.c:160-172 | FIFO with two frames on A, B, C, A reports 4 references, 4 faults, 4 swap-ins, no swap-out |
| Scenarios.StaleSwapOut | virtmem.c:284-296 | with setup as written and a stale dirty bit, two reads on one frame report a swap-out |

## Left out

- Command-line parsing (`virtmem.c:357-382`): the model takes the parsed configuration as a `Config`. An unknown scheme name maps to REPLACE_NONE there; that mapping is not modelled.
- Opening and sizing the trace file (`virtmem.c:384-390`), and the `infile == NULL` part of the usage check (`virtmem.c:396`): file I/O. `Driver.Simulate` checks the other three conditions.
- Reading and parsing lines (`fgets` with `MAX_LINE_LEN`, the `strstr` for ':' and `sscanf` at `virtmem.c:408-416`): the trace arrives already parsed as `Driver.Line` values. A line longer than the buffer can be split in two by `fgets`; that is not modelled.
- The progress bar (`virtmem.c:255-277`, `424-426`), the report's printing (`virtmem.c:320-329`), the error message and `exit` (`virtmem.c:309-317`), and `teardown` (`virtmem.c:302-306`). These are output, or a no-op. Their outcomes are the `Outcome` values.
- The failure of `malloc` (`virtmem.c:288-292`): allocation always succeeds in Dafny.
- C integer widths: the counters, `timestamp`, `page_num` and `last_access` are unbounded naturals. The model has no overflow, and no truncation of the `long` timestamp into the `int` fields `last_access` and `current_min`. The model takes addresses as naturals. `%lx` accepts a sign and stores into the signed `long addr` (`virtmem.c:347`, `411`), so a `-` sign or a value of 2^63 or more gives `resolve_address` a negative `logical`, which `virtmem.c:88` shifts arithmetically; negative addresses are not modelled.
- The `dirty` flag is a boolean: the source stores an `int` and tests `== TRUE`, so a value other than 0 or 1 (possible only from uninitialised memory) acts as clean there, and the model has no such value.
- Reference bits are booleans. The source's `else if (ref_bit == 1)` has a third case, a value other than 0 or 1, which would spin forever. It cannot arise, because a frame is filled, and its bit set to 1, before any eviction looks at it.
- REPLACE_OPTIMAL has no implementation in the source. The model, like the source, returns -1 at its first eviction.
- Policies.SecondChanceFrames: its own contract gives only the length; what it does to each frame is stated by `Policies.SecondChanceEffect`.

## Findings

| source | as written | input that shows it | evidently intended | confidence | as-written member | corrected member |
|---|---|---|---|---|---|---|
| virtmem.c:284-296 | `setup` sets only `free` in memory from `malloc`, so `dirty` (and `ref_bit`, `last_access`, `page_num`) start with whatever the allocator left; a fill does not clear `dirty` on a read | framesize 1, numframes 1, FIFO, trace `R: 0`, `R: 2`, with the allocator returning the frame's `dirty` field equal to 1 (the test at virtmem.c:163 is `== TRUE`; the model's `bool` merges every other value into `false`): one swap-out is reported although nothing was written | every frame starts clean, so a run reports no more swap-outs than write references | not executed; depends on what the allocator returns | Translator.SetupAsWritten, Scenarios.StaleSwapOut | Translator.Init, Driver.SimulateSwapOuts |
