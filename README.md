# XSPdb core logic in Dafny

XSPdb is a pdb-based interactive debugger for the XiangShan RISC-V processor running in a
cycle-level simulator. This project models the debugger's own sequential logic and proves
properties of it:

- **memory access** (`MemoryRW`): unaligned byte writes merged into 8-byte words of RAM
  or flash, the flash range checks, the word-gathering read, and eviction of the
  disassembly cache;
- **stepping** (`Dut`): the batched step loop with its break checks, reset, the signal
  watch list and flash loading;
- **traps** (`Trap`): the good-trap and good-loop predicates and the one-time registration
  of the good-trap checker;
- **difftest bookkeeping** (`DiffTest`): the commit pc list, watching and unwatching
  commit pcs through condition names and clock callbacks, and instruction stepping
  (`xistep`);
- **ELF symbols** (`Elf`): parsing `readelf -s` rows into address and name tables, the
  strict-predecessor lookup, the "pc block changed" notifier, and address/symbol
  translation;
- **batch scripts** (`Batch`): the ignore list and the per-line prefix, suffix and comment
  filtering of `api_exec_batch_cmd`;
- **assembler front end** (`Asm`): text normalisation, the `objdump -h` section parser,
  the `xasm` argument split and the insert loop;
- **the emulation driver** (`Emu`): memory-size strings, argument checks, the
  commit-count mapping and the sorted cycle schedule of `main`.

The simulator is an abstract collaborator (`Sim.Simulator`). It has a clock that stops
at the first cycle an abstract `disableAt` predicate fires. It has a list of rising-edge
callback keys, and a difftest state read through an abstract `probeAt`. The external
condition checker is a set of condition names. Helper modules: `Wrappers` (Option and
Result), `Bytes` (little-endian words), and `Text`. `Text` models `strip`, `split`,
`startswith`, `replace`, `upper`/`lower`, `int(s, base)` and hex formatting for ASCII
text (see "Left out" for what that leaves aside).

Where the code and its documentation differ, the model follows the code. One example:
`main` steps to `interact_at` even when it lies beyond `max_cycles`.

## Model

| member | source | states |
|---|---|---|
| MemoryRW.Head | XSPdb/cmd/cmd_mrw.py:25-27 | the preserved head has exactly address mod 8 bytes |
| MemoryRW.Tail | XSPdb/cmd/cmd_mrw.py:28-31 | the preserved tail has exactly 8 - (end mod 8) bytes |
| MemoryRW.MergedIsWholeWords | XSPdb/cmd/cmd_mrw.py:32-33 | head, data and tail together are a whole number of words, ending one word past the aligned end |
| MemoryRW.WriteAllFrame | XSPdb/cmd/cmd_mrw.py:35-37 | the word loop leaves every word outside the buffer's aligned span unchanged |
| MemoryRW.WriteAllWord | XSPdb/cmd/cmd_mrw.py:35-37 | each word the loop writes holds the little-endian value of its 8 buffer bytes |
| MemoryRW.WriteAllByte | XSPdb/cmd/cmd_mrw.py:35-37 | every byte inside the written span reads back as the buffer byte at that offset |
| MemoryRW.WriteAllOtherByte | XSPdb/cmd/cmd_mrw.py:35-37 | every byte outside the written span keeps its old value |
| MemoryRW.WrittenFrame | XSPdb/cmd/cmd_mrw.py:25-37 | a merged write changes no word outside the rewritten span |
| MemoryRW.EndAlignedWordRewritten | XSPdb/cmd/cmd_mrw.py:28-37 | when the end address is 8-aligned, one extra word is rewritten with its own old value |
| MemoryRW.WrittenByteIsBuf | XSPdb/cmd/cmd_mrw.py:25-37 | each byte of the rewritten span equals the merged buffer at its offset |
| MemoryRW.WrittenHeadByte | XSPdb/cmd/cmd_mrw.py:25-27 | bytes of the first word before the address keep their old values |
| MemoryRW.WrittenTailByte | XSPdb/cmd/cmd_mrw.py:28-31 | bytes of the last word after the data keep their old values |
| MemoryRW.WrittenDataByte | XSPdb/cmd/cmd_mrw.py:25-37 | bytes in [address, address + len) equal the data |
| MemoryRW.WrittenBytes | XSPdb/cmd/cmd_mrw.py:25-37 | after a write, every byte is the data byte inside the range and the old byte everywhere else |
| MemoryRW.ReadSpan | XSPdb/cmd/cmd_mrw.py:110-115 | the byte span read through a word reader has exactly the requested length |
| MemoryRW.AsWrittenReadLengthExact | XSPdb/cmd/cmd_mrw.py:109-115 | the read returns size bytes iff address mod 8 + size mod 8 <= 8, and never more than size |
| MemoryRW.AsWrittenReadIsShort | XSPdb/cmd/cmd_mrw.py:109-115 | reading 2 bytes at 0x8000_0007 returns only 1 byte |
| MemoryRW.PySlice | XSPdb/cmd/cmd_mrw.py:115 | Python slice semantics: clamped length, and each element taken from the source at its offset |
| MemoryRW.SliceIsSpan | XSPdb/cmd/cmd_mrw.py:110-115 | the slice of the gathered words is the byte span starting at the address |
| MemoryRW.AsWrittenSliceLength | XSPdb/cmd/cmd_mrw.py:109-115 | the slice of size//8+1 gathered words has the as-written read length |
| MemoryRW.CoveringSliceLength | XSPdb/cmd/cmd_mrw.py:109-115 | gathering enough words to cover offset + size yields exactly size bytes |
| MemoryRW.ReadBytesWithFunc | XSPdb/cmd/cmd_mrw.py:98-115 | the read loop as written returns the byte span of the as-written (possibly short) length |
| MemoryRW.ReadBytesCovering | XSPdb/cmd/cmd_mrw.py:98-115 | the corrected read loop returns exactly size bytes from the address (none for a negative size) |
| MemoryRW.RamReadAfterWrite | XSPdb/cmd/cmd_mrw.py:10-39 | reading back a RAM write returns the written data |
| MemoryRW.FlashReadAfterWrite | XSPdb/cmd/cmd_mrw.py:48-57 | reading back a flash write, via flash-relative addresses, returns the written data |
| MemoryRW.AsWrittenReadAfterWrite | XSPdb/cmd/cmd_mrw.py:108-115 | with the as-written read, read-after-write gives a prefix of the data, and all of it iff address mod 8 + len mod 8 <= 8 |
| MemoryRW.Evicted | XSPdb/cmd/cmd_mrw.py:61-68 | eviction removes exactly the cache keys in range(pos_str, pos_end, bsz) and keeps the other entries unchanged |
| MemoryRW.EvictedIsTouched | XSPdb/cmd/cmd_mrw.py:63-66 | every evicted key is a block start whose block meets [address, address + len] |
| MemoryRW.TouchedIsEvicted | XSPdb/cmd/cmd_mrw.py:63-66 | every block start whose block meets [address, address + len] is evicted |
| MemoryRW.EvictedBlocksExactly | XSPdb/cmd/cmd_mrw.py:63-66 | the evicted range is exactly the touched block starts (both directions) |
| MemoryRW.Memory.constructor | XSPdb/xspdb.py:28-45 | a memory with the given RAM, flash base, block size and flash predicate, an empty flash and an empty cache |
| MemoryRW.Memory.WriteWord | XSPdb/cmd/cmd_mrw.py:36-37 | one dword write updates one word of the chosen store and nothing else |
| MemoryRW.Memory.WriteWordLoop | XSPdb/cmd/cmd_mrw.py:35-37 | the word loop leaves the chosen store equal to the word-by-word write of the buffer and the other store unchanged |
| MemoryRW.Memory.WriteBytesWithRw | XSPdb/cmd/cmd_mrw.py:10-39 | succeeds iff the data is non-empty and memory is initialised; on failure nothing changes, on success the store is the merged write |
| MemoryRW.Memory.EvictCache | XSPdb/cmd/cmd_mrw.py:61-68 | the eviction loop leaves the cache equal to Evicted |
| MemoryRW.Memory.WriteBytes | XSPdb/cmd/cmd_mrw.py:41-69 | flash writes with relative address < 0 or > 0x7FFFFFFF are refused and change nothing; accepted writes go to flash (relative) or RAM, and the cache is evicted only on success |
| MemoryRW.Memory.ReadBytesFrom | XSPdb/cmd/cmd_mrw.py:117-139 | None iff memory is uninitialised or the two ends differ in flash classification; otherwise the bytes of the right store through the corrected read (exactly size bytes), with flash offsets clamped at 0 |
| MemoryRW.Memory.MemCopy | XSPdb/cmd/cmd_mrw.py:156-167 | a non-positive size, uninitialised memory or a source span across the flash boundary copies nothing and changes nothing; otherwise the copy succeeds iff the write of size bytes at the target is accepted, and then the target store holds the source bytes (corrected read of the old store) written at the target, the other store is unchanged and the cache blocks around the target are evicted |
| Bytes.WordBytesRoundTrip | XSPdb/cmd/cmd_mrw.py:26-37 | converting a word to 8 little-endian bytes and back gives the word |
| Sim.GetCommit | XSPdb/cmd/cmd_trap.py:60 | a present commit is the one stored at that index, inside the list |
| Sim.AdvanceBounds | XSPdb/cmd/cmd_dut.py:45 | stepping n cycles advances the clock by at most n, by exactly n when no disable fires, and not at all when disabled |
| Sim.AdvanceQuiet | XSPdb/cmd/cmd_dut.py:45 | with no disable cycle in range, Step(n) adds n and leaves the clock enabled |
| Sim.AdvanceStopsAtFirstDisable | XSPdb/cmd/cmd_dut.py:24-25 | the clock stops, disabled, at the first cycle where a breakpoint fires |
| Sim.AdvanceDisabledOnCallback | XSPdb/cmd/cmd_dut.py:24 | a clock that became disabled did so at a cycle where disableAt holds |
| Sim.Count | XSPdb/cmd/cmd_trap.py:34-35 | the number of registrations of a key is zero exactly when the key is absent |
| Sim.CountAppend | XSPdb/cmd/cmd_trap.py:35 | registration counts add over concatenated callback lists |
| Sim.Without | XSPdb/cmd/cmd_trap.py:34 | RemoveStepRisCbByDesc drops every registration of the key and keeps the counts of all other keys |
| Sim.ReRegisterOnce | XSPdb/cmd/cmd_difftest.py:84-86 | remove-then-add leaves the key registered exactly once and other keys untouched |
| Sim.Simulator.constructor | XSPdb/cmd/cmd_dut.py:41 | a fresh clock at cycle 0, enabled, with no callbacks |
| Sim.Simulator.Enable | XSPdb/cmd/cmd_dut.py:37-38 | after Enable the clock is not disabled |
| Sim.Simulator.Step | XSPdb/cmd/cmd_dut.py:45 | the clock moves per Advance, and the difftest state is the probe at the new cycle |
| Sim.Simulator.StepRis | XSPdb/cmd/cmd_trap.py:35 | registering appends the key |
| Sim.Simulator.RemoveStepRisCbByDesc | XSPdb/cmd/cmd_trap.py:34 | unregistering removes every registration of the key |
| Trap.GoodLoopFromMeans | XSPdb/cmd/cmd_trap.py:59-66 | the scan from slot i is true iff some slot j >= i below 8 holds a present, valid commit of 0x6f |
| Trap.IsHitGoodLoopMeans | XSPdb/cmd/cmd_trap.py:59-66 | good loop holds iff some slot 0..7 holds a present, valid commit with instr 0x6f |
| Trap.GoodLoopOnlyFirstSlots | XSPdb/cmd/cmd_trap.py:59-61 | commits at index 8 and beyond never affect good loop |
| Trap.GoodLoopIsSelfJump | XSPdb/cmd/cmd_trap.py:62 | the JAL encoding equals 0x6f iff rd = x0 and offset = 0, a jump to itself (RISC-V Unprivileged ISA, section 2.5) |
| Trap.TrapCmd.constructor | XSPdb/cmd/cmd_trap.py:9-36 | with a code address the checker is stored and "good_trap" is registered after removal; without one nothing is registered |
| Trap.TrapCmd.InitGoodTrap | XSPdb/cmd/cmd_trap.py:14-36 | idempotent: an existing checker or a missing code address changes nothing; otherwise "good_trap" is registered exactly once and other keys keep their counts |
| Trap.IsHitGoodTrap | XSPdb/cmd/cmd_trap.py:44-49 | the definition: good trap iff hasTrap != 0 and code == 0 (a reset clears it, see Dut.ResetClearsTraps) |
| Dut.BreakReasonOf | XSPdb/cmd/cmd_dut.py:23-36 | no break iff the clock is enabled and neither good trap, good loop nor trap break holds; a disabled clock always wins |
| Dut.Batches | XSPdb/cmd/cmd_dut.py:42-48 | the definition of the batch loop: stop at a set interrupt, else step one batch, run check_break and stop with interrupt set when it reports a break; its behaviour is stated by the Batches lemmas below |
| Dut.StepDutSpec | XSPdb/cmd/cmd_dut.py:37-52 | the definition of api_step_dut on a run: enable the clock, clear interrupt, run cycle // batch_cycle batches, then the remainder and one more check only when neither interrupted nor disabled; stated by the StepDut lemmas below |
| Dut.BatchesBound | XSPdb/cmd/cmd_dut.py:42-48 | k batches advance the clock by at most batch_cycle * k |
| Dut.StepDutElapsed | XSPdb/cmd/cmd_dut.py:40-52 | the returned elapsed cycles lie between 0 and cycle |
| Dut.BoundariesShift | XSPdb/cmd/cmd_dut.py:42-48 | after one batch, the boundaries still ahead are those of a run started one batch later |
| Dut.BatchesQuiet | XSPdb/cmd/cmd_dut.py:42-48 | with no breakpoint in the batches and check_break passing at each of the k batch boundaries (cycles between boundaries are unconstrained), k batches advance exactly batch_cycle * k and do not interrupt |
| Dut.StepDutQuiet | XSPdb/cmd/cmd_dut.py:40-52 | with no breakpoint, check_break passing at every batch boundary, and the hook not interrupting after the remainder, the call advances exactly cycle cycles and is not interrupted; a break condition that comes and goes between boundaries does not stop it |
| Dut.StepDutNegative | XSPdb/cmd/cmd_dut.py:40 | a negative cycle runs no batch and steps the floor-mod remainder (cycle = -1 steps batch_cycle - 1) |
| Dut.BatchesStopAtDisable | XSPdb/cmd/cmd_dut.py:42-48 | a first breakpoint at cycle d inside the batches, with check_break passing at the boundaries before it, stops the clock at d and sets interrupt |
| Dut.StepDutStopsAtDisable | XSPdb/cmd/cmd_dut.py:40-52 | a first breakpoint inside the full batches, with check_break passing at the boundaries before it, ends the call at that cycle, interrupted, with the remainder not stepped |
| Dut.BatchesBreakOnBoundary | XSPdb/cmd/cmd_dut.py:42-48 | an interrupt without a disabled clock (a break condition or the hook) happens at a batch boundary |
| Dut.StepDutBreakOnBoundary | XSPdb/cmd/cmd_dut.py:42-51 | an interrupt with the clock still enabled leaves the elapsed count a multiple of batch_cycle, unless the hook set it at the final check after the remainder |
| Dut.BatchesHookStop | XSPdb/cmd/cmd_dut.py:42-48 | the hook setting interrupt after batch j + 1 of a quiet run ends the batch loop on that boundary with interrupt set |
| Dut.StepDutHookStop | XSPdb/cmd/cmd_dut.py:40-52 | the hook setting interrupt after batch j + 1 ends the call after exactly (j + 1) * batch_cycle cycles, interrupted, with the remainder not stepped |
| Dut.BatchesBreakStop | XSPdb/cmd/cmd_dut.py:42-48 | good trap, good loop or trap break seen by check_break after batch j + 1, with the earlier boundaries passing and no breakpoint, ends the batch loop on that boundary with interrupt set |
| Dut.StepDutBreakStop | XSPdb/cmd/cmd_dut.py:40-52 | good trap, good loop or trap break at the end of batch j + 1 ends the call after exactly (j + 1) * batch_cycle cycles, interrupted, with the remainder not stepped |
| Dut.StepDutBreakpointAt450 | XSPdb/cmd/cmd_dut.py:40-52 | stepping 1000 cycles in batches of 200 with a breakpoint at +450 stops at +450 |
| Dut.FirstAbsentSlot | XSPdb/cmd/cmd_dut.py:56-59 | the first of slots 0..7 that get_commit reports missing (8 if none): every slot before it is present |
| Dut.FirstAbsentSlotAll | XSPdb/cmd/cmd_dut.py:56-59 | the reset loop gets through all eight slots iff all eight are present |
| Dut.ResetClearsTraps | XSPdb/cmd/cmd_dut.py:56-62 | after the reset writes, neither good trap nor good loop holds, the valid flags are kept and commits beyond 8 are untouched |
| Dut.ResetAbortedKeeps | XSPdb/cmd/cmd_dut.py:56-59 | a reset stopped by a missing slot has zeroed pc and instr of the slots before it only, and kept the trap record and all later slots |
| Dut.WatchThenUnwatch | XSPdb/cmd/cmd_dut.py:97-115 | watching a resolvable signal and unwatching its last token gives the map without that name |
| Dut.DutCmd.constructor | XSPdb/cmd/cmd_dut.py:9-12 | no interrupt, no hook calls, an empty watch list, and the clock and difftest state after a completed reset (eight commit slots present) |
| Dut.DutCmd.CheckBreak | XSPdb/cmd/cmd_dut.py:23-36 | the check follows the fixed order (disabled clock before the hook, then traps), counts the hook call and any interrupt it sets, and reports a break per Breaks |
| Dut.DutCmd.RunBatches | XSPdb/cmd/cmd_dut.py:42-48 | the batch loop leaves the run Batches predicts: per batch, stop on interrupt, step batch_cycle cycles, run check_break, and stop with interrupt set on a break |
| Dut.DutCmd.StepDut | XSPdb/cmd/cmd_dut.py:14-52 | a zero batch size is an error after the clock was enabled and interrupt cleared, with nothing stepped; otherwise the run equals the batched step specification and the result is clk minus the starting clk |
| Dut.DutCmd.Reset | XSPdb/cmd/cmd_dut.py:54-69 | succeeds iff all eight commit slots are present: then commits and trap fields are reset and the clock steps 100 cycles; otherwise it fails at the first missing slot (the AttributeError), with the slots before it zeroed, the trap record kept and nothing stepped |
| Dut.DutCmd.FlashLoad | XSPdb/cmd/cmd_dut.py:71-81 | the flash holds the image and the asm cache is cleared |
| Dut.DutCmd.Watch | XSPdb/cmd/cmd_dut.py:91-105 | the watch list is updated under the last token when the first token names a signal |
| Dut.DutCmd.Unwatch | XSPdb/cmd/cmd_dut.py:107-117 | found iff the stripped name was watched; only that key is deleted, else nothing changes |
| DiffTest.FirstMissing | XSPdb/cmd/cmd_difftest.py:18-27 | the index of the first missing commit: all before it are present |
| DiffTest.CommitPcList | XSPdb/cmd/cmd_difftest.py:12-27 | (pc, valid) for indices 0, 1, ... in order, stopping at the first missing commit |
| DiffTest.WatchNameParts | XSPdb/cmd/cmd_difftest.py:77 | a condition name is "watch_pc_0x", the lowercase hex address, "_" and the slot digit |
| DiffTest.WatchNameInjective | XSPdb/cmd/cmd_difftest.py:77 | distinct (address, slot) pairs give distinct condition names |
| DiffTest.NamesUpToIs | XSPdb/cmd/cmd_difftest.py:76-78 | the names set so far are exactly those of the slots already processed |
| DiffTest.NamesUpToCard | XSPdb/cmd/cmd_difftest.py:76-78 | after n slots, n distinct names |
| DiffTest.EightNames | XSPdb/cmd/cmd_difftest.py:76-78 | a watch adds exactly eight distinct conditions |
| DiffTest.AllNamesAdd | XSPdb/cmd/cmd_difftest.py:76-80 | watching an address adds exactly its eight names |
| DiffTest.AllNamesRemove | XSPdb/cmd/cmd_difftest.py:110-111 | removing an address's eight names leaves exactly the other addresses' names |
| DiffTest.AllNamesHas | XSPdb/cmd/cmd_difftest.py:104 | the "_0" name is present iff the address is watched |
| DiffTest.AllNamesEmpty | XSPdb/cmd/cmd_difftest.py:112 | no conditions remain iff no address is watched |
| DiffTest.WithChecker | XSPdb/cmd/cmd_difftest.py:64-68 | the checker is created only when missing, and the entries are kept |
| DiffTest.WatchedIffEntry | XSPdb/cmd/cmd_difftest.py:71-80 | in a consistent state, the duplicate test on "_0" agrees with the per-address entry |
| DiffTest.WatchKeepsConsistent | XSPdb/cmd/cmd_difftest.py:47-87 | watch keeps names and entries in step; it succeeds iff the address fits 8 bytes and is new, then adding eight names and one entry |
| DiffTest.UnwatchKeepsConsistent | XSPdb/cmd/cmd_difftest.py:89-116 | the corrected unwatch keeps the state consistent, refuses unwatched addresses, removes the entry, and clears everything when the last address goes |
| DiffTest.WatchThenUnwatchRestores | XSPdb/cmd/cmd_difftest.py:47-116 | watching a new address then unwatching it restores the state (the empty state if it was the only one) |
| DiffTest.WatchIdempotent | XSPdb/cmd/cmd_difftest.py:71-83 | watching the same address twice changes nothing the second time |
| DiffTest.UnwatchAsWrittenLeavesEntry | XSPdb/cmd/cmd_difftest.py:107-111 | the unwatch as written keeps the per-address entry after removing its names, breaking consistency |
| DiffTest.IStepOnceBounded | XSPdb/cmd/cmd_difftest.py:155 | one instruction step advances the clock by at most 10000 cycles |
| DiffTest.IStepBounds | XSPdb/cmd/cmd_difftest.py:154-162 | at most instr_count steps and at most one warning per step; stopping early means a good trap or loop; elapsed time at most 10000 per step |
| DiffTest.IStepRunsAll | XSPdb/cmd/cmd_difftest.py:154-160 | without a good trap or loop at the end, all instr_count steps run |
| DiffTest.WatchNames | XSPdb/cmd/cmd_difftest.py:76-78 | the naming loop produces exactly the eight names of the address |
| DiffTest.RemoveWatchNames | XSPdb/cmd/cmd_difftest.py:110-111 | the removal loop drops exactly the eight names of the address |
| DiffTest.DiffTestCmd.constructor | XSPdb/cmd/cmd_difftest.py:7-10 | no checkers and no watched addresses |
| DiffTest.DiffTestCmd.WatchCommitPc | XSPdb/cmd/cmd_difftest.py:47-87 | "update" only resets; an unparsable argument changes nothing; otherwise the state follows WatchSpec, and a success registers "watch_commit_pc" exactly once |
| DiffTest.DiffTestCmd.UnwatchCommitPc | XSPdb/cmd/cmd_difftest.py:89-116 | an unparsable argument changes nothing; otherwise the state follows the corrected UnwatchSpec, and the last removal unregisters "watch_commit_pc" |
| DiffTest.DiffTestCmd.StepInstruction | XSPdb/cmd/cmd_difftest.py:155 | one instruction step is one api_step_dut(10000), returning the elapsed cycles |
| DiffTest.DiffTestCmd.IStepRun | XSPdb/cmd/cmd_difftest.py:154-162 | the loop's run, step count and warning count equal IStepLoop |
| DiffTest.DiffTestCmd.XIStep | XSPdb/cmd/cmd_difftest.py:118-165 | an unparsable count does nothing (empty means 1); otherwise the loop runs, the checker is created once, and "stepi_check" is not registered at exit while other keys keep their counts |
| Elf.ValueColumnIsNotTitle | XSPdb/cmd/cmd_elf.py:39-40 | no hex address column is mistaken for the "value" title |
| Elf.RowColumnsSplit | XSPdb/cmd/cmd_elf.py:36 | a printed symbol row splits into its eight columns |
| Elf.ClassifyRow | XSPdb/cmd/cmd_elf.py:36-48 | a row in a kept section parses back to its symbol |
| Elf.ClassifyRowColumns | XSPdb/cmd/cmd_elf.py:37-50 | the eight printed columns of a symbol parse back to it when its ndx is kept, and are skipped otherwise |
| Elf.ClassifyRowOtherSection | XSPdb/cmd/cmd_elf.py:49-50 | a row whose ndx is not 1, 2, .text or .data is skipped |
| Elf.KeptSymbolsErr | XSPdb/cmd/cmd_elf.py:41-42 | a malformed number anywhere makes the whole parse fail |
| Elf.ByAddrKeepsAll | XSPdb/cmd/cmd_elf.py:52-55 | the address map holds, for each address, every symbol at it in input order |
| Elf.AtAddrMembers | XSPdb/cmd/cmd_elf.py:52-55 | every symbol listed at an address has that address and came from the input |
| Elf.ByNameLastWins | XSPdb/cmd/cmd_elf.py:51 | the name map has a name iff some symbol has it, and holds the last such symbol |
| Elf.ByNameInByAddr | XSPdb/cmd/cmd_elf.py:51-55 | each name-map entry is listed in the address map under its address |
| Elf.SortSeqSorted | XSPdb/cmd/cmd_elf.py:58 | the sorted address list is strictly increasing and has the same members |
| Elf.KeyOrderKeys | XSPdb/cmd/cmd_elf.py:52-58 | the recorded keys are exactly the address map's keys |
| Elf.TableStep | XSPdb/cmd/cmd_elf.py:51-55 | one more symbol updates the name map last-wins and appends to its address's list |
| Elf.ParseSymbolTable | XSPdb/cmd/cmd_elf.py:32-60 | the parse loop yields the table of the kept symbols, or an error when a row is malformed |
| Elf.ParsedTableValid | XSPdb/cmd/cmd_elf.py:51-60 | every parsed table is valid: sorted distinct addresses equal to the map's keys, names consistent |
| Elf.BisectLeft | XSPdb/cmd/cmd_elf.py:110 | bisect_left: every element before the result is < x and every element from it on is >= x |
| Elf.PredecessorMeans | XSPdb/cmd/cmd_elf.py:110-115 | the index never exceeds the list, so the >= len guard is unreachable; the lookup finds the greatest address strictly below x, or none |
| Elf.BlockChange | XSPdb/cmd/cmd_elf.py:100-128 | the definition of the block-change check on the trace path; stated by the two BlockChange lemmas below |
| Elf.BlockChangeIdempotent | XSPdb/cmd/cmd_elf.py:100-128 | feeding the result back with the same pc returns it unchanged |
| Elf.BlockChangeMeans | XSPdb/cmd/cmd_elf.py:100-128 | last_block_addr is returned for pc < 0, tracing off, non-ELF, no table, no symbol below, or an unchanged block; otherwise the strict predecessor |
| Elf.AddressToSymbolMeans | XSPdb/cmd/cmd_elf.py:165-186 | a result names the symbols at the strict predecessor address, with offset addr - symbol_addr > 0 |
| Elf.SymbolToAddressOfParsed | XSPdb/cmd/cmd_elf.py:188-203 | a name resolves iff some parsed symbol has it, to the address of the last one |
| Elf.SymbolThenAddress | XSPdb/cmd/cmd_elf.py:165-203 | the address of a symbol plus one maps back to that address's symbols at offset 1 |
| Batch.RemoveFirstNoDup | XSPdb/cmd/cmd_batch.py:45 | list.remove keeps the list duplicate-free and removes exactly the named entry |
| Batch.AddThenRemove | XSPdb/cmd/cmd_batch.py:31-47 | adding a new entry and deleting it restores the list |
| Batch.AddedIsIgnored | XSPdb/cmd/cmd_batch.py:18-38 | after adding an entry, every command starting with it is ignored |
| Batch.ClearedIgnoresNothing | XSPdb/cmd/cmd_batch.py:25-29 | after clearing, no command is ignored |
| Batch.FilterLine | XSPdb/cmd/cmd_batch.py:52-66 | the definition of the per-line filter: prefix and suffix handling, then comment removal; its meaning is Batch.FilterLineMeans |
| Batch.TagSafeSlice | XSPdb/cmd/cmd_batch.py:52-60 | every piece of a tag-safe line is tag-safe, so slicing and stripping keep the hypothesis |
| Batch.TagSafePrefix | XSPdb/cmd/cmd_batch.py:58-60 | every prefix of a tag-safe line is tag-safe, as suffix removal keeps a prefix |
| Batch.TagSafeSuffix | XSPdb/cmd/cmd_batch.py:54-56 | every suffix of a tag-safe line is tag-safe, as prefix removal keeps a suffix |
| Batch.TagSafeStrip | XSPdb/cmd/cmd_batch.py:52 | stripping keeps a line tag-safe |
| Batch.CutEscape | XSPdb/cmd/cmd_batch.py:64 | a leading \# becomes the tag in the cut-down text |
| Batch.CutOther | XSPdb/cmd/cmd_batch.py:64 | a leading '#' cuts the rest off; any other leading character is kept |
| Batch.CutIsRec | XSPdb/cmd/cmd_batch.py:63-64 | hiding every \# and then cutting at the first '#' equals one left-to-right pass that emits the tag for \#, stops at '#' and copies anything else |
| Batch.LeadingRun | XSPdb/cmd/cmd_batch.py:64 | the cut-down text is the line's own characters up to its first \# or '#', then (after a \#) the tag and the rest cut down the same way |
| Batch.NoFalseTag | XSPdb/cmd/cmd_batch.py:64 | on a tag-safe line no character of the line's own starts a tag in the cut-down text |
| Batch.TagTrickRec | XSPdb/cmd/cmd_batch.py:63-64 | restoring '#' for the tag in that one-pass cut gives the escape reading of a tag-safe line |
| Batch.TagTrick | XSPdb/cmd/cmd_batch.py:63-64 | replacing \# by a tag, cutting at '#', and restoring gives the unescaped text before the first unescaped '#', on any tag-safe line |
| Batch.TagSafeFirstAbsent | XSPdb/cmd/cmd_batch.py:63 | a tag whose first character does not occur in the line is safe for it |
| Batch.ProgramTag | XSPdb/cmd/cmd_batch.py:63 | the runner's tag "__sharp_tag_" + stamp + "__" is 14 characters longer than the stamp, holds "sharp_tag_" at 2..12, and has no '#' when the stamp has none |
| Batch.ProgramTagBorders | XSPdb/cmd/cmd_batch.py:63 | of the runner's tag, only the parts of length >= len - 2 can end a false tag |
| Batch.ProgramTagSafe | XSPdb/cmd/cmd_batch.py:63-64 | the runner's tag is safe for every line without "sharp_tag_", for any stamp without '_' |
| Batch.TargetedKeepsSafe | XSPdb/cmd/cmd_batch.py:52-60 | prefix and suffix removal keeps a line tag-safe |
| Batch.TargetedSteps | XSPdb/cmd/cmd_batch.py:52-60 | a targeted line carries the prefix, its prefix-stripped text carries the suffix, and the targeted text is suffix removal after prefix removal |
| Batch.PrefixKeepsSafe | XSPdb/cmd/cmd_batch.py:52-56 | stripping the line and its prefix keeps it tag-safe |
| Batch.SuffixKeepsSafe | XSPdb/cmd/cmd_batch.py:57-60 | stripping the suffix keeps a line tag-safe |
| Batch.FilterLineMeans | XSPdb/cmd/cmd_batch.py:52-66 | on a tag-safe line, a line yields a command iff it matches prefix and suffix and its stripped escape reading (\# a literal '#', cut at the first unescaped '#') is non-empty, and that reading is the command |
| Batch.ProgramFilterLineMeans | XSPdb/cmd/cmd_batch.py:52-66 | with the runner's own tag, the same holds for every line not containing "sharp_tag_", underscored commands included |
| Batch.TargetedRoundTrip | XSPdb/cmd/cmd_batch.py:53-60 | prefix + command + suffix is accepted and yields the command |
| Batch.AfterPrefixOf | XSPdb/cmd/cmd_batch.py:54-56 | prefix removal on a trimmed prefix + rest leaves exactly the rest |
| Batch.BeforeSuffixOf | XSPdb/cmd/cmd_batch.py:57-60 | suffix removal on a trimmed command + suffix leaves exactly the command |
| Batch.PlainLinePasses | XSPdb/cmd/cmd_batch.py:52-66 | a stripped, tag-safe line without '#' passes unchanged when no prefix or suffix is set |
| Batch.Dispatch | XSPdb/cmd/cmd_batch.py:51-80 | the definition of the dispatched commands: the filtered, non-ignored commands of the lines in input order; stated by the Dispatch lemmas below |
| Batch.FilterLineStripped | XSPdb/cmd/cmd_batch.py:64-66 | every command produced is non-empty and already stripped |
| Batch.DispatchAppend | XSPdb/cmd/cmd_batch.py:51-80 | dispatching two lists in turn equals dispatching their concatenation, in input order |
| Batch.DispatchBound | XSPdb/cmd/cmd_batch.py:79-80 | at most one command is dispatched per line |
| Batch.DispatchedCommands | XSPdb/cmd/cmd_batch.py:65-69 | every dispatched command is non-empty, stripped and not ignored |
| Batch.DispatchedFromLines | XSPdb/cmd/cmd_batch.py:51-72 | every dispatched command comes from some input line |
| Batch.DispatchComplete | XSPdb/cmd/cmd_batch.py:51-72 | every line that yields a non-ignored command is dispatched |
| Batch.BatchCmd.constructor | XSPdb/cmd/cmd_batch.py:11-16 | the ignore list starts as xload_script, xreplay_log, xui, free of duplicates |
| Batch.BatchCmd.InIgnoreList | XSPdb/cmd/cmd_batch.py:18-23 | true iff some entry is a prefix of the command |
| Batch.BatchCmd.ClearIgnoreList | XSPdb/cmd/cmd_batch.py:25-29 | returns true and empties the list |
| Batch.BatchCmd.AddIgnore | XSPdb/cmd/cmd_batch.py:31-38 | false and unchanged for a duplicate; otherwise appended at the end; the list stays duplicate-free |
| Batch.BatchCmd.DelIgnore | XSPdb/cmd/cmd_batch.py:40-47 | false iff absent; otherwise the entry is removed in order, and is absent afterwards |
| Batch.BatchCmd.ExecBatch | XSPdb/cmd/cmd_batch.py:49-80 | the dispatched commands are Dispatch of the lines, and the count is their number, at most the number of lines |
| Asm.Normalize | XSPdb/cmd/cmd_asm.py:54 | the definition of the separator rewrite; stated by the Normalize lemmas below |
| Asm.NormalizeNoSemicolon | XSPdb/cmd/cmd_asm.py:54 | normalised text contains no ';' |
| Asm.NormalizePlain | XSPdb/cmd/cmd_asm.py:54 | text without ';' or '\' is left unchanged |
| Asm.NormalizeSeparator | XSPdb/cmd/cmd_asm.py:54 | a ';' not followed by '$' becomes a newline and a tab |
| Asm.SourceTextStub | XSPdb/cmd/cmd_asm.py:55-56 | the _start prefix is added iff "__start" does not occur, and the prefix itself has no "__start" |
| Asm.PutLookup | XSPdb/cmd/cmd_asm.py:88 | recording a section makes later lookups of its name return it, and other names unchanged |
| Asm.PutNames | XSPdb/cmd/cmd_asm.py:88 | a new name is appended to the insertion order; an existing one keeps its place |
| Asm.SectionTableLastWins | XSPdb/cmd/cmd_asm.py:81-88 | each section maps to its last recorded line |
| Asm.SectionTableValid | XSPdb/cmd/cmd_asm.py:81-88 | recorded sections have distinct names starting with '.', and non-zero sizes |
| Asm.ParseSectionTable | XSPdb/cmd/cmd_asm.py:80-88 | the parse loop yields SectionTable of the lines |
| Asm.SectionTableErr | XSPdb/cmd/cmd_asm.py:85-86 | a bad hex field aborts the whole parse |
| Asm.XAsmArgs | XSPdb/cmd/cmd_asm.py:122-136 | the definition of the argument split into address and assembly text; stated by the two XAsmArgs lemmas below |
| Asm.XAsmArgsAddress | XSPdb/cmd/cmd_asm.py:129-136 | "<0x" + hex(n) + ">" + asm assembles asm at address n |
| Asm.XAsmArgsBlank | XSPdb/cmd/cmd_asm.py:122-135 | an empty or blank argument gives usage only |
| Asm.InsertedWritten | XSPdb/cmd/cmd_asm.py:150-158 | only non-empty sections whose write is accepted are inserted, and no more bytes are counted than exist |
| Asm.InsertedStops | XSPdb/cmd/cmd_asm.py:156-157 | the first refused write stops the insertion: nothing after it is written |
| Asm.InsertedAll | XSPdb/cmd/cmd_asm.py:150-158 | when every non-empty section is accepted, all bytes are inserted |
| Asm.WriteBlob | XSPdb/cmd/cmd_asm.py:156 | one section write succeeds iff it is accepted; a refused write changes nothing |
| Asm.InsertedAdvance | XSPdb/cmd/cmd_asm.py:150-158 | on section i, an empty section is skipped, a refused one ends the insertion, an accepted one is appended to what is written |
| Asm.InsertBlobs | XSPdb/cmd/cmd_asm.py:150-159 | the count is the bytes of the sections written before the first failure, and memory is those writes applied in order |
| Asm.XAsmInsert | XSPdb/cmd/cmd_asm.py:141-159 | no sections means no change and count 0; otherwise as InsertBlobs |
| Emu.ParseMemSize | emu.py:79-88 | the definition of the memory-size parser; stated by Emu.SizeOf, Emu.ParseMemSizeRoundTrip and Emu.BareNumberRefused |
| Emu.UnitOf | emu.py:82-87 | the unit found is a suffix of the text; none means no GB, MB or KB suffix |
| Emu.SizeOf | emu.py:82-88 | a parsed size is a multiple of 1024; text without a unit is an error |
| Emu.ParseMemSizeRoundTrip | emu.py:79-88 | a decimal count followed by a unit, upper or lower case, parses to count times 2^10, 2^20 or 2^30 |
| Emu.BareNumberRefused | emu.py:88 | a number without a unit raises an error |
| Emu.CheckArgs | emu.py:135-137 | accepted iff 0 <= log_begin <= log_end <= max_cycles, and then unchanged |
| Emu.CommitBudget | emu.py:102-106 | a non-negative count is kept; a negative one becomes 0xFFFFFFFFFFFFFF; the budget is never 0 for a non-zero count |
| Emu.SortEvents | emu.py:176-181 | sorting is a permutation of the events |
| Emu.SortEventsStable | emu.py:176-181 | sorting by cycle is stable: ties keep the listed order |
| Emu.Schedule | emu.py:185-199 | the definition of the event loop's effects; stated by the Schedule lemmas below and tied to the loop by Emu.StepEvents |
| Emu.Arrival | emu.py:185-199 | each event steps the delta to its cycle, is announced, and steps nothing more |
| Emu.ScheduleSteps | emu.py:185-191 | the deltas telescope: total cycles stepped is the final index minus the start, and the index never decreases |
| Emu.FinalIndexIsMax | emu.py:185-191 | the final index is the start or the largest event cycle |
| Emu.ReachedAtItsCycle | emu.py:185-199 | each event is reached exactly at its cycle |
| Emu.ScheduleAnnounces | emu.py:185-191 | for cycle-sorted events, exactly the events not below the start are reached, in order |
| Emu.AcceptedSchedule | emu.py:176-199 | for accepted arguments every event except a negative interact_at is reached, and the run ends at max(interact_at, max_cycles) |
| Emu.ScheduleOfAcceptedArgs | emu.py:141-199 | with an image and no commit count, the run steps max(interact_at, max_cycles) cycles in total |
| Emu.StepEvents | emu.py:185-199 | the loop's trace is Schedule of the events, and pre_cycle_index is the cycles stepped |
| Emu.RunSchedule | emu.py:176-199 | main's stepping path produces MainTrace; interact_at == 0 enters interactive mode first; the final index is the cycles stepped |

## Left out

- Subprocess toolchains (`readelf`, gcc, objdump, objcopy). Their text output comes in as
  parameters, and the assembled sections come in as a list of blobs.
- Temporary files and all file reading, writing and existence checks. Flash loading takes
  the image as a value.
- The simulator and DUT internals (`dut.Step`, `GetInternalSignal`, `InitFlash`,
  `flash_finish`, waveform control). The clock is abstract: `disableAt` and `probeAt` are
  parameters.
- The condition checker's comparator semantics. A checker is its set of condition names.
  Checker creation, `Reset` for "update", `SetMaxCbs` and the data arrays are bookkeeping
  only.
- The pc re-synchronisation in `xistep`. It belongs to the checker's data arrays.
- `api_is_flash_address` and `api_is_hit_trap_break`. They are not part of this model,
  so both are abstract predicates.
- `show_log` messages, `info`/`warn`/`error` logging, colour output and `time.sleep` gaps.
- The `on_update_tstep` hook's effects other than on `self.interrupt`. The hook calls are
  counted, and the cycles at which the hook sets `interrupt` are a parameter.
- Dut.DutCmd.constructor: requires the eight commit slots to be present. With a missing
  slot `__init__` raises from the reset (cmd_dut.py:12) and no object exists, which a
  constructor cannot express. `Dut.DutCmd.Reset` models that failure as its `false` result.
- Dut.DutCmd.StepDut: a negative `batch_cycle` is not modelled (the method requires
  `batchCycle >= 0`). Python's floor division then hands negative counts to `dut.Step`,
  whose behaviour for them belongs to the simulator, which is not part of this model.
  A zero `batch_cycle` is modelled as the error `do_xstep` reports.
- `do_xstep` argument parsing. `api_step_dut` is modelled with its two integers.
- `do_xmem_write`, `do_xmem_read`, `copy_range_to` and `read_range`. These are
  command-line parsing and printing around the modelled operations.
  `do_xmem_write` also tests `arg[1]`, the second character of the raw argument string,
  where it evidently means `args[1]`; that parsing is outside this model.
- The reset pin writes (`AsImmWrite`, `AsRiseWrite`, `reset.value`). Reset is modelled by
  its difftest-state writes and its 100-cycle step.
- `sorted_name` of the symbol table. No modelled lookup reads it.
- `api_is_efl_file`, `api_update_local_elf_symbol_dict` and the trace toggling commands.
  The ELF flag and a reloaded table come in as parameters.
- `api_address_to_symbol` string formatting. A record of the names, address and offset is
  returned instead.
- The per-address entries of `condition_watch_commit_pc` are keyed by the integer address
  rather than by the `"0x%x"` string. Hex printing is injective, so the key sets
  correspond one to one.
- Text: only ASCII is modelled. `strip` and `split` treat as whitespace the characters
  of the ASCII range that Python counts as whitespace, and `upper`/`lower` change ASCII
  letters only. Python's Unicode whitespace and case mappings are left aside.
- MemoryRW.Memory.ReadBytesFrom: reads through the corrected covering read, so it always
  returns exactly `size` bytes. The code as written can return fewer (see "Findings");
  MemoryRW.Memory.MemCopy inherits this and copies the corrected bytes.
- DiffTest.DiffTestCmd.UnwatchCommitPc: follows the corrected unwatch, which deletes the
  per-address entry. The code as written keeps it; no modelled command reads that entry
  again, since re-watching is decided by the checker's condition names.
- Command dispatch. Batch commands are recorded in order, not executed, so the ignore list
  cannot change during a batch. The callback is not modelled.
- Batch.TagTrick: proved for tag-safe lines (`Batch.TagSafe`). For the runner's own tag
  (`Batch.ProgramTag`) this covers every line that does not contain "sharp_tag_"
  (`Batch.ProgramTagSafe`). The time stamp is a parameter without '_' or '#', as a
  printed time has neither. Batch.FilterLineMeans and Batch.PlainLinePasses carry the same
  hypothesis.
- The `_` digit separators Python's `int()` accepts are not modelled.
- `api_asm_str` debug listings and `objcopy` extraction are not modelled.
- The `emu.py` parts that are not modelled:
  - the script, replay, difftest and flash branches of `main`;
  - `create_xspdb` beyond its three asserts;
  - `args_parser` and `import_or_search`;
  - the KeyboardInterrupt step wrapper.
  Waveform, interactive mode and `run_commits` appear as recorded effects.
- `xspdb.py` beyond the memory state its constructor sets up (`MemoryRW.Memory`),
  `cmd_regs.py` and the example script are not part of this model.

## Findings

| source | as written | input that shows it | evidently intended | confidence | as-written member | corrected member |
|---|---|---|---|---|---|---|
| XSPdb/cmd/cmd_mrw.py:109 | `read_count = size//8 + 1` words are gathered from the aligned start, so when address mod 8 + size mod 8 > 8 the slice is shorter than size | address 0x8000_0007, size 2: one word is read and 1 byte is returned | gather enough words to cover start_offset + size, so that exactly size bytes come back | not executed | MemoryRW.ReadBytesWithFunc | MemoryRW.ReadBytesCovering |
| XSPdb/cmd/cmd_difftest.py:107-109 | the per-address entry is only looked up (a bare expression), never deleted | watch a and b (a != b), then unwatch a: the entry for a stays while its conditions are gone | delete the per-address entry | not executed | DiffTest.UnwatchAsWrittenLeavesEntry | DiffTest.UnwatchKeepsConsistent |

The rest of the model uses the corrected definitions. `MemoryRW.Memory.ReadBytesFrom`
reads through `MemoryRW.ReadBytesCovering`. `DiffTest.DiffTestCmd.UnwatchCommitPc`
follows the unwatch that deletes the per-address entry.
