# Verification model of the AArch64 emulator core

This project models four parts of the emulator core in Dafny and proves what they promise:

- the **halt-check pass** over the SSA control-flow graph and the block ordering that follows it;
- **address translation**: page table, translation cache, and the inline path of compiled code;
- **guest memory access**: unaligned and page-crossing scalars, bulk copies;
- the **concurrent protocols** around them: dirty pages, sharded address locks, the object queue, the exclusive monitor.

`dafny verify dfyconfig.toml` checks everything.

## How the files fit together

| file | what it holds |
|---|---|
| `Graphs`, `Tarjan`, `SccGraph` | graphs and walks, Tarjan's algorithm, the safepoint-free-cycle check, Kahn's ordering |
| `ExecIr` | blocks, statements, terminators, and the builder that splits blocks in place |
| `Traces`, `PassInvariant` | safepoint traces, countdown states, and what the pass knows between components |
| `BlockSplitting`, `HaltStateMap`, `HaltCheckInserter` | how rewritten blocks relate to original ones, pending edge states, the owner of the rewriting |
| `HaltStates`, `HaltStateMerge`, `BlockProcessing`, `HaltComponents`, `HaltCheckPass`, `Build` | the pass itself, bottom up |
| `HaltPlacement` | where exactly the checks end up |
| `OutputPaths`, `SplitSemantics`, `HaltLatency`, `DefinedValues` | what the rewritten program guarantees: its walks, its runs, how soon it notices a halt, that it reads no undefined value |
| `TopoSort` | the compile order |
| `ArenaSet` | the growable bit set, and exactly when an insertion fails |
| `Paging`, `PageTables`, `Tlb`, `InlineAccess` | page numbers and flags, the page table, the cache, compiled accesses |
| `Bytes`, `UnalignedAccess`, `ScalarAccess`, `BulkAccess`, `Arithmetic` | little-endian memory, scalar and bulk accesses, flags and division |
| `DirtyFlush`, `ShardLocks`, `ObjectQueue`, `ObjectManager`, `ExclusiveMonitor` | the protocols, as systems of atomic steps under sequential consistency |

### The halt-check pass

An original program and its rewriting are related by `BlockSplitting.Refines`: every current block is a piece of an
original block (statements from some offset on) or the shared exit block.  The safepoints of an original walk therefore
never change; the pass only makes more of them *checked*.  A pending state covers a walk when its countdown accounts for
all safepoints since the last checked one and its suffix agrees with the walk's latest safepoints.  `PassInvariant`
carries this over components in topological order; `HaltStateMerge` shows that compensating checks in earlier blocks and
lazy correction preserve it.  `InsertHaltChecks` returns false exactly where the source panics on a safepoint-free
cycle; with no overflow reported either, the source returns, which is so exactly for programs of at most 64 blocks.

The other direction, where checks must not be, is `HaltPlacement`: `InsertHaltChecks` hands out the run of the pass,
component by component, and from it follows that in a forest exactly every `N`-th safepoint is checked.

`HaltState` is a value here, as it is cloned in the source.  Hash sets, hash maps and arena sets are sets and maps, and
loops over them visit the elements in an arbitrary order.

### Where the code and its documentation differ

- The overview at the top of `halt_check_pass.rs` says that after `N` safepoints the *next* one must be followed by a
  check.  The code is stricter and agrees with the documentation of `IrBuilderConfig`: any `N` consecutive safepoints
  include a checked one.  The model proves the stricter bound (`OutputPaths.HaltBounded`).
- `ArenaSet::insert` passes a number of words to `reserve`, which expects a number of bits.  A set made with `new` panics
  for every handle from 64 on (`ArenaSets.InsertKeepsRoom`); a set made with a capacity accepts every handle below it
  (`ArenaSets.CapacityIsEnough`).  All sets of the pass are made without capacity, so the pass returns exactly when all
  cycles have safepoints and there are at most 64 blocks (`NewSccGraph`, `InsertHaltChecks`, `Build`).  The members of
  the sets are modelled as sets; their storage is tracked beside them, and `overflow` says whether the source panics.
- A copy-on-write page that is mapped writable resolves to flags that allow writing: the mask on the write permission
  is undone by or-ing the protections back in (`PageTables.ResolvedFlags`).
- An exclusive store checks only its own bucket and the loaded value.  Plain stores that leave the loaded value go
  unnoticed; memory stayed unchanged exactly when they only ever wrote that value (`UnchangedIff`).  A store to another
  address than the reserved one can pass; `SucceedsByHistoryIff` says exactly when, for any two addresses.
  `PlainStoresGoUnnoticed` and `OtherAddressCanPass` are the witnesses.

## Model

| member | source | states |
|---|---|---|
| `TarjanScc.Tarjan.Run` | jit-compiler-core/src/ir/halt_check_pass.rs:667-680 | For any allowed set: the components are the strongly connected components of the allowed subgraph, each block in exactly one, and every allowed successor of a component lies in it or an earlier one; the stack set overflows exactly when an allowed block has a handle of 64 or more. |
| `TarjanScc.Tarjan.StrongConnect` | jit-compiler-core/src/ir/halt_check_pass.rs:610-665 | Visiting a block numbers everything it reaches that was new, keeps older numbers and stack entries, and leaves either nothing of it on the stack or a low link that witnesses a way back. |
| `TarjanScc.RootSegmentIsScc` | jit-compiler-core/src/ir/halt_check_pass.rs:648-664 | When low link and index agree, the stack from the block up is a whole strongly connected component. |
| `SccGraphs.CyclicIsExact` | jit-compiler-core/src/ir/halt_check_pass.rs:703-718 | A component is reported cyclic exactly when some cycle starts in it. |
| `SccGraphs.AssertCyclesHaveSafepoints` | jit-compiler-core/src/ir/halt_check_pass.rs:737-751 | Its answer is yes exactly when every directed cycle contains a block with a safepoint, and it overflows exactly when a safepoint-free block has a handle of 64 or more; the source panics in either failing case. |
| `SccGraphs.CollectFreeBlocks` | jit-compiler-core/src/ir/halt_check_pass.rs:737-742 | Collects exactly the blocks without a safepoint, and overflows exactly when one of them has a handle of 64 or more. |
| `SccGraphs.CondensationEdges` | jit-compiler-core/src/ir/halt_check_pass.rs:775-790 | Edge sets are exactly the cross-component edges, indegrees count distinct predecessor components, and an edge set overflows exactly when it leads to a component numbered 64 or more. |
| `SccGraphs.TopologicalOrder` | jit-compiler-core/src/ir/halt_check_pass.rs:792-813 | Every component is listed once, after all its predecessors; the length assertion cannot fail. |
| `SccGraphs.NewSccGraph` | jit-compiler-core/src/ir/halt_check_pass.rs:760-826 | The source returns exactly when cycles have safepoints and there are at most 64 blocks; then components, their numbering, an order with all cross edges forward, and the cyclic ones are right. |
| `SccGraphs.NumbersFit` | jit-compiler-core/src/ir/halt_check_pass.rs:775-819 | There are no more components than blocks, so with at most 64 blocks neither the edge sets nor the cyclic set overflow. |
| `SccGraphs.CollectCyclic` | jit-compiler-core/src/ir/halt_check_pass.rs:815-819 | Collects exactly the cyclic components, and overflows exactly when one is numbered 64 or more. |
| `SccGraphs.SameComponentIsMutual` | jit-compiler-core/src/ir/halt_check_pass.rs:764-773 | Two blocks share a component exactly when each reaches the other. |
| `ExecIr.ExecIrBuilder.WithConfig` | jit-compiler-core/src/ir/mod.rs:1058-1070 | A new builder holds the entry block with its argument values and nothing else. |
| `ExecIr.ExecIrBuilder.EmitStmtFull` | jit-compiler-core/src/ir/mod.rs:1277-1293 | Appends one fresh statement of the given kind, with the given operands and fresh output values, to the current block and changes nothing else. |
| `ExecIr.ExecIrBuilder.TerminateBlock` | jit-compiler-core/src/ir/mod.rs:1123-1151 | Sets the terminator, turning a conditional branch with two equal jumps into an unconditional one. |
| `ExecIr.ExecIrBuilder.GetLeaveAndTakeHalt` | jit-compiler-core/src/ir/mod.rs:2083-2099 | Creates the exit block once and returns the same one ever after, leaving the current block alone. |
| `ExecIr.ExecIrBuilder.InsertHaltCheckAt` | jit-compiler-core/src/ir/mod.rs:2128-2179 | Cuts the block at the position, loads the halt word, branches to the rest or to the exit block; every other block stays. |
| `HaltStateMaps.HaltStateMap.AddEdge` | jit-compiler-core/src/ir/halt_check_pass.rs:108-121 | Stores one state, returns the previous one, keeps both indexes inverse and all other edges. |
| `HaltStateMaps.HaltStateMap.DrainIncoming` | jit-compiler-core/src/ir/halt_check_pass.rs:123-175 | Hands out each state waiting on an edge into the block once and removes exactly those edges. |
| `HaltStateMaps.HaltStateMap.MoveSource` | jit-compiler-core/src/ir/halt_check_pass.rs:245-266 | Moves all edges of a split block to its continuation; the two indexes stay inverse. |
| `BlockSplitting.SplitRefines` | jit-compiler-core/src/ir/mod.rs:2128-2179 | Splitting any piece after an unchecked safepoint keeps the correspondence of all pieces with the original blocks. |
| `BlockSplitting.SplitChecks` | jit-compiler-core/src/ir/mod.rs:2128-2179 | Exactly one more safepoint becomes checked. |
| `BlockSplitting.SplitTerminates` | jit-compiler-core/src/ir/mod.rs:2128-2179 | The head and the exit block are terminated, and the continuation is if the block was. |
| `HaltCheckInserters.LocateSafepoint` | jit-compiler-core/src/ir/halt_check_pass.rs:270-281 | The recorded position of a safepoint without a check is one where a check can be inserted. |
| `HaltCheckInserters.SplitSizeOk` | jit-compiler-core/src/ir/mod.rs:2128-2179 | Each check adds exactly one block, one statement and one value, the exit block one more of each with the first check, and without a check nothing changes. |
| `HaltCheckInserters.HaltCheckInserter.constructor` | jit-compiler-core/src/ir/halt_check_pass.rs:194-217 | Records the position of every safepoint; no safepoint is found twice. |
| `HaltCheckInserters.HaltCheckInserter.InsertHaltCheckAfterSafepointIndexed` | jit-compiler-core/src/ir/halt_check_pass.rs:223-268 | Splits the block, moves the recorded positions and pending edges to the continuation, and checks exactly that safepoint; none of the assertions can fail. |
| `HaltCheckInserters.HaltCheckInserter.InsertCompensatingHaltCheckAfterSafepoint` | jit-compiler-core/src/ir/halt_check_pass.rs:270-281 | Checks the safepoint wherever it sits now, records the reset, and changes the last piece of no block but its own. |
| `Traces.CanonicalOk` | jit-compiler-core/src/ir/halt_check_pass.rs:403-447 | Correction never lowers the countdown, raises it when it finds a reset, keeps completeness, and leaves a suffix free of resets. |
| `Traces.CanonicalWeakens` | jit-compiler-core/src/ir/halt_check_pass.rs:403-447 | Every walk a state covers is covered by the corrected state. |
| `Traces.RunDownCovers` | jit-compiler-core/src/ir/halt_check_pass.rs:361-384 | Counting down over any list of safepoints keeps covering the walk and never lets N unchecked ones through. |
| `Traces.RunDownSuffix` | jit-compiler-core/src/ir/halt_check_pass.rs:361-384 | A state that knows all safepoints since the last check goes on knowing them, in order, however many it counts. |
| `Traces.BoundedWindow` | jit-compiler-core/src/ir/mod.rs:1033-1039 | In a bounded trace any N consecutive safepoints include a checked one. |
| `HaltStates.CanonicalizeAgainstResets` | jit-compiler-core/src/ir/halt_check_pass.rs:403-447 | Computes the corrected state in one pass; the length assertions hold. |
| `HaltStates.InsertionPointExists` | jit-compiler-core/src/ir/halt_check_pass.rs:449-469 | For any state the length test is implied, so an insertion point exists exactly when the countdown is low and the suffix complete. |
| `HaltStates.CompensationReachesTarget` | jit-compiler-core/src/ir/halt_check_pass.rs:471-515 | A check at the chosen safepoint raises the corrected countdown to the target, and to exactly the target unless that safepoint occurs again later in the suffix. |
| `HaltStates.BlockHalter.ProcessSafepoint` | jit-compiler-core/src/ir/halt_check_pass.rs:337-384 | One safepoint: a cyclic halter always checks, an acyclic one counts down and checks at zero. |
| `HaltStates.BlockHalter.TakeCurrentState` | jit-compiler-core/src/ir/halt_check_pass.rs:342-388 | The state at the end of a block; a cyclic halter starts over. |
| `HaltStates.ACyclicRun` | jit-compiler-core/src/ir/halt_check_pass.rs:361-388 | An acyclic halter is the plain countdown over the safepoints. |
| `HaltStates.CyclicRun` | jit-compiler-core/src/ir/halt_check_pass.rs:337-350 | A cyclic halter checks every safepoint and summarises a block by whether it had one. |
| `HaltStateMerge.InsertCompensatingCheck` | jit-compiler-core/src/ir/halt_check_pass.rs:495-515 | Brings a corrected state up to the target without invalidating any other state. |
| `HaltStateMerge.Normalize` | jit-compiler-core/src/ir/halt_check_pass.rs:550-565 | Brings every incoming state up to the largest countdown with exactly one check per state that still needs one after the earlier checks, whatever checks they share. |
| `HaltStateMerge.MergeHaltStates` | jit-compiler-core/src/ir/halt_check_pass.rs:517-580 | The merged state covers every walk any incoming state covers; it is the fresh, the single, the highest or the lowest state by the source's rule, and the compensating checks are exactly those of that rule. |
| `BlockProcessing.ProcessBlock` | jit-compiler-core/src/ir/halt_check_pass.rs:289-319 | Splits the block after exactly the safepoints the halter picks, and returns its last piece and final state. |
| `HaltComponents.NextComponent` | jit-compiler-core/src/ir/halt_check_pass.rs:843-865 | When a component is due, all predecessors are done and an acyclic component is one block without a self-loop. |
| `HaltComponents.Propagate` | jit-compiler-core/src/ir/halt_check_pass.rs:871-884 | Stores the final state on exactly the edges that leave the component; no edge had a state before. |
| `HaltComponents.ComponentDone` | jit-compiler-core/src/ir/halt_check_pass.rs:843-886 | Processing a component carries the bound on all walks and the coverage of all pending edges forward. |
| `HaltComponents.UnsplitUnchecked` | jit-compiler-core/src/ir/halt_check_pass.rs:870-872 | A block that was not split has no checked safepoint, so compensating checks never land in blocks still to come. |
| `HaltComponents.StatesDone` | jit-compiler-core/src/ir/halt_check_pass.rs:843-886 | Every pending state keeps a suffix of recorded safepoints whose checks are all known resets. |
| `HaltComponents.MergeIncoming` | jit-compiler-core/src/ir/halt_check_pass.rs:846-857 | The state a component is entered with is what the merge rule makes of the states on its incoming edges, one per edge, and the only new checks are the compensating ones of that rule. |
| `HaltComponents.ProcessComponent` | jit-compiler-core/src/ir/halt_check_pass.rs:843-886 | One round of the main loop merges the states on the edges into the component by the merge rule, gives its blocks exactly the checks that the halter of their kind asks for, and keeps the invariant of the pass. |
| `HaltCheckPass.InsertHaltChecks` | jit-compiler-core/src/ir/halt_check_pass.rs:834-886 | The source returns exactly for programs of at most 64 blocks whose cycles all have safepoints. Every N consecutive safepoints of every walk then include a checked one, for the configured N; the components were processed one by one by the merge and countdown rules; and where control flow is a forest exactly every N-th safepoint is checked, so that a program without N safepoints in a row is returned unchanged. |
| `HaltPlacement.ForestPlacement` | jit-compiler-core/src/ir/halt_check_pass.rs:834-886 | In a forest a safepoint is checked exactly when its number on the walk from its root is a multiple of N, and nothing else is checked. |
| `HaltPlacement.ShortForestIsLeftAlone` | jit-compiler-core/src/ir/halt_check_pass.rs:834-886 | A forest where no walk has N safepoints is returned unchanged, without even an exit block. |
| `HaltPlacement.CycleIsChecked` | jit-compiler-core/src/ir/halt_check_pass.rs:322-351 | In any program every safepoint of every block on a cycle is checked. |
| `HaltPlacement.RunChecksAt` | jit-compiler-core/src/ir/halt_check_pass.rs:361-384 | Along a block the first check comes where the countdown runs out, and the next ones N safepoints apart. |
| `Builds.Build` | jit-compiler-core/src/ir/mod.rs:2747-2759 | The source returns exactly for programs of at most 64 blocks whose cycles all have safepoints; the finished program is halt-bounded, has checks after exactly every N-th safepoint where control flow is a forest, keeps definitions before uses, touches the halt word only in checks, and comes with its compile order. |
| `PassInvariant.AdvanceInv` | jit-compiler-core/src/ir/halt_check_pass.rs:843-886 | Covered exits of one component re-establish the invariant for all walks. |
| `PassInvariant.AcyclicCovered` | jit-compiler-core/src/ir/halt_check_pass.rs:353-388 | The countdown through a single block covers every walk that ends in it. |
| `PassInvariant.CyclicCovered` | jit-compiler-core/src/ir/halt_check_pass.rs:322-351 | With every safepoint of a cyclic component checked, the coarse exit summary covers every walk, however often it goes round. |
| `OutputPaths.Project` | jit-compiler-core/src/ir/mod.rs:2128-2179 | Every walk of the rewritten graph outside the exit block follows an original walk, meets a stretch of its safepoints, and has all its definitions. |
| `OutputPaths.OutputIsHaltBounded` | jit-compiler-core/src/ir/halt_check_pass.rs:834-886 | On every walk of the output any N consecutive safepoints include one immediately followed by a load of the halt word and a branch to the exit block. |
| `OutputPaths.DefsStillReachUses` | jit-compiler-core/src/ir/mod.rs:2128-2179 | If every use is preceded by its definition on every walk before the pass, it is so afterwards. |
| `DefinedValues.NeverStuck` | jit-compiler-core/src/ir/mod.rs:2128-2179 | A program whose definitions reach their uses never reads an undefined value, on any machine. |
| `DefinedValues.RewrittenNeverStuck` | jit-compiler-core/src/ir/mod.rs:2128-2179 | Neither does its rewriting, whatever the halt word holds. |
| `SplitSemantics.StepFollows` | jit-compiler-core/src/ir/mod.rs:2083-2179 | Every step of the rewritten program is one step or none of the original. |
| `SplitSemantics.NormalKeepsMeaning` | jit-compiler-core/src/ir/mod.rs:1123-1151 | Turning a conditional branch with two equal jumps into an unconditional one does not change what the terminator does. |
| `SplitSemantics.EnterBinds` | jit-compiler-core/src/ir/mod.rs:843-870 | A jump hands its arguments to the parameters of the target, which starts at its first statement. |
| `SplitSemantics.FinishedRun` | jit-compiler-core/src/ir/mod.rs:2083-2179 | For any statement meaning and halt-word schedule, a finished run equals the original run or is cut right after a safepoint, with the same machine state, returning the taken halt word. |
| `SplitSemantics.AllCaughtUp` | jit-compiler-core/src/ir/mod.rs:2083-2179 | Without halt requests every point of the original run is reached within three times as many steps. |
| `SplitSemantics.SameResultsWithoutHalt` | jit-compiler-core/src/ir/mod.rs:2083-2179 | Without halt requests both programs return the same results. |
| `SplitSemantics.TwinRunsExist` | jit-compiler-core/src/ir/mod.rs:2083-2179 | Every machine, statement meaning and halt-word schedule gives a pair of runs to which these results apply. |
| `HaltLatency.HaltWordLoaded` | jit-compiler-core/src/ir/mod.rs:1033-1039 | A run that passes N more safepoints and moves on has loaded the halt word in between. |
| `HaltLatency.HaltNoticed` | jit-compiler-core/src/ir/mod.rs:1033-1039 | Once the halt word is set, at most N more safepoints are passed before the program is on its way out. |
| `HaltLatency.RewrittenAccesses` | jit-compiler-core/src/ir/mod.rs:2083-2179 | The rewritten program touches the halt word only in inserted checks and the exit block. |
| `CompileOrders.Sort` | jit-compiler-core/src/ir/mod.rs:2700-2742 | The order holds exactly the reachable blocks, once each, entry first; backward edges close cycles and every other block has an earlier predecessor; the set of seen blocks never overflows, however many blocks there are. |
| `CompileOrders.DominatorsFirst` | jit-compiler-core/src/ir/mod.rs:2700-2742 | A dominator comes no later than the blocks it dominates. |
| `CompileOrders.OrderedEdge` | jit-compiler-core/src/ir/mod.rs:2700-2742 | An edge goes forward in the order or closes a cycle. |
| `ArenaSets.ArenaSet.Insert` | jit-compiler-core/src/arena.rs:355-363 | Inserts the handle, or panics exactly when the word index lies past what was reserved. |
| `ArenaSets.FreshSetTakesOneWord` | jit-compiler-core/src/arena.rs:331-346 | A set made without capacity accepts exactly the handles below 64. |
| `ArenaSets.InsertKeepsRoom` | jit-compiler-core/src/arena.rs:331-363 | Whatever is inserted in whatever order, a set made without capacity has overflowed exactly when a handle of 64 or more was among it. |
| `ArenaSets.CapacityIsEnough` | jit-compiler-core/src/arena.rs:331-363 | A set made for a number of handles takes all of them and never grows. |
| `ArenaSets.InsertSucceedsIff` | jit-compiler-core/src/arena.rs:331-363 | An insertion succeeds exactly when its word exists already or it is the first word. |
| `PageTables.ResolvedFlags` | io-mmu/src/page_table.rs:447-478 | A resolved page allows exactly the entry's protections, copy-on-write or not. |
| `PageTables.ResolvedPlace` | io-mmu/src/page_table.rs:447-478 | A resolved page has the frame and the dirty flags of its own host page, whatever the source; it fails to resolve exactly for an object slot not yet faulted in. |
| `PageTables.MappedPages` | io-mmu/src/page_table.rs:710-763 | After mapping, every page of the range resolves to what was passed in for it, and every other page as before. |
| `PageTables.UnmappedPages` | io-mmu/src/page_table.rs:777-783 | After unmapping, the pages of the range do not resolve, and every other page does as before. |
| `PageTables.ProtectedPages` | io-mmu/src/page_table.rs:785-804 | A change of protections changes only the protections, and only of the pages of the range. |
| `PageTables.UnCowedPages` | io-mmu/src/page_table.rs:648-666 | Exactly the copy-on-write pages move to their copies, keeping their protections; no other page changes. |
| `PageTables.GetPagesIsExact` | io-mmu/src/lib.rs:57-76 | Accepts exactly whole-page ranges up to and including the end of the address space, names exactly their pages, and otherwise reports the base or the last address. |
| `PageTables.PageTable.Map` | io-mmu/src/page_table.rs:710-763 | Maps all pages of the range or none, reporting the lowest one already mapped. |
| `PageTables.PageTable.Unmap` | io-mmu/src/page_table.rs:777-783 | Removes exactly the mapped pages of the range and reports whether there were any. |
| `PageTables.PageTable.Protect` | io-mmu/src/page_table.rs:785-804 | Sets the protections of all pages or of none, reporting the lowest one not mapped, and whether one changed. |
| `PageTables.PageTable.UnCowAll` | io-mmu/src/page_table.rs:648-666 | Gives every copy-on-write page its own copy and reports whether there was one. |
| `PageTables.IoMMU.Map` | io-mmu/src/lib.rs:180-198 | Succeeds exactly when the range is well formed and none of its pages is mapped, reports the range error or the lowest mapped page otherwise, and changes the identifier whenever it maps anything; a fault changes nothing. |
| `PageTables.IoMMU.Unmap` | io-mmu/src/lib.rs:347-364 | Succeeds exactly when the range is well formed, removes its pages, and takes a new identifier exactly when one of them was mapped. |
| `PageTables.IoMMU.Protect` | io-mmu/src/lib.rs:373-394 | Succeeds exactly when the range is well formed and all its pages are mapped, reports the range error or the lowest page not mapped otherwise, and takes a new identifier exactly when a protection changed. |
| `PageTables.IoMMU.CopyAllCowPages` | io-mmu/src/lib.rs:1315-1326 | Leaves no copy-on-write page and keeps the identifier only if there was none. |
| `TlbCoherence.Tlb.Lookup` | emu-abi/src/memory.rs:690-713 | Answers from a matching entry or from the page table, and replaces the entry only on a miss that resolves. |
| `TlbCoherence.LookupFills` | emu-abi/src/memory.rs:690-713 | A page that resolved is answered from the cache the next time, whatever the table says, and no other slot was touched. |
| `TlbCoherence.LookupIsExact` | io-mmu/src/lookup_cache.rs:64-80 | In a coherent world a lookup answers exactly what the page table answers. |
| `TlbCoherence.StepKeepsCoherent` | io-mmu/src/lib.rs:129-165 | Every operation of any address space or cache keeps all caches coherent, with identifiers the allocator may reuse once nothing refers to them. |
| `TlbCoherence.RunsAreCoherent` | emu-abi/src/memory.rs:350-400 | Over every sequence of operations every lookup returns what the table returns at that moment. |
| `TlbCoherence.UnheldReferenceGoesStale` | emu-abi/src/memory.rs:605-632 | Without the reference an entry holds, a lookup can return a page the table no longer has. |
| `TlbCoherence.ReusedIdentifier` | emu-abi/src/memory.rs:605-632 | Giving an address space an identifier is safe exactly when every entry held under it agrees with the new table. |
| `InlineAccess.ShiftCanOnlyMiss` | jit-compiler-core/src/ir/mod.rs:2328-2369 | The sign-extended page number selects the right entry and equals a stored page number only when it is the right one. |
| `InlineAccess.HostAccess` | jit-compiler-core/src/ir/ffi_support.rs:17-59 | The host call returns or stores the bytes of virtual memory, or records the fault and traps. |
| `InlineAccess.VmAccess` | jit-compiler-core/src/ir/mod.rs:2316-2539 | The compiled access means the same for every address, width, permission set and trusted cache. |
| `InlineAccess.MeaningIsUnique` | jit-compiler-core/src/ir/mod.rs:2253-2310 | The meaning fixes value, bytes, dirty cells, trap and recorded fault, so both paths agree in all of them. |
| `InlineAccess.MeaningNeeds` | jit-compiler-core/src/ir/mod.rs:2253-2310 | A load goes through exactly when all its bytes may be read, and a store exactly when they may all be written. |
| `InlineAccess.MappedByte` | io-mmu/src/page_table.rs:447-478 | A byte of a mapped page may be read, written and executed exactly as the page is protected, and lies at its offset in the backing page. |
| `InlineAccess.CoherentIsTrusted` | io-mmu/src/lookup_cache.rs:64-80 | In a coherent world every cache may be trusted by the inline path for every address space. |
| `InlineAccess.RunsAreTrusted` | io-mmu/src/lookup_cache.rs:64-80 | After any sequence of operations compiled code may trust any cache for any address space. |
| `UnalignedAccess.PartsFit` | io-mmu/src/memops.rs:774-935 | For every remainder the listed parts add up to the width and are naturally aligned. |
| `UnalignedAccess.PartsAreWidest` | io-mmu/src/memops.rs:774-935 | Every part is the widest access that its alignment and the bytes left allow, so no fewer accesses would do. |
| `UnalignedAccess.CombineIsLoad` | io-mmu/src/memops.rs:553-599 | Shifting and or-ing the parts of any decomposition gives the little-endian number. |
| `UnalignedAccess.Ram.StoreParts` | io-mmu/src/memops.rs:601-657 | Storing the shifted parts of any decomposition writes the little-endian bytes of the value. |
| `UnalignedAccess.SplitThenCombine` | io-mmu/src/memops.rs:553-657 | Splitting and combining over any list of widths are inverse. |
| `ScalarAccess.FaultIsExact` | io-mmu/src/lib.rs:890-928 | A scalar access goes through exactly when every byte is mapped, allowed and below the end of the address space. |
| `ScalarAccess.FaultAddress` | io-mmu/src/lib.rs:968-1003 | The reported address is the base of an unmapped page, the last address of all when the access wraps around, or the first address that is not allowed; both pages are looked up before permissions count. |
| `ScalarAccess.DirtiedIff` | io-mmu/src/lib.rs:1112-1194 | The cells dirtied are exactly those of touched pages that are executable or backed by a shared object. |
| `ScalarAccess.CrossingLoadIsLoad` | io-mmu/src/lib.rs:975-1092 | Two aligned words shifted and or-ed are the bytes on both sides of the page boundary. |
| `ScalarAccess.LoadScalar` | io-mmu/src/lib.rs:956-1098 | A load returns the byte-wise little-endian number or the fault. |
| `ScalarAccess.StoreCrossing` | io-mmu/src/lib.rs:1133-1190 | The byte loops from the last byte down write both parts of the value. |
| `ScalarAccess.StoreScalar` | io-mmu/src/lib.rs:1112-1194 | A store equals the byte-wise ascending store and dirties the touched pages that need it; a fault changes nothing. |
| `ScalarAccess.VStoreFrame` | io-mmu/src/lib.rs:1112-1194 | No byte outside the range changes. |
| `ScalarAccess.VStoreThenVLoad` | io-mmu/src/lib.rs:956-1194 | Loading a stored value gives it back, even when two pages share a frame. |
| `BulkAccess.BulkByteChunkCopy` | io-mmu/src/memops.rs:1011-1045 | Copies exactly the bytes asked for, in either direction, each guest byte accessed once, every chunk aligned, and at most seven single bytes at either end. |
| `BulkAccess.Verify` | io-mmu/src/lookup_cache.rs:128-131 | Passes exactly when every page allows the access; otherwise reports the highest one that does not. |
| `BulkAccess.PagesOkIsBytesOk` | io-mmu/src/lib.rs:456-494 | The pages of the access allow it exactly when the page of every byte does. |
| `BulkAccess.MemAccess` | io-mmu/src/lib.rs:435-530 | A bulk access is all or nothing and equals the ascending byte-wise access, for every range up to the end of the address space and for aliased frames. |
| `BulkAccess.StoreBulk` | io-mmu/src/lib.rs:632-658 | A bulk store goes through exactly when it is empty or every byte is mapped, permitted, below the end of the address space and in no copy-on-write page; then it equals the byte-wise store and dirties the touched pages, otherwise it changes nothing and reports the highest failing page. |
| `BulkAccess.LoadBulk` | io-mmu/src/lib.rs:532-564 | A bulk load goes through exactly when it is empty or every byte is mapped, permitted and below the end of the address space, copy-on-write or not; it then returns the bytes, and otherwise leaves the buffer alone and reports the highest failing page. |
| `Arithmetic.AddsIsAddWithCarry` | jit-compiler-core/src/ir/mod.rs:1919-1946 | Value and flags are those of AddWithCarry without carry-in. |
| `Arithmetic.SubsIsAddWithCarry` | jit-compiler-core/src/ir/mod.rs:1919-1946 | Value and flags are those of AddWithCarry of the complement with carry-in. |
| `Arithmetic.SetNzcvIsExact` | jit-compiler-core/src/ir/mod.rs:1888-1911 | The four flags go to bits 31 to 28, from N down to V, whatever was there before. |
| `Arithmetic.SetNzcvKeepsRest` | jit-compiler-core/src/ir/mod.rs:1888-1911 | The low 28 bits are kept. |
| `Arithmetic.SIntIsExact` | jit-compiler-core/src/ir/mod.rs:1919-1946 | The signed value of a word lies in the signed range and is congruent to the word. |
| `Arithmetic.UDivIsArm` | jit-compiler-core/src/ir/mod.rs:1973-1998 | The rounded-down quotient, and zero for a zero divisor. |
| `Arithmetic.SDivIsArm` | jit-compiler-core/src/ir/mod.rs:2005-2041 | The quotient rounded toward zero, zero for a zero divisor, and the minimum for the one quotient that does not fit. |
| `Arithmetic.RoundTowardsZeroIsExact` | jit-compiler-core/src/ir/mod.rs:2000-2005 | The remainder is smaller than the divisor and has the sign of the dividend. |
| `DirtyFlush.NoLostInvalidation` | io-mmu/src/page_table.rs:480-570 | A flush called after the dirty bit was set returns only after an invalidation that began later has completed, despite other flushers and panics. |
| `DirtyFlush.FlushMeansInvalidated` | io-mmu/src/page_table.rs:480-570 | In terms of events: when a flush begun after a setting of the bit has returned, some thread started an invalidation after that setting and completed it since, without panicking in between. |
| `DirtyFlush.CleanIsCovered` | io-mmu/src/page_table.rs:507-511 | A page whose bits are both clear has nothing left to invalidate. |
| `DirtyFlush.FlagChecksHold` | io-mmu/src/page_table.rs:512-568 | The consistency checks on the flag word cannot fail. |
| `DirtyFlush.GateHolderMoves` | io-mmu/src/page_table.rs:493-570 | The flusher behind the gate can always take its next step. |
| `ShardLocks.ScalarPlanOk` | io-mmu/src/memops.rs:176-237 | A scalar access locks exactly the shards of its lines, each once, smaller index first. |
| `ShardLocks.BulkPlanOk` | io-mmu/src/memops.rs:376-420 | A bulk copy locks exactly the shards of its lines in ascending order, saturated and wrapped ranges included. |
| `ShardLocks.NoDataRace` | io-mmu/src/memops.rs:239-256 | Two accesses under way that share a byte both read. |
| `ShardLocks.NoDeadlock` | io-mmu/src/memops.rs:119-174 | For any number of threads and accesses, in every reachable state some unfinished thread can move, even though parked writers hold back readers. |
| `ShardLocks.EverybodyFinishes` | io-mmu/src/memops.rs:119-174 | All accesses of all threads are done after exactly as many moves as their plans have steps: no thread can move for ever, and no access is skipped. |
| `ObjectQueue.IndexIsExact` | io-mmu/src/cpu_fabric/object_manager.rs:106-119 | The index finds exactly the queued slots, at their absolute positions, and has the size of the queue. |
| `ObjectQueue.Queue.Dequeue` | io-mmu/src/cpu_fabric/object_manager.rs:121-142 | Takes the oldest entry; its recorded position is the base. |
| `ObjectQueue.Queue.Enqueue` | io-mmu/src/cpu_fabric/object_manager.rs:144-225 | Joins the slot's entry or appends a new one, or reports that nothing is needed or the queue is full; the aborts are unreachable. |
| `ObjectManagers.DeliveredOnce` | io-mmu/src/cpu_fabric/object_manager.rs:409-425 | A callback that is called has not been called before. |
| `ObjectManagers.DeliveryStays` | io-mmu/src/cpu_fabric/object_manager.rs:409-425 | No callback ever gets a second result. |
| `ObjectManagers.ResultIsFresh` | io-mmu/src/cpu_fabric/object_manager.rs:164-199 | Despite joining, a callback gets the result of an operation begun after it was accepted. |
| `ObjectManagers.AnsweredByOperation` | io-mmu/src/cpu_fabric/object_manager.rs:337-425 | A callback gets the outcome of one operation on its slot that was begun after its request and completed before the call; a flush that was asked for is answered by a flush. |
| `ObjectManagers.TrivialIff` | io-mmu/src/cpu_fabric/object_manager.rs:264-300 | A request is answered on the spot exactly when a flush finds no page or an initialisation finds one. |
| `ObjectManagers.ResidentIff` | io-mmu/src/cpu_fabric/object_manager.rs:345-360 | A page is resident exactly when an initialisation of its slot has succeeded. |
| `ObjectManagers.InitMeansResident` | io-mmu/src/cpu_fabric/object_manager.rs:345-360 | An initialisation reported as successful has made the page resident, even when a flush took over its entry. |
| `ObjectManagers.DrainedMeansDelivered` | io-mmu/src/cpu_fabric/object_manager.rs:264-425 | Once the queue is drained every accepted callback has been called, unless its slot died. |
| `ObjectManagers.StepSpends` | io-mmu/src/cpu_fabric/object_manager.rs:264-425 | While a callback waits, every worker step shortens its remaining wait and every request lengthens it by at most one step. |
| `ObjectManagers.WorkBound` | io-mmu/src/cpu_fabric/object_manager.rs:264-425 | The wait is at most four worker steps per queue slot, three for the task in hand, and one per waiting callback. |
| `ObjectManagers.DeliveredInTime` | io-mmu/src/cpu_fabric/object_manager.rs:264-425 | Every accepted callback whose slot lives is called once the worker has made the steps of its wait and one more per later request, in any run. |
| `ObjectManagers.AbortsUnreachable` | io-mmu/src/cpu_fabric/object_manager.rs:172-191 | The queue never exceeds its limit and never holds a flush of an uninitialised page. |
| `ObjectManagers.WorkerMoves` | io-mmu/src/cpu_fabric/object_manager.rs:320-335 | While the manager is open and something waits, the worker can move. |
| `ExclusiveMonitors.ExclusiveMonitor.Ldrex` | io-mmu/src/cpu_fabric/exclusive_monitor.rs:217-236 | Reserves the address in its bucket and returns the version. |
| `ExclusiveMonitors.ExclusiveMonitor.Strex` | io-mmu/src/cpu_fabric/exclusive_monitor.rs:249-272 | Passes exactly when the bucket still holds the address at that version, and then moves to the next version. |
| `ExclusiveMonitors.VersionStep` | io-mmu/src/cpu_fabric/exclusive_monitor.rs:258-269 | A bucket's version goes up by one exactly when an exclusive store passes it. |
| `ExclusiveMonitors.OnePassPerVersion` | io-mmu/src/cpu_fabric/exclusive_monitor.rs:258-269 | At most one exclusive store passes per bucket version. |
| `ExclusiveMonitors.ExclusivePairIsAtomic` | jit-compiler-core/src/ir/ffi_support.rs:151-224 | Between an exclusive load and the successful store to the same address no other store passed its bucket, and memory holds the loaded value. |
| `ExclusiveMonitors.UnchangedIff` | jit-compiler-core/src/ir/ffi_support.rs:151-232 | Around a successful pair memory at the address never changed exactly when every plain store to it in between wrote the loaded value. |
| `ExclusiveMonitors.MemoryIsHistory` | jit-compiler-core/src/ir/ffi_support.rs:175-224 | At every moment memory holds the value of the latest write, by a plain store or by an exclusive store that succeeded, which writes its new value. |
| `ExclusiveMonitors.HeldIff` | jit-compiler-core/src/ir/ffi_support.rs:151-185 | A CPU holds a reservation exactly when its latest exclusive event is an exclusive load. |
| `ExclusiveMonitors.StoresOnlyInPairs` | jit-compiler-core/src/ir/ffi_support.rs:175-224 | Every exclusive store that succeeds has its own exclusive load before it, which no other store shares. |
| `ExclusiveMonitors.SucceedsIff` | jit-compiler-core/src/ir/ffi_support.rs:175-224 | For any two addresses: the exclusive store succeeds exactly when the widths agree, its own bucket holds its address at the version of the loaded bucket, and memory holds the loaded value. |
| `ExclusiveMonitors.SucceedsByHistoryIff` | jit-compiler-core/src/ir/ffi_support.rs:175-224 | The same from the events alone: as many stores have passed the bucket of the store as had passed that of the load, the latest load there was of its address, and memory holds the loaded value. |
| `ExclusiveMonitors.SucceedsInBucketIff` | jit-compiler-core/src/ir/ffi_support.rs:175-224 | For two addresses of one bucket, equal ones included: no store passed the bucket in between, the latest load in it was of the address stored to, and memory holds the loaded value. |
| `ExclusiveMonitors.PlainStoresGoUnnoticed` | jit-compiler-core/src/ir/ffi_support.rs:228-232 | A witness that memory can change around a successful pair: a plain store and one that restores the loaded value; `UnchangedIff` is the exact condition. |
| `ExclusiveMonitors.OtherAddressCanPass` | jit-compiler-core/src/ir/ffi_support.rs:175-224 | A witness that a store to another address than the reserved one can succeed; `SucceedsIff` and `SucceedsByHistoryIff` say exactly when. |

## Left out

- HaltCheckPass.InsertHaltChecks: requires that no exit block exists yet, which holds because only this pass creates one.
- InlineAccess.VmAccess: models what the emitted code does when it runs, in the emitted order, rather than the emission of its statements; so do the functions of `Arithmetic`.
- ExecIr.ExecIrBuilder.EmitStmtFull: takes the number of results as an argument, where the source computes it from the type of the statement; a safepoint has none.
- Address faults of exclusive accesses.
- Lowering by Cranelift, libgccjit and LLVM, and every other use of libraries that cannot be seen.
- The optimization pass, which does nothing in the source; cold-block hints; stack slots, signatures and value types of the IR; `add_block_parameter`.
- Overflow of host counters (`strict_add`), capacity hints, stack growth for the recursion of Tarjan's algorithm.
- Results of the pass after an overflow: the source stops at the first one, the model goes on with the right set.
- Whether an original program reads the halt word itself: only inserted checks do, which `NoHaltAccess` states as an assumption on the input program.
- Faults and host calls inside ordinary statements: `SplitSemantics` lets a statement be any function of operands and machine state.
- `IoMMU::fork`, which shares an identifier between two address spaces; copy-on-write isolation of scalar stores; extern mappings' caller obligations.
- Allocation of pages and slots: the sources of new pages and the copies of copy-on-write pages are supplied by the environment, and an identifier is any one that nothing refers to (reference counts are the set of holders).
- Faults other than general protection; the bus error carried by a fault.
- Memory ordering: the protocols interleave atomic steps under sequential consistency; mixed-size atomics and host pointer provenance.
- Big-endian hosts.
- Overlapping exclusive accesses: the memory of `ExclusiveMonitors` is one word per address, so accesses of different widths or to addresses inside the same word do not see each other's bytes.
- The hash of the exclusive monitor: the bucket of an address is an arbitrary function, so the results hold for every hash; the panic at the last version.
- Liveness of condition variables in the object queue, and durability of a flush while another flusher is in flight.
- Memory objects themselves, the code generator, the unfinished CPU loop and address-space layer.
- TlbCoherence.Tlb.Lookup: says nothing about the address of a fault, because a failing lookup is modelled as `None`; `ScalarAccess` and `BulkAccess` model the reported addresses.
- ExclusiveMonitors.ExclusiveMonitor.Strex: requires a version below the last one, because the source panics when versions run out.
