# PS2Recomp: models and proofs

PS2Recomp translates PlayStation 2 programs to C++ and runs them on a host runtime. This project
models its analyzer, its runtime arithmetic and its IOP routing in Dafny and proves what they are
relied on for. `dafny verify dfyconfig.toml` checks all of it.

Code that updates state in place is a class or a method with loops, proved against a function or
predicate; what the source promises is then proved about that function. Expression-like code is a
function with lemmas. Machine words are integers with every wrap written out.

| module | what it covers |
|---|---|
| `CallGraphs`, `RecursiveFunctions` | Tarjan's search over the call graph and the recursion report built on it |
| `Instructions`, `BasicBlocks`, `FlowEdges` | decoded instructions, block splitting, control-flow edges |
| `Bits`, `Words`, `ConstantResolution` | bitwise arithmetic; the LUI/ADDIU/ORI search against execution |
| `Sorting`, `FunctionTable` | the function list, its index, and the two instruction caches |
| `EeRandom`, `EeRetirement`, `EeBlockTiming`, `R5900` | COP0 Random, lazy retirement, block cycles, and the context that holds them |
| `LittleEndian`, `SymbolMatching`, `SymbolTrie`, `SymbolScan` | the SCE symbol scanner |
| `Sha1` | its SHA-1, against RFC 3174 |
| `FunnelShift`, `GuestMemory`, `VuFlags` | QFSRV, direct RAM access, VU0 flags |
| `IopRouting` | profile selection and RPC routing |

## Where the code does not keep a wider promise

Each has its exact condition, and a lemma or method at a concrete input.

- Blocks tile the instruction list only when it starts at a non-zero leader, or no later leader
  exists (`BasicBlocks.BlocksTile`): a block keyed zero is dropped when another follows it
  (`BasicBlocks.ZeroKeyedBlockDropped`).
- A branch whose delay-slot word did not decode is not recognised as its block's terminator
  (`FlowEdges.TerminatorIsFirstControl`), and loses both edges (`FlowEdges.GapLosesBranch`). The edge
  theorem is therefore stated about the terminator the code recognises.
- The constant search believes writes to $0 and looks past calls for $31
  (`ConstantResolution.RightAtIff`, `ZeroLoadMisread`, `CallMisread`).
- The decode loop and the scan loop do not end for ranges that reach the last words of the address
  space (`FunctionTable.DecodeLoopsForeverIff`, `DecodeRunsAway`; `SymbolScan.ScanLoopsForeverIff`,
  `ScanRunsAway`); a method that runs such a loop requires that it ends.
- Block cycles are exact only while the 32-bit tick accumulator does not wrap
  (`EeBlockTiming.BlockAccountExactIff`, `WrappingBlock`).
- A `configure` call refused because of a tie or a factory reports that through the error argument,
  but when core itself repeats a SID, `lastError` names that SID instead
  (`IopRouting.IopSubsystem.Configure`, `IopRouting.HiddenTie`).

## Model

| member | source | states |
|---|---|---|
| RecursiveFunctions.FindRecursiveFunctions | ps2xAnalyzer/src/analysis_passes.cpp:341-445 | the reported names are exactly those with a non-empty call path back to themselves, for every finite call graph and every iteration order |
| RecursiveFunctions.Components | ps2xAnalyzer/src/analysis_passes.cpp:344-420 | the emitted lists are strongly connected components, maximal, pairwise disjoint, callees no later than their callers, and cover exactly the names mentioned in the graph |
| RecursiveFunctions.CollectNodes | ps2xAnalyzer/src/analysis_passes.cpp:344-352 | the node set is every caller and every callee, in whatever order the callers come |
| RecursiveFunctions.SccSearch.Enter | ps2xAnalyzer/src/analysis_passes.cpp:371-376 | discovering a name keeps the search invariant when every running call reaches it, and starts its low link at its own number |
| RecursiveFunctions.SccSearch.VisitCallee | ps2xAnalyzer/src/analysis_passes.cpp:381-393 | handling one callee, by a recursive search or by its number when it is on the stack, keeps the low link exact for the callees seen so far, and loses no number, stack entry or component |
| RecursiveFunctions.SccSearch.Leave | ps2xAnalyzer/src/analysis_passes.cpp:395-411 | a call either closes its component and restores the stack, or leaves itself waiting above an older name it reaches |
| RecursiveFunctions.SccSearch.CloseComponent | ps2xAnalyzer/src/analysis_passes.cpp:397-410 | popping and emitting the top of the stack keeps the invariant: what is popped is a whole component |
| RecursiveFunctions.SccSearch.PopComponent | ps2xAnalyzer/src/analysis_passes.cpp:397-408 | the pop loop takes exactly the stack from v upwards, keeping the on-stack set in step |
| RecursiveFunctions.SccSearch.StrongConnect | ps2xAnalyzer/src/analysis_passes.cpp:368-412 | from any state satisfying the invariant, the recursive search terminates, restores the invariant with the same calls running, and leaves the low link the caller needs |
| RecursiveFunctions.PushKeepsInv | ps2xAnalyzer/src/analysis_passes.cpp:371-376 | older stack entries reach newer ones after a push |
| RecursiveFunctions.LeaveOpenKeepsInv | ps2xAnalyzer/src/analysis_passes.cpp:395-411 | a call that ends without closing a component leaves everything on the stack reaching a call that still runs |
| RecursiveFunctions.TopIsScc | ps2xAnalyzer/src/analysis_passes.cpp:395-410 | a stack top that no call leaves downwards is mutually reachable and maximal |
| RecursiveFunctions.EmittedStaysEmitted | ps2xAnalyzer/src/analysis_passes.cpp:395-410 | an emitted name reaches emitted names only |
| RecursiveFunctions.EmitKeepsInv | ps2xAnalyzer/src/analysis_passes.cpp:397-410 | emitting such a top, in any member order, keeps components, order and stack invariants |
| RecursiveFunctions.AfterSearchedCallee | ps2xAnalyzer/src/analysis_passes.cpp:383-387 | taking the minimum with a searched callee's low link keeps what the loop knows about v |
| RecursiveFunctions.AfterIndexedCallee | ps2xAnalyzer/src/analysis_passes.cpp:388-391 | so does the minimum with the number of a callee that was on the stack, and ignoring one that was not |
| RecursiveFunctions.NothingLeftOnStack | ps2xAnalyzer/src/analysis_passes.cpp:414-420 | when no call runs, every discovered name has been emitted |
| RecursiveFunctions.CycleIffComponent | ps2xAnalyzer/src/analysis_passes.cpp:423-442 | a member of a component is on a call cycle iff the component has two members or it calls itself |
| RecursiveFunctions.BuildCallGraph | ps2xAnalyzer/src/elf_analyzer.cpp:836-879 | the graph has exactly the recorded calls between functions that are not library stubs, functions of one name joined |
| RecursiveFunctions.EligibleNames | ps2xAnalyzer/src/elf_analyzer.cpp:836-848 | eligible are exactly the names of functions that are not library stubs |
| RecursiveFunctions.IdentifyRecursiveFunctions | ps2xAnalyzer/src/elf_analyzer.cpp:832-895 | the report names exactly the functions that come back to themselves through recorded calls among non-stub functions, and calls directly recursive exactly those with such a call to themselves |
| BasicBlocks.CollectLeaders | ps2xAnalyzer/src/elf_analyzer.cpp:1305-1333 | an address is a leader iff it is the start, follows a branch or jump and its delay slot, or is a branch or non-call jump target |
| Instructions.BranchGoesTo | ps2xAnalyzer/src/elf_analyzer.cpp:1321-1323 | a branch that holds d in its 16 bits, negative or not, goes d words from its delay slot |
| Instructions.JumpGoesTo | ps2xAnalyzer/src/elf_analyzer.cpp:1738-1741 | a direct jump reaches every aligned address of its delay slot's 256 MB region, by the word number within it |
| Instructions.OpcodeNumbers | ps2xAnalyzer/src/elf_analyzer.cpp:1398-1401 | the opcode numbers of likely branches, direct jumps, LUI, ADDIU and ORI, and which calls link $31 |
| BasicBlocks.BranchLeads | ps2xAnalyzer/src/elf_analyzer.cpp:1311-1324 | the address d words from a branch's delay slot, and the one control falls through to, are leaders |
| BasicBlocks.JumpLeads | ps2xAnalyzer/src/elf_analyzer.cpp:1326-1331 | so is the target of a jump that is no call |
| BasicBlocks.SplitBlocks | ps2xAnalyzer/src/elf_analyzer.cpp:1335-1364 | the splitting loop, with its zero "no block open" mark, files exactly the blocks cut at the leaders |
| BasicBlocks.BlocksAre | ps2xAnalyzer/src/elf_analyzer.cpp:1335-1364 | every filed block is found under its own key and there are no other keys |
| BasicBlocks.BlocksTile | ps2xAnalyzer/src/elf_analyzer.cpp:1335-1364 | joined in key order the blocks are the instruction list, if and only if the list starts at a non-zero leader or no later instruction is a leader |
| BasicBlocks.ZeroKeyedBlockDropped | ps2xAnalyzer/src/elf_analyzer.cpp:1342-1348 | counterexample family: a function at address zero whose first branch targets the next word loses its first block |
| BasicBlocks.KeysAreLeaders | ps2xAnalyzer/src/elf_analyzer.cpp:1335-1364 | the keys are exactly the leaders that are instruction addresses, when the list starts at a non-zero leader |
| BasicBlocks.ControlEndsBlock | ps2xAnalyzer/src/elf_analyzer.cpp:1311-1364 | every branch or jump is the last instruction of its block, or the last but one with a delay slot |
| FlowEdges.AppendEdge | ps2xAnalyzer/src/elf_analyzer.cpp:1394-1395 | adding an edge to both lists keeps successor and predecessor lists inverse as multisets |
| FlowEdges.FindCovering | ps2xAnalyzer/src/elf_analyzer.cpp:1410-1419 | the search returns a block that starts at or contains the address, and none only if there is none |
| FlowEdges.LinkBranch | ps2xAnalyzer/src/elf_analyzer.cpp:1387-1422 | a branch block gets its target edge and, unless likely, one to the block covering the not-taken address; other blocks keep their successors |
| FlowEdges.LinkBlock | ps2xAnalyzer/src/elf_analyzer.cpp:1366-1457 | one pass of the linking loop gives the block its edges, whichever way it ends, and no other block new successors |
| FlowEdges.LinkBlocks | ps2xAnalyzer/src/elf_analyzer.cpp:1366-1457 | after all blocks, in any order, each has exactly its own edges and both lists are inverse and name blocks only |
| FlowEdges.BuildCfg | ps2xAnalyzer/src/elf_analyzer.cpp:1294-1460 | the whole graph: blocks cut at the leaders, edges as each block's terminator asks, lists inverse |
| FlowEdges.CoversUnique | ps2xAnalyzer/src/elf_analyzer.cpp:1410-1419 | at most one block covers an address, so the search order is immaterial |
| FlowEdges.TerminatorIsFirstControl | ps2xAnalyzer/src/elf_analyzer.cpp:1373-1385 | a block's first branch or jump is recognised as its terminator iff it is last or the word of its delay slot is there |
| FlowEdges.GapLosesBranch | ps2xAnalyzer/src/elf_analyzer.cpp:1378-1422 | counterexample family: an undecoded delay slot costs a branch its edges, even the one to its own block |
| FlowEdges.NotTakenNeverInside | ps2xAnalyzer/src/elf_analyzer.cpp:1403-1420 | on aligned code from a non-zero start, the address behind a terminator lies in no block's interior |
| FlowEdges.NotTakenEdge | ps2xAnalyzer/src/elf_analyzer.cpp:1403-1420 | so the not-taken edge exists iff that address starts a block, and leads there |
| FlowEdges.BranchSuccessorsExact | ps2xAnalyzer/src/elf_analyzer.cpp:1387-1422 | a block ending in a non-likely branch has exactly the branch target and the address behind the delay slot as successors, each when it starts a block |
| FlowEdges.BranchEdges | ps2xAnalyzer/src/elf_analyzer.cpp:1387-1421 | by the displacement it holds: such a block leads d words from the delay slot and behind it, each when that starts a block |
| FlowEdges.JumpEdges | ps2xAnalyzer/src/elf_analyzer.cpp:1423-1437 | a block ending in a direct jump leads to its target, when that starts a block |
| FlowEdges.PlainEdges | ps2xAnalyzer/src/elf_analyzer.cpp:1440-1455 | a block without branch or jump leads to the next word, when that starts a block, unless it ends in a return |
| FlowEdges.IndirectEdges | ps2xAnalyzer/src/elf_analyzer.cpp:1423-1438 | a jump through a register leads nowhere |
| ConstantResolution.TryResolveLuiBase | ps2xAnalyzer/src/elf_analyzer.cpp:602-648 | the loop terminates on the falling index, finds what the backward search finds, and leaves zero when it fails |
| ConstantResolution.TryResolveBasePlusOffset | ps2xAnalyzer/src/elf_analyzer.cpp:585-600 | base register plus signed offset, mod 2^32, exactly when the base resolves |
| ConstantResolution.LastNamingDecides | ps2xAnalyzer/src/elf_analyzer.cpp:610-647 | the answer is decided by the last of the eight instructions before that names the register as rt or rd: the constant of a LUI, the sum or or of an ADDIU or ORI on a resolved register, otherwise none |
| ConstantResolution.EightInstructions | ps2xAnalyzer/src/elf_analyzer.cpp:610-611 | a register that none of the last eight instructions names resolves to nothing |
| ConstantResolution.LoadedAddressResolves | ps2xAnalyzer/src/elf_analyzer.cpp:615-639 | every 32-bit address that a LUI and ADDIU pair loads is found again, from up to seven instructions later |
| ConstantResolution.WiderWindow | ps2xAnalyzer/src/elf_analyzer.cpp:610-648 | a search from further back never contradicts one from closer |
| ConstantResolution.ScanIsRight | ps2xAnalyzer/src/elf_analyzer.cpp:602-648 | a successful search agrees with every run when the chain it follows writes no constant to $0 and passes no link for $31, whatever the rest of the list does |
| ConstantResolution.HeldIsTrue | ps2xAnalyzer/src/elf_analyzer.cpp:602-648 | what the same chain gives with $0 read as zero and links taken as writes of $31 is the low half of the register on every run |
| ConstantResolution.CleanIff | ps2xAnalyzer/src/elf_analyzer.cpp:611-645 | a chain that resolves is clean iff it never asks for $0 and its answer stands, which then is the search's |
| ConstantResolution.PassedLinkFails | ps2xAnalyzer/src/elf_analyzer.cpp:611-645 | where the chain passes a link for $31 on its way to the constant, some run contradicts the search, whatever ADDIU and ORI follow |
| ConstantResolution.RightAtIff | ps2xAnalyzer/src/elf_analyzer.cpp:602-648 | for every single query that resolves: the search agrees with every run iff the corrected chain gives the same constant |
| ConstantResolution.RightAtIffClean | ps2xAnalyzer/src/elf_analyzer.cpp:602-648 | where the chain never asks for $0: iff it passes no link for $31 |
| ConstantResolution.AlwaysRightIff | ps2xAnalyzer/src/elf_analyzer.cpp:602-648 | a whole list is searched without error iff every query is; with no constant written to $0, iff every chain that resolves is clean |
| ConstantResolution.ZeroLoadMisread | ps2xAnalyzer/src/elf_analyzer.cpp:635-639 | counterexample: LUI into $0 |
| ConstantResolution.CallMisread | ps2xAnalyzer/src/elf_analyzer.cpp:635-644 | counterexample: a constant in $31, then JAL |
| FunctionTable.DecodeFunction | ps2xAnalyzer/src/elf_analyzer.cpp:1591-1616 | the decode loop yields the decodable words of [start, end) in order |
| FunctionTable.DecodeLoopsForeverIff | ps2xAnalyzer/src/elf_analyzer.cpp:1595-1613 | with its 32-bit counter the loop runs forever iff the range is not empty and ends above the last address congruent to its start mod 4 |
| FunctionTable.DecodeRunsAway | ps2xAnalyzer/src/elf_analyzer.cpp:1595-1613 | such a range: 0xFFFFFFF0 to 0xFFFFFFFD |
| FunctionTable.MergedKeeps | ps2xAnalyzer/src/elf_analyzer.cpp:176-198 | renaming and extending, or appending, one function keeps starts distinct and the list equal to the table of bounds |
| FunctionTable.PutAtKeeps | ps2xAnalyzer/src/elf_analyzer.cpp:1820-1843 | so does overwriting or appending one |
| FunctionTable.ElfAnalysisContext.BuildFunctionIndex | ps2xAnalyzer/src/elf_analysis_context.cpp:17-25 | with distinct starts the index finds what linear search finds |
| FunctionTable.ElfAnalysisContext.ClearInstructionCache | ps2xAnalyzer/src/elf_analysis_context.cpp:27-34 | forgets every decoding and nothing else |
| FunctionTable.ElfAnalysisContext.FindFunction | ps2xAnalyzer/src/elf_analysis_context.cpp:36-54 | indexed lookup is linear search |
| FunctionTable.ElfAnalysisContext.FindLinearly | ps2xAnalyzer/src/elf_analyzer.cpp:1820-1832 | the linear search itself |
| FunctionTable.ElfAnalysisContext.MergeSymbol | ps2xAnalyzer/src/elf_analyzer.cpp:160-198 | one match updates the bounds as the table says; the index stays right even while the list grows |
| FunctionTable.ElfAnalysisContext.MergeSceSymbols | ps2xAnalyzer/src/elf_analyzer.cpp:158-208 | any list of matches keeps distinct starts, right index and fresh caches, and leaves the table the matches ask for, sorted |
| FunctionTable.MergeAllIs | ps2xAnalyzer/src/elf_analyzer.cpp:158-198 | after merging, exactly the old and the matched functions are known, and each end is the largest of the old end and the matches' ends, whatever their order |
| FunctionTable.MergeAllNames | ps2xAnalyzer/src/elf_analyzer.cpp:160-198 | the last usable match for an address decides the name; functions without one keep theirs |
| FunctionTable.ImportAllIs | ps2xAnalyzer/src/elf_analyzer.cpp:1819-1843 | after an import, the last row for an address decides name and end, and functions without a row keep theirs |
| FunctionTable.ElfAnalysisContext.ImportRow | ps2xAnalyzer/src/elf_analyzer.cpp:1819-1843 | one imported row replaces name and end, or adds a function |
| FunctionTable.ElfAnalysisContext.ImportMap | ps2xAnalyzer/src/elf_analyzer.cpp:1819-1852 | any list of imported rows does the same; no stale decoding survives a changed end |
| FunctionTable.ElfAnalysisContext.DecodeOnce | ps2xAnalyzer/src/elf_analyzer.cpp:1507-1519 | a function that is no stub ends up with its own fresh decoding, all others untouched |
| FunctionTable.ElfAnalysisContext.DecodeAllFunctionsOnce | ps2xAnalyzer/src/elf_analyzer.cpp:1504-1520 | every non-stub function carries its fresh decoding; the list is otherwise the same |
| FunctionTable.ElfAnalysisContext.GetDecodedInstructions | ps2xAnalyzer/src/elf_analyzer.cpp:1575-1589 | after any updates the answer is a fresh decoding of the function as it is now, though the cache is keyed by start only |
| Sorting.Sort | ps2xAnalyzer/src/elf_analyzer.cpp:201-205 | sorting by a key that is distinct gives the one strictly ascending arrangement of the same elements |
| R5900.R5900Context.AdvanceCop0Random | ps2xRuntime/include/ps2_runtime.h:469-521 | the closed form equals one scalar decrement per retirement, for every 64-bit count and every starting value |
| R5900.R5900Context.FinishEeInstruction | ps2xRuntime/include/ps2_runtime.h:523-528 | publishing applies the pending count to Random |
| R5900.R5900Context.RetireEeInstructions | ps2xRuntime/include/ps2_runtime.h:530-543 | a batch is counted mod 2^64 and the overflow guard publishes before the pending count would overflow |
| R5900.R5900Context.BeginEeInstruction | ps2xRuntime/include/ps2_runtime.h:545-550 | everything before a scalar instruction is published, and the instruction itself is pending |
| R5900.R5900Context.MoveToWired | ps2xRecomp/src/lib/cop0_translator.cpp:141-142 | writing Wired resets Random after publication |
| R5900.R5900Context.AdvanceEeCycleTicks | ps2xRuntime/include/ps2_runtime.h:552-558 | issue ticks are doubled without dual issue and added mod 2^32 |
| R5900.R5900Context.CommitEeBlockCycles | ps2xRuntime/include/ps2_runtime.h:560-575 | a commit hands out whole cycles, at least one when active, and keeps the fraction |
| R5900.R5900Context.FinishEeBasicBlock | ps2xRuntime/include/ps2_runtime.h:577-595 | the end of a block hands out the same and discards the fraction |
| R5900.R5900Context.ResetEeBlockTiming | ps2xRuntime/include/ps2_runtime.h:597-607 | a reset clears the timing and the pending issue record but publishes retirements first |
| EeRandom.RetireAdd | ps2xRuntime/include/ps2_runtime.h:469-521 | advancing by a and then by b is advancing by a + b |
| EeRandom.RandomSparesWired | ps2xRuntime/include/ps2_runtime.h:476-521 | after any retirement Random is at most 47 and not below Wired mod 64, or 47 when Wired is above it |
| EeRandom.RandomReaches | ps2xRuntime/include/ps2_runtime.h:476-521 | every entry from Wired up to 47 is reached within 48 retirements from 47 |
| EeRandom.NextRandom | ps2xRuntime/include/ps2_runtime.h:484-518 | one retirement: 47 at Wired, below it and above 47, else one less |
| EeRandom.RetireCyclic | ps2xRuntime/include/ps2_runtime.h:484-518 | from 47, Random is periodic with the length of [min(Wired mod 64, 47), 47] |
| EeRandom.RetireWraps | ps2xRuntime/include/ps2_runtime.h:494-518 | from inside the interval, wrapping consumes one retirement more than the distance to the lower bound |
| EeRetirement.StepRefines | ps2xRuntime/include/ps2_runtime.h:523-550 | every operation of the lazy counters simulates eager, unbounded counting |
| EeRetirement.RunRefines | ps2xRuntime/include/ps2_runtime.h:523-607 | after any interleaving of begin, batch, publish and Wired writes, Random is the eager one once published and when the next instruction begins, and the counter is the number of retirements mod 2^64 |
| EeRetirement.BatchingUnobservable | ps2xRuntime/include/ps2_runtime.h:530-543 | how a run of instructions is cut into batches, published in between or not, cannot be seen |
| EeBlockTiming.AccountBalances | ps2xRuntime/include/ps2_runtime.h:552-595 | issued ticks, rounding, handed-out cycles, wraps and the discarded fraction balance on every run |
| EeBlockTiming.BlockAccount | ps2xRuntime/include/ps2_runtime.h:552-595 | cycles handed out = whole cycles issued + commits and finishes rounded up - 2^29 per wrap of the accumulator |
| EeBlockTiming.BlockAccountExactIff | ps2xRuntime/include/ps2_runtime.h:552-595 | the account is exact iff the 32-bit accumulator never wraps |
| EeBlockTiming.SmallBlockNeverWraps | ps2xRuntime/include/ps2_runtime.h:552-558 | it never wraps while the ticks issued in all stay below 2^32 |
| EeBlockTiming.IssueIsCommitted | ps2xRuntime/include/ps2_runtime.h:552-575 | issue slots are eighths of a cycle under dual issue and quarters without; a commit hands out the whole cycles and keeps the rest |
| EeBlockTiming.WrappingBlock | ps2xRuntime/include/ps2_runtime.h:552-595 | a block that wraps it: 2^32 ticks issued, one cycle handed out |
| SymbolMatching.MaskedBytes | ps2xAnalyzer/src/sce_symbol_scanner.cpp:161-213 | clearing a relocated word is and-ing each of its bytes with a fixed byte mask |
| SymbolMatching.MaskedByKind | ps2xAnalyzer/src/sce_symbol_scanner.cpp:161-213 | by kind: the whole word, its six opcode bits, its upper half, or nothing is left |
| SymbolMatching.RelocationMaskIs | ps2xAnalyzer/src/sce_symbol_scanner.cpp:161-178 | and-ing with the mask drops exactly the relocatable bits |
| SymbolMatching.DisabledRelocationValue | ps2xAnalyzer/src/sce_symbol_scanner.cpp:196-213 | the switch over relocation kinds clears them as well |
| SymbolMatching.WordIs | ps2xAnalyzer/src/sce_symbol_scanner.cpp:180-186 | words are read lowest byte first |
| SymbolMatching.OneRelocation | ps2xAnalyzer/src/sce_symbol_scanner.cpp:691-701 | one relocation masks its word by its kind and leaves every other byte |
| SymbolMatching.JumpsMaskedAlike | ps2xAnalyzer/src/sce_symbol_scanner.cpp:691-701 | windows are masked alike under a jump relocation iff the upper six bits of the jump and all other bytes agree |
| SymbolMatching.ClearRelocation | ps2xAnalyzer/src/sce_symbol_scanner.cpp:691-701 | one relocation masks its four bytes in place and skips itself when it does not fit |
| SymbolMatching.ClearRelocations | ps2xAnalyzer/src/sce_symbol_scanner.cpp:690-701 | the loop and-s the window with one mask, byte by byte |
| SymbolMatching.WindowKeepIs | ps2xAnalyzer/src/sce_symbol_scanner.cpp:691-701 | a byte is cleared iff some relocation clears it, and whole iff none touches it |
| SymbolMatching.OrderImmaterial | ps2xAnalyzer/src/sce_symbol_scanner.cpp:691-701 | order, repetition and overlap of relocations do not matter |
| SymbolMatching.MatchesSymbol | ps2xAnalyzer/src/sce_symbol_scanner.cpp:688-704 | the verdict is that of the masked window, for every digest function |
| SymbolMatching.WindowKeepsBit | ps2xAnalyzer/src/sce_symbol_scanner.cpp:161-213 | a bit is kept iff it is none of the low 16, 26 or 32 bits of a word some fitting relocation covers |
| SymbolMatching.SameMaskedWindowIff | ps2xAnalyzer/src/sce_symbol_scanner.cpp:691-701 | two windows are masked to the same bytes iff they agree in every bit no relocation may change |
| SymbolMatching.SameVerdictIff | ps2xAnalyzer/src/sce_symbol_scanner.cpp:688-704 | so they get the same verdict from every digest and hash iff they differ in relocated bits only |
| SymbolTrie.FindCandidateSymbols | ps2xAnalyzer/src/sce_symbol_scanner.cpp:641-686 | the explicit-stack search terminates and returns, as a multiset, exactly the known symbols on children reached through matching edges of fitting nodes |
| SymbolTrie.Expand | ps2xAnalyzer/src/sce_symbol_scanner.cpp:661-682 | expanding one node conserves what is found plus what is still to be found, and shrinks the stacked subtrees |
| SymbolTrie.TakeEdge | ps2xAnalyzer/src/sce_symbol_scanner.cpp:670-681 | one matching edge moves the child's offer to the result and the stack |
| SymbolTrie.OfferedIffBelow | ps2xAnalyzer/src/sce_symbol_scanner.cpp:641-686 | a symbol is returned iff a non-empty path of matching edges through fitting nodes leads to a node listing it |
| SymbolScan.ExtendOverZeros | ps2xAnalyzer/src/sce_symbol_scanner.cpp:481-486 | the size grows over exactly the run of zero words behind the symbol |
| SymbolScan.TrySymbol | ps2xAnalyzer/src/sce_symbol_scanner.cpp:466-492 | a symbol is entered iff it is a function, not empty, fits and matches |
| SymbolScan.ScanSection | ps2xAnalyzer/src/sce_symbol_scanner.cpp:449-494 | every hit at every aligned word of a code section is entered, and nothing else |
| SymbolScan.ScanLoopsForeverIff | ps2xAnalyzer/src/sce_symbol_scanner.cpp:456 | the 32-bit offset loop ends iff the section is shorter than 2^32 - 4 bytes |
| SymbolScan.ScanRunsAway | ps2xAnalyzer/src/sce_symbol_scanner.cpp:456 | a section of 2^32 - 4 bytes is scanned forever |
| SymbolScan.ViableCandidates | ps2xAnalyzer/src/sce_symbol_scanner.cpp:714-722 | the viable candidates are listed in the order of their keys |
| SymbolScan.MaxElement | ps2xAnalyzer/src/sce_symbol_scanner.cpp:741-751 | the choice is the first of the largest by size, then static bits |
| SymbolScan.ResolveAddress | ps2xAnalyzer/src/sce_symbol_scanner.cpp:714-751 | an address is resolved iff it has viable candidates and all have one identity; the choice is the largest by size, then static bits, then the first in key order |
| SymbolScan.ResolveCandidates | ps2xAnalyzer/src/sce_symbol_scanner.cpp:706-769 | one match per unambiguous address, in address order, whatever order the addresses come in |
| SymbolScan.IdentityTells | ps2xAnalyzer/src/sce_symbol_scanner.cpp:731-736 | the joined text identifies library and name when library names hold no line break |
| SymbolScan.DecidedIff | ps2xAnalyzer/src/sce_symbol_scanner.cpp:488-492 | the keyed candidate map decides an address exactly as the set of all hits does |
| SymbolScan.Scan | ps2xAnalyzer/src/sce_symbol_scanner.cpp:440-498 | reported are exactly the addresses whose viable hits have one identity, ascending, each with the hit preferred to every other symbol there, ties broken by key |
| SymbolScan.BestIsLargest | ps2xAnalyzer/src/sce_symbol_scanner.cpp:741-751 | no symbol at a reported address is only hit with a larger size, or the same size and more static bits, or as many and an earlier key; the reported one has at least 256 |
| SymbolScan.VariantOrder | ps2xAnalyzer/src/sce_symbol_scanner.cpp:215-236 | of two variants of one symbol the smaller variant hash has the earlier key |
| SymbolScan.HitsAre | ps2xAnalyzer/src/sce_symbol_scanner.cpp:449-494 | the hits of a scan, as one existential statement over sections and offsets |
| Sha1.Pad | ps2xAnalyzer/src/sce_symbol_scanner.cpp:278-290 | one bit, zeros and big-endian length, as in section 4 of RFC 3174 |
| Sha1.ExpandSchedule | ps2xAnalyzer/src/sce_symbol_scanner.cpp:300-312 | the 80-word schedule |
| Sha1.RoundStep | ps2xAnalyzer/src/sce_symbol_scanner.cpp:322-350 | the five working variables move through one round |
| Sha1.RunRounds | ps2xAnalyzer/src/sce_symbol_scanner.cpp:314-351 | all 80 rounds of one block |
| Sha1.HashMessage | ps2xAnalyzer/src/sce_symbol_scanner.cpp:292-358 | block after block, added to the hash |
| Sha1.ComputeSha1 | ps2xAnalyzer/src/sce_symbol_scanner.cpp:276-370 | the digest of section 6.1 of RFC 3174, for every message (lengths mod 2^64 bits) |
| Sha1.RotatedBits | ps2xAnalyzer/src/sce_symbol_scanner.cpp:271-274 | rotation by k is a sum of two parts and moves every bit k places up, around the word |
| Sha1.FBits | ps2xAnalyzer/src/sce_symbol_scanner.cpp:322-343 | bit by bit the round functions choose, take the parity, and take the majority |
| Sha1.RoundConstants | ps2xAnalyzer/src/sce_symbol_scanner.cpp:327-342 | the round constants are the integer parts of 2^30 times the square roots of 2, 3, 5 and 10 |
| Sha1.InitialBytes | ps2xAnalyzer/src/sce_symbol_scanner.cpp:292-296 | the initial hash, byte by byte |
| Sha1.BigEndianWords | ps2xAnalyzer/src/sce_symbol_scanner.cpp:301-308 | words are read and written highest byte first |
| Sha1.RoundMoves | ps2xAnalyzer/src/sce_symbol_scanner.cpp:345-350 | where a round moves each variable, and what the new first one is the sum of |
| Sha1.ScheduleBits | ps2xAnalyzer/src/sce_symbol_scanner.cpp:309-312 | a later schedule word is, bit by bit, the parity of those 3, 8, 14 and 16 before it, one place up |
| Sha1.MixBits | ps2xAnalyzer/src/sce_symbol_scanner.cpp:309-312 | a schedule word is the parity of four earlier ones, one place up |
| Sha1.PaddedLength | ps2xAnalyzer/src/sce_symbol_scanner.cpp:281-290 | the padded length is a multiple of 64 |
| Sha1.PaddingInjective | ps2xAnalyzer/src/sce_symbol_scanner.cpp:278-290 | different messages have different paddings, at all lengths |
| FunnelShift.Qfsrv | ps2xRuntime/include/ps2_runtime_macros.h:1615-1693 | for all quadwords and every 32-bit amount: floor((rs * 2^128 + rt) / 2^sa) mod 2^128, on every path |
| FunnelShift.ShiftDown | ps2xRuntime/include/ps2_runtime_macros.h:1623-1639 | the path above 128, byte copy then bits within lanes |
| FunnelShift.ShiftAcross | ps2xRuntime/include/ps2_runtime_macros.h:1641-1692 | the path below 128, byte copy or lanes |
| FunnelShift.ShiftLanes | ps2xRuntime/include/ps2_runtime_macros.h:1659-1690 | the 64-bit lane arithmetic, a shift by exactly one lane included |
| FunnelShift.LaneIsShift | ps2xRuntime/include/ps2_runtime_macros.h:1668-1682 | (lo >> s) | (hi << (64 - s)) in 64 bits is the low lane of the pair shifted |
| FunnelShift.LanesShifted | ps2xRuntime/include/ps2_runtime_macros.h:1659-1690 | two such lanes together are the 256-bit shift |
| FunnelShift.ByteSelect | ps2xRuntime/include/ps2_runtime_macros.h:1648-1651 | selecting bytes is shifting by a multiple of eight |
| FunnelShift.FunnelBeyondLow | ps2xRuntime/include/ps2_runtime_macros.h:1619-1639 | 128 and more shifts rs alone |
| FunnelShift.PlainShifts | ps2xRuntime/include/ps2_runtime_macros.h:1627-1638 | shifting by bytes and then by bits is one shift |
| GuestMemory.FastRead | ps2xRuntime/include/ps2_runtime_macros.h:617-705 | the value of the width's bytes from the address on, wrapping at the end of RAM |
| GuestMemory.FastWrite | ps2xRuntime/include/ps2_runtime_macros.h:707-758 | exactly those bytes replaced, contiguous or wrapped (the 128-bit helper at lines 794-808 likewise) |
| GuestMemory.ReadAfterWrite | ps2xRuntime/include/ps2_runtime_macros.h:622-808 | at every address a read returns what a write of the same width stored |
| GuestMemory.OthersUnchanged | ps2xRuntime/include/ps2_runtime_macros.h:707-808 | a write changes no byte it does not cover |
| GuestMemory.OffsetAdds | ps2xRuntime/include/ps2_runtime_macros.h:617-635 | 32-bit address wrap and RAM wrap are compatible |
| GuestMemory.RuntimeRam | ps2xRuntime/include/runtime/ps2_memory.h:285-286 | the runtime's 32 MB is such a RAM, and masking an address with one less is its offset |
| GuestMemory.WideWriteIsTwoHalves | ps2xRuntime/include/ps2_runtime_macros.h:707-808 | a wide write is two half-width writes, the second at the 32-bit address behind the first, wherever it wraps |
| GuestMemory.FastWriteMasked | ps2xRuntime/include/ps2_runtime_macros.h:760-792 | exactly the enabled bytes replaced |
| GuestMemory.OneByteEnabled | ps2xRuntime/include/ps2_runtime_macros.h:767-774 | the masks 1, 2, 4 and so on write the first, second, third byte and no other |
| GuestMemory.ComplementEnables | ps2xRuntime/include/ps2_runtime_macros.h:769 | the complementary mask enables exactly the other bytes |
| GuestMemory.ComplementaryWrites | ps2xRuntime/include/ps2_runtime_macros.h:760-792 | complementary masked writes of a word that does not wrap compose to one full write |
| GuestMemory.DisjointMasksCommute | ps2xRuntime/include/ps2_runtime_macros.h:760-792 | masked writes with disjoint masks commute, whatever they write |
| VuFlags.VuContext.UpdateLane | ps2xRuntime/include/ps2_runtime_macros.h:550-571 | clearing and setting under shifted masks leaves zero, sign, underflow and overflow of the lane's result in its four bits, and every other bit alone |
| VuFlags.VuContext.UpdateMac | ps2xRuntime/include/ps2_runtime_macros.h:541-572 | each selected lane has its own result's flags; unselected ones keep theirs or are cleared |
| VuFlags.VuContext.CurrentFlags | ps2xRuntime/include/ps2_runtime_macros.h:574-590 | the four current bits say which nibbles of MAC are not zero |
| VuFlags.VuContext.UpdateStatus | ps2xRuntime/include/ps2_runtime_macros.h:592-596 | the masked and shifted status word has current flags replaced, sticky ones accumulated, bits 4, 5, 10 and 11 kept and the rest cleared |
| VuFlags.VuContext.UpdateFmacFlags | ps2xRuntime/include/ps2_runtime_macros.h:534-597 | both registers after an FMAC are what the bit-by-bit step says |
| VuFlags.VuContext.Canonicalize | ps2xRuntime/include/ps2_runtime_macros.h:484-501 | denormals become signed zero, infinities and NaNs the largest magnitude |
| VuFlags.VuContext.Rsqrt | ps2xRuntime/include/ps2_runtime_macros.h:503-532 | divide and invalid flags, the fixed results of a zero divisor, and which operands the host divides otherwise |
| VuFlags.StickyIsHistory | ps2xRuntime/include/ps2_runtime_macros.h:503-597 | over any run, bits 6-9 are their initial value or-ed with every FMAC summary so far |
| VuFlags.CurrentIsLatest | ps2xRuntime/include/ps2_runtime_macros.h:503-597 | over any run, bits 0-3 are the summary of the latest FMAC's MAC flags |
| VuFlags.DivideBits | ps2xRuntime/include/ps2_runtime_macros.h:511-530 | VRSQRT changes bits 4 and 5 only, and FMAC updates never do |
| VuFlags.UnselectedLanes | ps2xRuntime/include/ps2_runtime_macros.h:541-551 | unselected lanes keep their MAC bits iff asked to |
| VuFlags.LaneSelected | ps2xRuntime/include/ps2_runtime_macros.h:544-545 | the masks 8, 4, 2 and 1 pick x, y, z and w out of the destination |
| VuFlags.OneLane | ps2xRuntime/include/ps2_runtime_macros.h:542-571 | with one of them selected, its zero, sign, underflow and overflow go to bits 3, 2, 1 or 0 of the four nibbles, every other bit stays or is cleared |
| VuFlags.SeveralLanes | ps2xRuntime/include/ps2_runtime_macros.h:541-572 | a destination of several lanes is the single-lane updates one after another |
| IopRouting.MatchSpecificity | ps2xIOP/src/iop_subsystem.cpp:36-64 | the number of declared fields when all match, else -1 |
| IopRouting.EqualsIgnoreCaseAscii | ps2xIOP/src/iop_subsystem.cpp:17-34 | the character loop compares up to ASCII case |
| IopRouting.CaseDoesNotMatter | ps2xIOP/src/iop_subsystem.cpp:17-48 | changing the case of letters in either name leaves the specificity unchanged |
| IopRouting.SpecificityIs | ps2xIOP/src/iop_subsystem.cpp:36-64 | a matcher matches iff every declared field does, and counts them |
| IopRouting.Select | ps2xIOP/src/iop_subsystem.cpp:149-183 | the one-pass selection finds the sole most specific profile, or two that tie at the top, or that none matches |
| IopRouting.Emplace | ps2xIOP/src/iop_subsystem.cpp:88-97 | entering one service succeeds iff its SIDs are new and not repeated |
| IopRouting.BuildLayer | ps2xIOP/src/iop_subsystem.cpp:79-98 | a layer is built iff no SID is named twice in it, and routes every SID to a service of the layer that serves it |
| IopRouting.IopSubsystem.RebuildRoutes | ps2xIOP/src/iop_subsystem.cpp:76-107 | routes are the valid layers, profile over core; the error names a repeated SID of the layer that failed |
| IopRouting.IopSubsystem.constructor | ps2xIOP/src/iop_subsystem.cpp:70-74 | a new subsystem has the core layer only |
| IopRouting.IopSubsystem.Configure | ps2xIOP/src/iop_subsystem.cpp:142-233 | a factory is called iff its profile is the sole best; ambiguity is reported iff two tie; success iff core is valid, nothing ties and the built layer is valid; every failure leaves the core layer only and no active profile; lastError differs from the reported error iff core repeats a SID and the call failed by a tie or a factory |
| IopRouting.IopSubsystem.Refuse | ps2xIOP/src/iop_subsystem.cpp:172-183 | a refused call goes on with core alone; its error is remembered iff core repeats no SID |
| IopRouting.HiddenTie | ps2xIOP/src/iop_subsystem.cpp:172-183 | counterexample: one core service naming a SID twice hides a tie of two profiles |
| IopRouting.IopSubsystem.HandleRpc | ps2xIOP/src/iop_subsystem.cpp:280-288 | the profile's service if it serves the SID, else core's, else none |
| IopRouting.Overlaid | ps2xIOP/src/iop_subsystem.cpp:99-106 | writing the profile layer over the core layer shadows exactly its SIDs |
| IopRouting.RoutesDetermined | ps2xIOP/src/iop_subsystem.cpp:76-107 | the routes depend on the two service lists only: no call leaves a trace of an earlier one |
| IopRouting.RoutesOwned | ps2xIOP/src/iop_subsystem.cpp:99-107 | every route leads to a service that one of the two lists owns and that serves the SID |

## Left out

- SymbolScan.ScanSection: a section without data is an empty one, and an unloaded database (no tree) is not modelled.
- Sorting.Sort: `std::sort` is an insertion sort here; with distinct keys the result is the same.
- FunctionTable.ElfAnalysisContext.MergeSceSymbols: the list of SDK names, the symbol list and the printed counts are not modelled.
- FunctionTable.DecodeFunction: reading a word and decoding it are one function of the address, so the image does not change between decodings.
- ConstantResolution.AlwaysRightIff: speaks of straight-line runs; what a called function or a taken branch changes is not part of a run.
- EeRetirement.RunRefines: Wired changes only through the MTC0 instruction the translator emits; other writers of COP0 state are not modelled.
- EeBlockTiming.BlockAccount: the ticks per cycle are the constant 8 of `ee_timing.h`.
- GuestMemory.FastRead: the five read helpers are one method with the width as parameter, over a RAM of any power of two from 16 bytes to 4 GiB; the direct 8-bit helper never takes the wrapped branch.
- GuestMemory.FastWriteMasked: these helpers do not wrap, so enabled bytes are required to lie inside RAM, as the callers check.
- VuFlags.VuContext.Rsqrt: the quotient itself is host floating point and stays open; only its operands are stated.
- SymbolScan.Scan: where overlapping sections hit one symbol twice at one address, which of the two sizes is kept is not stated.
- IopRouting.IopSubsystem.Configure: factories are outcomes given beforehand; resetting the services after success, plugin loading and the RPC handlers' own work are not modelled.
- Indices, counters and call depths that the source keeps in `int` or `size_t` are unbounded in `RecursiveFunctions`, `FunctionTable` and `SymbolTrie`.
- Edges for likely branches' not-taken side, calls and indirect jumps: the source makes none.
- `staticBitCount` is an arbitrary function of the symbol, used for filtering and comparing only.
- JSON and CSV parsing, name classifiers, patch and jump-table heuristics, the log buffer and the command line: text handling and heuristics without an exact specification.
- The code generator, the instruction decoder, the studio and debug panel, plugins, the guest heap, schedulers, GS and SPU emulation.
- Saturating and overflow helpers, `selectRpcAbi`, and lookups by containing address: they would only add easy members.
