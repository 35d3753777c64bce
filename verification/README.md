# Verification of the Solana source-level recorder

This project models the pipeline that turns one execution of an SBF program into a source-level
trace, and proves what the recorder claims about it. Each Dafny module follows one source file or
one algorithm in it:

| modules | source | what they model |
|---|---|---|
| `Words`, `Wrappers`, `Ebpf`, `SlotLookup` | `solana_sbpf` and Rust conventions | machine words, byte orders, instruction slots and their addresses |
| `SbfMemory`, `ShadowReplay` | `src/sbf_memory.rs`, `src/source_recorder.rs` | the shadow memory and the journal cursor |
| `FlatMemory`, `Vm`, `ReplayRefinement`, `RecordedValues`, `MachineResults`, `MachineLocals` | the claim in `src/executor.rs` and `src/sbf_memory.rs` | an abstract virtual machine, that the shadow refines its memory, and that results and variables are the machine's |
| `Syscalls`, `SyscallEffects` | `src/syscalls.rs` | the memory syscalls, their journal, the bump allocator |
| `DebugModel`, `LineIndex`, `FrameSize`, `FrameReach`, `FrameFlags`, `FrameCopies`, `FrameExamples`, `FrameVariables` | `src/source_debug.rs` | scopes, line rows, frame-size inference and what it says of executions, fbreg variables |
| `SourceRecorder`, `TraceNesting`, `StackMirror`, `StepCompression`, `StepColumns` | `src/source_recorder.rs` | the walk over the snapshots, and the trace it writes |
| `ValueDecoding`, `ValueKinds`, `TypedValues`, `PartPaths`, `TypeInterning`, `TraceValues`, `TracePanics` | `src/source_recorder.rs` | the values in that trace, by their DWARF types, and when making them panics |
| `Base58`, `Borsh`, `BorshNames`, `Utf8` | `src/account_decoder.rs` | base58 text and the account decoder |
| `Cpi` | `src/cpi.rs` | the program context stack |
| `LineTable`, `SourcePaths`, `PathMeaning` | `src/recorder.rs` | line-length tables and path interning |

Code that updates state in place is a class or a loop here too, and each such method is proved equal
to a function of its inputs; the lemmas are about those functions. What the recorder tells the
trace writer is the sequence `log` of events. `dafny verify dfyconfig.toml` checks all of it.

The central results: for every run whose calls can be told apart, the trace written is the one an
observer of the virtual machine's own memory would write (`RecordedValues.RecordingIsFaithful`), with
results and integer variables as the machine's registers and memory hold them
(`MachineResults.ReturnsAreR0`, `MachineLocals.RegisterVariable`, `MachineLocals.FrameVariable`); for
every execution, whether told apart or not, it is balanced (`TraceNesting.TraceIsBalanced`); and its
frames are the machine's call stack exactly when all calls are described
(`StackMirror.StackMirrorsVmIff`). What these ask of the debug information is `Session.Valid`: line
positions name known files, and the source comes to its end, that is, alias chains end, no structure
contains itself, no float part loses its size, and no variable that can be recorded has 2^63 bytes or
more. Then no recording panics (`TracePanics.RecordingNeverPanics`), and without the last condition some
execution makes it (`TracePanics.RecordingNeverPanicsIff`).

## Where the code does not do what it says

Each entry names the lemma with the exact condition under which the code is right, and one with an
input at which it is not.

- "Reproduces memory exactly" (`src/executor.rs:112-118`) fails when an internal call targets the
  next slot while journal entries are left: it is taken for a syscall
  (`ReplayRefinement.CursorCountsSyscallsIff`, `ReplayRefinement.CallToNextSlotCorruptsShadow`).
- `sol_memcpy_` is documented to assert non-overlap (`src/syscalls.rs:366-369`); the code has no such
  check, accepts every pair of mapped ranges, and copies exactly when they do not overlap
  (`Syscalls.MemcpyCopiesIff`, `Syscalls.OverlappingMemcpyIsAccepted`).
- "Every fbreg variable must fit in the frame" (`src/source_debug.rs:338`) fails when the frame asked
  for exceeds 2^64 - 64 bytes, because the sum wraps (`FrameVariables.VariablesInsideFrameIff`,
  `FrameVariables.HugeVariableIsOutside`).
- Loads and stores below r10 are not counted in the relocated encoding of the memory instructions: the
  depth covers them exactly when a pointer made reaches as far
  (`FrameReach.RelocatedAccessesWithinDepthIff`, `FrameExamples.RelocatedAccessesAreMissed`).
- A register flagged as a copy of r10 keeps its flag when a product is written over it, because the
  product instructions share a class with the 32-bit jumps (`FrameCopies.FlagsAreSoundIff`,
  `FrameExamples.ProductKeepsItsFlag`).
- Signed values of 9 to 15 bytes are zero-padded, so negative ones are shown as positive
  (`ValueDecoding.BaseDenotesIff`, `ValueDecoding.NineBytesLoseTheSign`).
- The size of a type behind more than 32 aliases is not known, and a member or element of it is decoded
  from no bytes. An integer there is recorded as 0 (`TypedValues.MemberDenotesIff`,
  `TypedValues.ElementDenotesIff`, `TypedValues.DeepMemberIsLost`); an integer further inside such a part
  is as a rule not recorded at all (`PartPaths.IntegerDenotesIff`, `PartPaths.NestedMemberIsLost`); a
  float makes the source panic (`TypedValues.NoPanicIff`, `TypedValues.DeepFloatPanics`).
- Room for a variable is reserved before its bytes are looked for (`src/source_debug.rs:411`), so a located
  variable of 2^63 bytes or more makes the source panic (`TracePanics.RecordingNeverPanicsIff`,
  `TracePanics.HugeLocalPanics`).
- Interning the type of a structure that contains itself does not end
  (`TypeInterning.InterningEndsIff`, `TypeInterning.SelfContainingNeverEnds`).
- At the last address a foreign program's range is empty, so each snapshot there is one more call
  (`Cpi.TopHasPcIff`, `Cpi.LastAddressIsCalledAgain`).
- "Two spellings of one file cannot become two records" (`src/recorder.rs:371`) fails for spellings
  that differ as text but not as paths (`SourcePaths.ReturnedTextIsRegisteredIff`,
  `SourcePaths.SecondSpellingIsReturnedUnregistered`).
- Line lengths saturate at 2^32 - 1 (`LineTable.LengthsAddUpIff`, `LineTable.LongLineIsCutShort`).

## Model

| member | source | states |
|---|---|---|
| `Words.ToLeDigit` | src/sbf_memory.rs:93-97 | byte k of a little-endian word is its k-th base-256 digit |
| `Words.TwosOfToLe` | src/source_debug.rs:313 | a signed number that fits n bytes is read back from them |
| `Ebpf.DecodeInvertsEncoding` | src/sbf_memory.rs:133-140 | any instruction assembled into any slot, negative offsets and immediates included, decodes to itself |
| `Ebpf.EncodingInvertsDecode` | src/sbf_memory.rs:133-140 | and a slot is the assembly of what it decodes to |
| `SbfMemory.ShadowMemory.constructor` | src/sbf_memory.rs:41-46 | the shadow starts as the initial regions |
| `SbfMemory.ShadowMemory.Read` | src/sbf_memory.rs:49-54 | the first region that holds the whole range answers, else none |
| `SbfMemory.ShadowMemory.Write` | src/sbf_memory.rs:59-72 | the first region that holds the whole range is overwritten there; nothing else changes |
| `SbfMemory.ShadowMemory.Replay` | src/source_recorder.rs:253-255 | the writes of one journal entry, in order |
| `SbfMemory.ShadowMemory.ApplyInstruction` | src/sbf_memory.rs:76-99 | a store takes effect, `call imm` is left to the caller, all else changes nothing |
| `FlatMemory.FitIsTheMapping` | src/sbf_memory.rs:49-54 | in disjoint mappings the search finds a region if and only if the range lies in one mapping |
| `FlatMemory.ReadRefines` | src/sbf_memory.rs:49-54 | a read succeeds if and only if the range lies in one mapping, and returns the flat memory's bytes |
| `FlatMemory.WriteRefines` | src/sbf_memory.rs:59-72 | a write updates exactly its bytes of the flat memory when the range is mapped, else nothing; starts and sizes never change |
| `FlatMemory.EmptyWrite` | src/sbf_memory.rs:59-72 | an empty write changes nothing |
| `FlatMemory.WritesRefine` | src/source_recorder.rs:253-255 | the writes of one entry, any number of them, land in order: where they overlap the later one shows |
| `FlatMemory.ReadAfterWrite` | src/sbf_memory.rs:49-72 | a read after a write returns new bytes where they overlap and old ones elsewhere, for every partial overlap |
| `FlatMemory.RefinementIsUnique` | src/sbf_memory.rs:22-25 | a memory has one region list over a given layout |
| `Vm.StoreKindIsTheEncoding` | src/sbf_memory.rs:103-129 | the opcode table is the store encoding, for all 256 opcodes and both instruction sets |
| `Vm.JournalGrows` | src/syscalls.rs:85-91 | along a run the journal only grows |
| `Syscalls.SyscallState.constructor` | src/syscalls.rs:105-115 | the bump pointer starts at the saturated top of the heap, log and journal empty |
| `Syscalls.SyscallState.Push` | src/syscalls.rs:130-136 | one log entry and one empty journal entry more |
| `Syscalls.SyscallState.RecordWrite` | src/syscalls.rs:140-144 | the write joins the latest journal entry |
| `Syscalls.SyscallState.SolLog` | src/syscalls.rs:262-275 | a log call leaves an empty journal entry and memory as it was |
| `Syscalls.SyscallState.SolCopy` | src/syscalls.rs:371-440 | memory, journal and bump pointer after `sol_memcpy_` and `sol_memmove_`, access violations included |
| `Syscalls.SyscallState.SolMemset` | src/syscalls.rs:446-472 | the same for `sol_memset_` |
| `Syscalls.SyscallState.SolMemcmp` | src/syscalls.rs:478-523 | the same for `sol_memcmp_` |
| `Syscalls.SyscallState.SolAllocFree` | src/syscalls.rs:538-563 | the same for `sol_alloc_free_`; out of memory and free change nothing |
| `Syscalls.SyscallState.Invoke` | src/syscalls.rs:580-600 | every handler that gets to its log entry adds one journal entry with it, under its own name, and has the effect the specification of its call gives |
| `Syscalls.HandledIsDiff` | src/syscalls.rs:130-144 | the entry of a successful call is the difference between memory before and after |
| `Syscalls.JournalIsFaithful` | src/syscalls.rs:371-522 | replaying the entry of any successful call on a region list that holds the memory before gives the memory after |
| `Syscalls.CopyCopies` | src/syscalls.rs:371-440 | the destination gets the source's former bytes and nothing else changes, for any overlap with `sol_memmove_` |
| `Syscalls.MemcpyCopiesIff` | src/syscalls.rs:371-405 | `sol_memcpy_` goes through on every pair of mapped ranges, and copies whatever happens if and only if they do not overlap |
| `Syscalls.OverlappingMemcpyIsAccepted` | src/syscalls.rs:366-405 | an overlapping call that goes through and leaves something else |
| `Syscalls.CompareIsLexicographic` | src/syscalls.rs:503-507 | the sign is that of the first difference |
| `Syscalls.MemcmpStoresTheSign` | src/syscalls.rs:490-520 | the four bytes stored read back as the sign |
| `Syscalls.AllocatesHighest` | src/syscalls.rs:550-561 | the highest aligned block that fits is returned, and 0 exactly when none fits, saturation included |
| `Syscalls.AllocRunIsSafe` | src/syscalls.rs:545-562 | over any call sequence blocks are aligned, above the reserved head and each wholly below the earlier ones |
| `Syscalls.HeapBlocksStayInHeap` | src/syscalls.rs:105-115 | all blocks of all runs lie in [heap start + 8, heap start + heap length) |
| `Syscalls.SyscallRunIsSafe` | src/syscalls.rs:545-562 | the same over runs of all syscalls interleaved, whatever they do to memory |
| `Syscalls.BlocksOfRunsStayInHeap` | src/syscalls.rs:105-115 | and all those blocks lie in the heap |
| `SyscallEffects.StopsIff` | src/syscalls.rs:262-563 | which calls stop the program, from the mapped ranges alone, and how many journal entries they leave |
| `SyscallEffects.OnlyWhatIsAsked` | src/syscalls.rs:262-563 | a call that goes through returns 0 unless it allocates, and moves the bump pointer and changes memory only when it allocates and stores |
| `SyscallEffects.CopiesMove` | src/syscalls.rs:371-440 | after a copy the destination holds the source's former bytes and the rest is unchanged |
| `SyscallEffects.MemsetFills` | src/syscalls.rs:446-472 | the low byte of the value in each of the n bytes, the rest unchanged |
| `SyscallEffects.ComparisonsCompare` | src/syscalls.rs:478-523 | the sign of the first difference, as four bytes |
| `SyscallEffects.ComparisonsKeepMemory` | src/syscalls.rs:478-523 | and nothing else changes |
| `SyscallEffects.NothingIsEqual` | src/syscalls.rs:491-493 | comparing no bytes stores zero |
| `SyscallEffects.AllocationsAllocate` | src/syscalls.rs:545-562 | the dispatched call allocates the highest block with room, and lowers the bump pointer to it |
| `Vm.BlocksOfRunAreInside` | src/syscalls.rs:545-562 | in every run of the machine, with its own stores and any other calls in between, each block handed out in r0 is aligned and lies in [heap start + 8, heap start + heap length) |
| `Vm.BlocksOfRunAreApart` | src/syscalls.rs:545-562 | and lies wholly below every block handed out before it in the run |
| `ReplayRefinement.AdvanceMirrorsStep` | src/source_recorder.rs:248-257 | one loop turn keeps shadow and cursor in step with one machine step |
| `ReplayRefinement.ShadowRefinesVm` | src/sbf_memory.rs:1-17 | the shadow used at snapshot i is the machine's memory before instruction i, and the cursor the number of syscalls so far |
| `ReplayRefinement.CursorCountsSyscallsIff` | src/source_recorder.rs:250-252 | the cursor is right at every snapshot if and only if no internal call goes to the next slot while entries are left |
| `ReplayRefinement.MiscountedCall` | src/source_recorder.rs:250-252 | an internal call to the next slot is counted as a syscall |
| `ReplayRefinement.ShadowReadsVmMemory` | src/executor.rs:112-118 | reads at snapshot i succeed exactly where memory is mapped and return the machine's bytes |
| `ReplayRefinement.CallNextIsARun` | src/source_recorder.rs:250-252 | a three-step program that calls its next slot is a run of the machine |
| `ReplayRefinement.CallToNextSlotCorruptsShadow` | src/executor.rs:112-118 | in that run the shadow holds a byte the machine has not written yet |
| `RecordedValues.ClosingReadsLastMemory` | src/source_recorder.rs:260-278 | the returns that close a trace see the memory of the last snapshot |
| `RecordedValues.RecordingIsFaithful` | src/source_recorder.rs:135-279 | the whole trace, values included, is that of an observer of the machine's own memory |
| `MachineResults.ReturnsAreR0` | src/source_recorder.rs:175-188 | at each `exit` with a frame open the trace goes on with an empty return per inlined call and one that carries the function's result, read from the machine's r0: an integer of up to 8 bytes as the number in its low bytes |
| `MachineResults.LastReturnIsR0` | src/source_recorder.rs:260-278 | frames still open at the end are closed by empty returns, but the outermost by the result in r0 if the run ended with an `exit` |
| `MachineLocals.StepThenLocals` | src/source_recorder.rs:220-246 | a snapshot that takes a step adds it and then, variable by variable and scope by scope, what is recorded of the top frame from the registers of that snapshot; any other adds nothing |
| `MachineLocals.RegisterVariable` | src/source_debug.rs:412-425 | an integer variable in register r is recorded under its name as the number in the low bytes of the machine's register |
| `MachineLocals.FrameVariable` | src/source_debug.rs:394-463 | one off the frame base is recorded exactly when its bytes are mapped, as the number the machine's memory holds there exactly when `decode_base` records it right |
| `MachineLocals.NothingToRead` | src/source_debug.rs:401-410 | without type, size, location or frame base nothing is recorded |
| `DebugModel.ComputeScopeChain` | src/source_debug.rs:145-157 | the loop computes the scope chain |
| `DebugModel.ChainIsADescent` | src/source_debug.rs:145-157 | entry i is i + 1 levels down and contains the address; no child of the last does |
| `SlotLookup.SlotRoundTrip` | src/source_debug.rs:272-275 | slot pc is at the text's address plus 8 * pc, and the frame analysis finds the slot of that address |
| `SlotLookup.SlotHoldsAddress` | src/source_debug.rs:298-299 | the slot of an address is the one whose eight bytes hold it |
| `SlotLookup.FunctionOfSlotIff` | src/source_debug.rs:290-292 | the function of a slot is the first with a range that holds its address |
| `LineIndex.Builder.constructor` | src/source_debug.rs:527-528 | no rows at first |
| `LineIndex.Builder.Unit` | src/source_debug.rs:534-571 | the rows of one line program are appended |
| `LineIndex.Builder.Finish` | src/source_debug.rs:250 | the rows end up sorted by start, none lost or added, those of one start in the order they came |
| `LineIndex.SortIsSorted` | src/source_debug.rs:250 | the stable sort orders by start |
| `LineIndex.SortIsStable` | src/source_debug.rs:250 | and keeps the order of rows that start at one address |
| `LineIndex.PartitionPointSplits` | src/source_debug.rs:280 | the binary search splits the rows at the address |
| `LineIndex.SequenceRows` | src/source_debug.rs:537-571 | a sequence's rows are disjoint, cover exactly its hull, and carry the position of the last program row at or before each address |
| `LineIndex.UnitRows` | src/source_debug.rs:534-571 | a unit's rows are those of its sequences: nothing crosses an end-of-sequence row |
| `LineIndex.RowsOfAllAppend` | src/source_debug.rs:527-571 | the rows of two units are those of both lists of sequences |
| `LineIndex.IndexAgreesWithScan` | src/source_debug.rs:279-287 | for disjoint sequences the lookup agrees with a linear scan of the line program |
| `LineIndex.IndexIsSilentOutside` | src/source_debug.rs:279-287 | and finds nothing outside all sequences |
| `FrameSize.ScanRange` | src/source_debug.rs:297-336 | the loop over one range computes the analysis of its instructions |
| `FrameSize.InferDepth` | src/source_debug.rs:296-337 | the loop over all ranges computes the depth |
| `FrameFlags.FlaggedIffMoved` | src/source_debug.rs:300-336 | a register is flagged if and only if it is r10, left alone, or its last write was a move from a register flagged there |
| `FrameReach.LoadWidthIsTheEncoding` | src/source_debug.rs:310-321 | the loads judged are those of the encoding, for all 256 opcodes and both instruction sets |
| `FrameReach.AccessIsCountedIffClassic` | src/source_debug.rs:310-321 | in any state of the analysis, a load or store below r10 is counted exactly in the classic encoding |
| `FrameReach.ClassicRangeDepth` | src/source_debug.rs:300-336 | classic encoding: the depth of a range bounds every load, store and pointer below r10 and is the deepest of them |
| `FrameReach.ClassicFunctionDepth` | src/source_debug.rs:296-337 | the same over all ranges of a function |
| `FrameReach.RelocatedAccessesWithinDepthIff` | src/source_debug.rs:296-337 | relocated encoding: the depth is the deepest pointer made; every load and store is within it if and only if some pointer reaches as far |
| `FrameExamples.RelocatedAccessesAreMissed` | src/source_debug.rs:310-321 | a load and a store below r10 for which the depth is 0 |
| `FrameCopies.FlaggedRegistersEqualR10` | src/source_debug.rs:300-336 | in any straight run from the start of a range, in either encoding, a flagged register equals r10 unless a product was written over one |
| `FrameCopies.ClassicIsNeverStale` | src/source_debug.rs:332-334 | which straight runs in the classic encoding never do |
| `FrameCopies.FlagsAreSoundIff` | src/source_debug.rs:322-335 | the flags of a stretch of code are sound for all its runs if and only if no slot writes a product over a flagged register |
| `FrameExamples.ProductKeepsItsFlag` | src/source_debug.rs:332-334 | two instructions for which they are not |
| `FrameCopies.LocalAddressesWithinDepth` | src/source_debug.rs:310-331 | the addresses a straight run computes off r10, by classic accesses and by pointers in either encoding, are within the inferred depth |
| `FrameVariables.InferStackSize` | src/source_debug.rs:295-354 | the method computes the stack size |
| `FrameVariables.StackSizeIsLeastCover` | src/source_debug.rs:338-353 | the least multiple of 64 that covers the depth and every fbreg variable |
| `FrameVariables.VariablesInsideFrameIff` | src/source_debug.rs:338-353 | every variable is inside the frame if and only if the frame asked for is at most 2^64 - 64 bytes |
| `FrameVariables.HugeVariableIsOutside` | src/source_debug.rs:338-353 | a variable for which the frame comes out empty |
| `FrameVariables.FbregReadsBelowR10` | src/source_debug.rs:394-463 | with fixed frames an fbreg variable is read from [r10 - stack size, r10), if its bytes can be reserved |
| `FrameVariables.ChainVariablesAreVisited` | src/source_debug.rs:1015-1024 | the variables around an address, up to an inlined call, are among those the size covers |
| `FrameVariables.VisitedIff` | src/source_debug.rs:1015-1024 | the variables covered are exactly those declared in the body or in blocks inside it, outside inlined calls |
| `FrameVariables.OpAtIff` | src/source_debug.rs:401-407 | a location list gives the expression of the first range that has the address |
| `ValueDecoding.ShiftPairIsSignExtension` | src/source_recorder.rs:555-560 | shifting up and arithmetically down is the two's-complement value |
| `ValueDecoding.AnyBaseDenotes` | src/source_recorder.rs:530-604 | for any declared size and any bytes, an integer is recorded as the number those bytes hold once cut or zero-padded |
| `ValueDecoding.BaseDenotesIff` | src/source_recorder.rs:530-604 | given as many bytes as declared, an integer of any size is recorded as their value if and only if it has up to 8 bytes, or 9 to 15 and is unsigned or not negative, or fits in 16 bytes |
| `ValueDecoding.NineBytesLoseTheSign` | src/source_recorder.rs:573-584 | nine bytes of -1 are recorded as a positive number |
| `ValueDecoding.AliasStepDecreases` | src/source_recorder.rs:442 | following an alias brings its end nearer |
| `ValueDecoding.NestingIsBounded` | src/source_recorder.rs:432-520 | on cyclic pointer graphs a record nests at most six levels |
| `ValueKinds.NestingIsAttained` | src/source_recorder.rs:38 | no record nests more than six levels, and a pointer to itself nests six |
| `ValueKinds.BoolIs` | src/source_recorder.rs:532-535 | true exactly when the number in its bytes is not 0 |
| `ValueKinds.CharacterIs` | src/source_recorder.rs:544-554 | the scalar value with the number in its bytes, or that number when there is none |
| `ValueKinds.FloatIs` | src/source_recorder.rs:536-543 | the bits of a float |
| `ValueKinds.OddSizesAreUnsigned` | src/source_recorder.rs:562-604 | characters and floats of other sizes are unsigned integers |
| `ValueKinds.EmptyBaseIs` | src/source_recorder.rs:445-448 | a type of no bytes has no value |
| `ValueKinds.IntegerShape` | src/source_recorder.rs:555-604 | plain integer exactly when the number fits 64 bits with a sign, else sign and magnitude, highest byte first |
| `ValueKinds.PointerIs` | src/source_recorder.rs:451-471 | a reference to the value at the address in the machine's memory when its size is known and its bytes are mapped, else the raw address |
| `ValueKinds.PointedIntegerIff` | src/source_recorder.rs:451-471 | a pointed-to integer is the number the machine's memory holds, exactly when `decode_base` is right |
| `ValueKinds.RecordIsOfItsType` | src/source_recorder.rs:432-519 | a record names the type its aliases lead to; which types are left as raw bytes |
| `TypedValues.ThroughAliases` | src/source_recorder.rs:442 | a value is decoded as one of the type its aliases lead to |
| `TypedValues.BaseSizeKnownIff` | src/source_debug.rs:361-375 | the size of a base type is known exactly behind at most 32 aliases |
| `TypedValues.WholeValueIff` | src/source_recorder.rs:432-520 | integers given as many bytes as the size of their type, through any aliases: recorded right exactly when `decode_base` does |
| `TypedValues.MemberDenotesIff` | src/source_recorder.rs:473-492 | an integer member is recorded as its own bytes' value if and only if that is 0, or its type is behind at most 32 aliases and `decode_base` records it right |
| `TypedValues.ElementDenotesIff` | src/source_recorder.rs:493-511 | the same for the elements of an array |
| `TypedValues.DeepMemberIsLost` | src/source_recorder.rs:478-482 | a member behind 33 aliases is recorded as 0 whatever its bytes |
| `PartPaths.KnownSizeIsFull` | src/source_debug.rs:361-375 | a size the recorder knows is the one the type's description gives, behind any number of aliases |
| `PartPaths.SizeKnownIff` | src/source_debug.rs:361-375 | a size is known if and only if the description gives one behind at most 32 aliases and arrays |
| `PartPaths.IntegerDenotesIff` | src/source_recorder.rs:473-511 | an integer at the end of any path of members and elements is recorded as its own bytes' value if and only if the path is within the decoder's limits and either all sizes on it are known and `decode_base` is right, or the value is 0 and from the first unknown size on nothing but elements and members at offset 0 of unknown size follow |
| `PartPaths.NestedMemberIsLost` | src/source_recorder.rs:473-492 | an integer member behind no alias, in a structure behind 33, is not recorded |
| `TypedValues.NoPanicIff` | src/source_recorder.rs:536-543 | decoding never panics if and only if no float member or element is behind more than 32 aliases |
| `TypedValues.LostFloatPanics` | src/source_recorder.rs:536-543 | each such part has a value that panics |
| `TypedValues.DeepFloatPanics` | src/source_recorder.rs:536-543 | a float member behind 33 aliases panics whatever its bytes |
| `TypeInterning.TypeInterner.constructor` | src/source_recorder.rs:101 | nothing interned at first |
| `TypeInterning.TypeInterner.DwarfType` | src/source_recorder.rs:378-411 | without self-containing structures the call ends, with the cache the recursion gives |
| `TypeInterning.InterningEndsIff` | src/source_recorder.rs:378-411 | interning ends for every type if and only if no structure contains itself, directly or through others |
| `TypeInterning.SelfContainingNeverEnds` | src/source_recorder.rs:384-397 | one for which no number of nested calls is enough |
| `TypeInterning.InternKeepsMembersFirst` | src/source_recorder.rs:378-411 | each type is registered once, a structure after the types of its members, and nothing but types inside the one asked for |
| `TypeInterning.MembersInOrder` | src/source_recorder.rs:385-397 | members are interned in order |
| `TypeInterning.EndsInOneWay` | src/source_recorder.rs:378-411 | what is interned does not depend on how deep calls may nest |
| `TraceValues.VariableDenotesIff` | src/source_recorder.rs:356-365 | an integer variable is recorded if and only if it can be read, which takes at most 32 aliases, and as its bytes' value if and only if `decode_base` records it right; one too big to reserve panics |
| `TraceValues.ResultDenotes` | src/source_recorder.rs:313-326 | an integer result of up to 8 bytes is the number in the low bytes of r0; others are not recorded |
| `TracePanics.RecordingNeverPanics` | src/source_recorder.rs:135-279 | recording a valid session panics nowhere, neither slicing a float nor reserving a variable |
| `TracePanics.RecordingNeverPanicsIff` | src/source_debug.rs:394-411 | given types that end and sized float parts, recording panics on no execution at all if and only if no frame that can be on top has, at a slot with a position, a located variable of 2^63 bytes or more |
| `TracePanics.HugeLocalPanics` | src/source_debug.rs:411 | one slot, one function and one variable for which it does |
| `SourceRecorder.Recorder.EmitCall` | src/source_recorder.rs:288-292 | one call event |
| `SourceRecorder.Recorder.UnwindInlined` | src/source_recorder.rs:282-286 | one return per open inlined call |
| `SourceRecorder.Recorder.EnterOrLeave` | src/source_recorder.rs:152-189 | the frame transition of the previous instruction |
| `SourceRecorder.Recorder.UpdateInlined` | src/source_recorder.rs:192-218 | the longest-common-prefix patch of the top frame |
| `SourceRecorder.Recorder.PatchList` | src/source_recorder.rs:199-217 | the list and events of that patch |
| `SourceRecorder.Recorder.RecordLocals` | src/source_recorder.rs:330-366 | the variables of the innermost frame, in order; a valid session has none that panics |
| `SourceRecorder.Recorder.StepAt` | src/source_recorder.rs:220-246 | a step and its locals at each new position |
| `SourceRecorder.Recorder.Advance` | src/source_recorder.rs:248-257 | shadow and cursor after the instruction |
| `SourceRecorder.Recorder.Turn` | src/source_recorder.rs:147-258 | one loop turn |
| `SourceRecorder.Recorder.CloseOpenFrames` | src/source_recorder.rs:260-278 | the returns that close what is open |
| `SourceRecorder.Recorder.Run` | src/source_recorder.rs:135-279 | the whole trace as a function of the session |
| `TraceNesting.OpenFramesAreTheStack` | src/source_recorder.rs:147-218 | at every snapshot the frames a reader has open are the flattened stack of functions and inlined calls |
| `TraceNesting.TraceIsBalanced` | src/source_recorder.rs:260-278 | every recording, of any input, ends with nothing open |
| `TraceNesting.PrefixesNeverUnderflow` | src/source_recorder.rs:175-186 | no prefix returns from a frame that is not open |
| `TraceNesting.TopFrameFollowsScopes` | src/source_recorder.rs:191-218 | the top frame's inlined list is the inlined scopes around the address |
| `TraceNesting.InlinedAreFiltered` | src/source_recorder.rs:194-198 | the inlined scopes of a chain are all of them, in order |
| `TraceNesting.OnlyTheDifferenceIsPatched` | src/source_recorder.rs:199-215 | only entries beyond the longest common prefix are closed and opened |
| `TraceNesting.LocalsBelongToTopFrame` | src/source_recorder.rs:337-349 | the variables recorded are those of the frame on top of the trace |
| `StackMirror.StackMirrorsVmIff` | src/source_recorder.rs:152-189 | the stack names the machine's call frames at every snapshot if and only if entry and internal calls lead to described functions, never to the next slot |
| `StackMirror.NeverPushedAndConsumed` | src/source_recorder.rs:163-174 | no call is both pushed as a frame and replayed as a syscall, for every input |
| `StackMirror.CallIsPushedOrConsumed` | src/source_recorder.rs:250-257 | every `call imm` before the last instruction is one or the other |
| `StepCompression.EveryPositionIsReached` | src/source_recorder.rs:220-246 | after each snapshot with a position the last step is at it and no frame event follows |
| `StepCompression.LastPositionIsReached` | src/source_recorder.rs:172-216 | the remembered position is always the one the log has reached |
| `StepCompression.RepeatedStepsAreSeparated` | src/source_recorder.rs:222-224 | two steps at one position have a frame event or another step between them |
| `StepColumns.StepsHaveTheirColumns` | src/source_recorder.rs:226-241 | every step of every trace has the column of its position exactly when that lies inside the text of its line |
| `Base58.CarryStep` | src/account_decoder.rs:170-174 | one digit's step: the carry stays below 256, the digit below 58, the value is kept |
| `Base58.PassDigits` | src/account_decoder.rs:170-174 | the inner loop multiplies by 256 and adds the byte, up to the carry |
| `Base58.LastCarry` | src/account_decoder.rs:175-178 | a carry is left over unless there were no digits, so the top digit is not zero |
| `Base58.AddByte` | src/account_decoder.rs:169-178 | both loops keep the numeral canonical and take in one byte |
| `Base58.Digits` | src/account_decoder.rs:167-179 | the digits are the canonical base-58 numeral of the big-endian number |
| `Base58.Encode` | src/account_decoder.rs:156-189 | the text is the standard's, and the decoder gives the bytes back |
| `Base58.CanonicalIsUnique` | src/account_decoder.rs:167-179 | a number has one canonical numeral |
| `Base58.DecodeEncode` | src/account_decoder.rs:156-189 | decoding inverts encoding, leading zero bytes included |
| `Base58.EncodeIsInjective` | src/account_decoder.rs:156-189 | no two byte strings share a text |
| `Base58.EncodeDecode` | src/account_decoder.rs:156-189 | every text over the alphabet is the encoding of its decoding |
| `Base58.AlphabetIff` | src/account_decoder.rs:157 | the letters are the ASCII digits and letters but 0, O, I and l |
| `Base58.KnownText` | src/account_decoder.rs:156-189 | the text of one byte string |
| `Borsh.BorshDecoder.constructor` | src/account_decoder.rs:203-205 | positioned at the start |
| `Borsh.BorshDecoder.Remaining` | src/account_decoder.rs:208-210 | what was read and what remains make up the data |
| `Borsh.BorshDecoder.ReadU8` | src/account_decoder.rs:213-218 | the byte under the cursor, or an error that moves nothing |
| `Borsh.BorshDecoder.ReadU16` | src/account_decoder.rs:221-226 | two little-endian bytes, or an error that moves nothing |
| `Borsh.BorshDecoder.ReadU32` | src/account_decoder.rs:229-234 | four |
| `Borsh.BorshDecoder.ReadU64` | src/account_decoder.rs:237-242 | eight |
| `Borsh.BorshDecoder.ReadI64` | src/account_decoder.rs:245-250 | eight, in two's complement |
| `Borsh.BorshDecoder.ReadBool` | src/account_decoder.rs:253-256 | any non-zero byte is true |
| `Borsh.BorshDecoder.ReadString` | src/account_decoder.rs:259-268 | length, then well-formed UTF-8; the length stays consumed on a failure |
| `Utf8.Utf8Iff` | src/account_decoder.rs:265 | the strings let through are exactly the encodings of Unicode scalar values (sections 3 and 4 of RFC 3629) |
| `Borsh.BorshDecoder.ReadPubkey` | src/account_decoder.rs:271-280 | 32 bytes |
| `Borsh.BorshDecoder.ReadVec` | src/account_decoder.rs:283-290 | the count, then the elements until one fails |
| `Borsh.BorshDecoder.Skip` | src/account_decoder.rs:293-300 | moves by n, or an error that moves nothing |
| `Borsh.BorshDecoder.DecodeType` | src/account_decoder.rs:303-324 | value and cursor are the specification's at every nesting depth |
| `Borsh.DecodeIff` | src/account_decoder.rs:303-324 | decoding gives v and stops at `end` if and only if v has the type and the bytes up to `end` spell it, up to the byte of a true |
| `Borsh.DecodeEncode` | src/account_decoder.rs:201-325 | an encoding decodes to its value wherever it stands, and the cursor moves by its length |
| `Borsh.TruncatedFails` | src/account_decoder.rs:201-325 | an encoding cut short fails: the format is prefix-free |
| `Borsh.DecodeAccountData` | src/account_decoder.rs:345-374 | the method computes the account's fields or its error |
| `Borsh.AccountIff` | src/account_decoder.rs:345-374 | success with these fields if and only if the account is a struct of them and the data after 8 bytes starts with their spelling in order |
| `Borsh.AccountRoundTrip` | src/account_decoder.rs:345-374 | any discriminator and encoded fields decode to the fields |
| `BorshNames.OneByteNames` | src/account_decoder.rs:306-311 | what "u8" and "bool" read, or an error that moves nothing |
| `BorshNames.TwoByteName` | src/account_decoder.rs:307 | "u16" |
| `BorshNames.FourByteName` | src/account_decoder.rs:308 | "u32" |
| `BorshNames.EightByteNames` | src/account_decoder.rs:309-310 | "u64" and "i64" |
| `BorshNames.KeyName` | src/account_decoder.rs:313 | "publicKey" |
| `BorshNames.TextName` | src/account_decoder.rs:259-268 | "string": length, text and the three ways to fail, the length staying read |
| `BorshNames.OtherNames` | src/account_decoder.rs:314 | no other name is read |
| `BorshNames.VectorFailure` | src/account_decoder.rs:283-321 | a vector fails for want of its count or as its first failing element does; other maps are not read |
| `BorshNames.AccountErrors` | src/account_decoder.rs:339-359 | which account is meant, and the errors before its fields |
| `BorshNames.FirstFieldFailure` | src/account_decoder.rs:361-369 | the error of the first field that fails |
| `BorshNames.TypeNames` | src/account_decoder.rs:84-98 | the type names shown |
| `Cpi.CpiDetector.constructor` | src/cpi.rs:57-66 | the primary program alone |
| `Cpi.CpiDetector.AddProgramRange` | src/cpi.rs:69-71 | one known range more |
| `Cpi.CpiDetector.ProcessSnapshot` | src/cpi.rs:74-119 | event and stack of one snapshot |
| `Cpi.TopHasPcIff` | src/cpi.rs:100-118 | after a snapshot the top range has the pc, except at the last address when nothing covers it |
| `Cpi.LastAddressIsCalledAgain` | src/cpi.rs:111 | there each snapshot is reported as one more call |
| `Cpi.StepKeepsSound` | src/cpi.rs:74-119 | one snapshot keeps the primary at the bottom, ranges disjoint, and each context owner of its range |
| `Cpi.RunsAreSound` | src/cpi.rs:74-119 | so does every run |
| `Cpi.TopIsResolved` | src/cpi.rs:132-138 | the current program is what a stateless lookup of the pc gives |
| `Cpi.FirstIsFound` | src/cpi.rs:100-112 | where ranges meet, the one registered first counts |
| `Cpi.ForeignContext` | src/cpi.rs:100-112 | a foreign address is a context of its own, named by its decimal numeral |
| `Cpi.CpiDetector.AnswersAreResolved` | src/cpi.rs:122-138 | current program, depth and whether in a foreign program, as the lookup of the last pc says |
| `Cpi.EventMeaning` | src/cpi.rs:74-119 | each event says whether the pc's program is current, on the stack or not on it; a return lands on its only context |
| `Cpi.LateRangeIff` | src/cpi.rs:69-71 | a range added during a run keeps this exactly when no stacked context already stands in it |
| `Cpi.DepthIsBounded` | src/cpi.rs:122-124 | no context twice; the depth is at most the other known programs plus the distinct foreign addresses seen |
| `LineTable.ReadLineLengths` | src/recorder.rs:67-89 | the lengths of the file's lines, capped at 2^32 - 1 |
| `LineTable.JoinSplit` | src/recorder.rs:75-88 | the lines put together again are the file |
| `LineTable.LinesAreCounted` | src/recorder.rs:75-88 | as many lines as newline bytes, and one more unless the file ends in one |
| `LineTable.LengthsAddUpIff` | src/recorder.rs:75-88 | lengths and newlines add up to the file's size if and only if every line is below 2^32 bytes |
| `LineTable.LongLineIsCutShort` | src/recorder.rs:82-83 | a line of 2^32 bytes is recorded one short |
| `LineTable.OffsetIsPrefixSum` | src/source_recorder.rs:226-230 | the offset of a line and column is the sum of the lengths and newlines before it |
| `LineTable.OfferedIsInvertible` | src/source_recorder.rs:226-235 | a line and column inside the text names that byte, never a newline, and is recoverable from its offset |
| `LineTable.OfferedColumnIsInvertible` | src/source_recorder.rs:231-235 | the recorder's filter offers such pairs only |
| `LineTable.EveryByteIsOffered` | src/source_recorder.rs:226-235 | every byte that is not a newline is named by such a pair |
| `LineTable.OffsetsAreInjective` | src/source_recorder.rs:226-235 | different pairs have different offsets |
| `SourcePaths.PathInterner.constructor` | src/recorder.rs:399-405 | empty caches, nothing registered |
| `SourcePaths.PathInterner.Ensure` | src/recorder.rs:414-437 | returns the canonical path; caches and registrations are those of the calls so far |
| `SourcePaths.PathInterner.EnsureNew` | src/recorder.rs:418-437 | the part for a new spelling |
| `SourcePaths.PathInterner.ReadTable` | src/recorder.rs:424-431 | the table at the recorded path, else beside the source |
| `SourcePaths.PathInterner.HasTable` | src/recorder.rs:447-449 | true exactly when the file's first mention had a non-empty table |
| `SourcePaths.FlagsAre` | src/recorder.rs:447-449 | a file's flag is that of its first mention |
| `SourcePaths.EachFileOnce` | src/recorder.rs:423-434 | each file mentioned is registered exactly once, as of its first mention, and no other file is |
| `SourcePaths.ReturnedPathsAreRegistered` | src/recorder.rs:414-449 | a returned path's file is registered by the first return and stays so, and its flag says whether with a table |
| `SourcePaths.ReturnedTextIsRegisteredIff` | src/recorder.rs:366-372 | the returned text was registered if and only if the file's first mention has the same text |
| `SourcePaths.SecondSpellingIsReturnedUnregistered` | src/recorder.rs:366-372 | two spellings for which it was not |
| `SourcePaths.SameLogicalSourceIff` | src/recorder.rs:497-512 | two paths match if and only if the pieces of one end the other's |
| `PathMeaning.SpellingsOfOnePath` | src/recorder.rs:380 | doubled slashes, "." and a slash at the end do not make another path |
| `PathMeaning.PlainPathsAreTheirPieces` | src/recorder.rs:380 | and paths without them are their pieces, and whether they start at the root |
| `PathMeaning.CanonicalNamesTheFile` | src/recorder.rs:343-362 | the path a file is recorded under names it: the anchor for every spelling of it, an absolute path as it is, a relative one below the crate if it is there |
| `PathMeaning.JoinedIs` | src/recorder.rs:356 | a path below a directory |
| `PathMeaning.TableIsFound` | src/recorder.rs:424-431 | the line table is that at the recorded path or beside the source; none for names in angle brackets |

## Left out

- Syscalls.CopyCopies: says nothing of the bytes an overlapping `sol_memcpy_` leaves, because the source does not define them; they are a parameter.
- ValueDecoding.NestingIsBounded: assumes that alias chains end; on a cycle of aliases the source itself does not return. That interning the record's types ends is `TypeInterning.InterningEndsIff`.
- FrameCopies.FlaggedRegistersEqualR10: holds along straight runs that do not write r10; soundness across calls, jumps and r10 adjustments is not claimed by the code.
- FrameReach.RelocatedAccessesWithinDepthIff: assumes a text the machine's verifier admits, in which the classic memory classes hold only the instructions of the encoding.
- FrameVariables.FbregReadsBelowR10: covers variables located by `DW_OP_fbreg` alone; inlined scopes and location lists are not part of what the frame size covers.
- Borsh.BorshDecoder.ReadVec: the memory reserved for the announced count is not modelled; fewer than 2^32 elements never overflow a capacity, but the memory may not be there.
- TracePanics.RecordingNeverPanics: memory, the stack included, is taken to suffice; a reservation of less than 2^63 bytes succeeds.
- The ELF, DWARF and line-program byte formats: functions, scopes, types, rows and locations are inputs, and of location expressions only `DW_OP_fbreg` and a register are kept.
- Stores that name registers 12 to 15: the source panics on them, and the programs it runs have passed the machine's verifier; texts without them are assumed.
- The register dump: snapshots are given as parsed register files.
- The virtual machine's arithmetic, jumps and metering: left open; only memory effects, calls, exits, faults and the results of syscalls are pinned. Opcodes that are neither stores, calls nor `exit` may set registers and pc freely.
- Host pointers and the memory mapping behind the syscalls: guest reads and writes of mapped ranges.
- The payload text of logged syscalls, and the log syscalls other than `sol_log_` and those that stop the program: they write no guest memory.
- The ids the trace writer gives to types and functions, and the names registered with them (`named_type`, `function_id`, `type_name`): records carry the type reference itself. The file a function is declared in is an index the builder made into its own table, so looking it up succeeds.
- Floating-point values: kept as their bit patterns.
- The cut of a line number to 32 bits: positions hold the line as the index keeps it. Line 2^32 is kept as line 0, which is recorded without a column.
- The trace writer and its file format: a sequence of events stands for what it is told.
- The file system while paths are interned: two fixed functions; the directory of the source and the user's crate root are given, so the search in `SourcePaths::new` is not part of this model.
- Overflow checks of debug builds: sums wrap as in release builds.
- `record_from_snapshots_into_writer`, `record_with_cpi` and the source-text synthesiser of `src/recorder.rs`: heuristics with no crisp meaning.
- The command line, RPC client, on-chain replay and packaging: plumbing.
