# Verified models of bpfvm

bpfvm runs BPF programs in user space: an interpreter with a software MMU, a
JIT for AArch64, a linker that makes executables, shared objects and merged
relocatable files, a POSIX layer with threads and signals, a debug server and
a libffi port. This project models the parts of it whose correctness is
hardest to see, and proves that they do what they are for.

The models follow the code. Value computations are functions, objects with
mutable fields are classes, loops are methods with invariants, and protocols
between threads are state machines over all interleavings. Each method is
proved to compute a specification function, and the theorems are about that
function, over all inputs or all runs.

| files | subject |
|---|---|
| `Leb128`, `Bytes`, `LocationExpr`, `ExprScan` | LEB128 numbers, byte vectors, location expressions |
| `DwarfUnit`, `DwarfRewrite`, `DwarfSection`, `DwarfPass` | rebuilding `.debug_info` units with corrected frame offsets |
| `DwarfReader` | the standard's reading of the units, before and after |
| `DwarfFrames` | which function, and which frame size, an entry belongs to |
| `LocLists`, `LocListsPass`, `LoclistsBase`, `ListFrames` | rebuilding `.debug_loclists` and remapping its users |
| `LocListMeaning` | the standard's location lists, before and after |
| `ListsCorrected` | the three debug passes together, over all units |
| `Words`, `BitLaws`, `BpfAlu`, `BpfMeaning` | machine words, the interpreter's arithmetic and what RFC 9669 says of it |
| `Arm`, `AluEmitter`, `Emitter` | the AArch64 code for it |
| `JitFlow`, `JitCode`, `JitSim`, `JitVm` | reachable code, linked fragments, simulation, by guest addresses |
| `JitCache`, `JitHot` | the compile cache |
| `Futex`, `FutexRuns` | futex wait and wake |
| `Frames`, `StackRuns`, `FrameLayout`, `Restarts`, `InlineFrame` | stack frames, calls, signals, syscall restarts, the inline push and exit |
| `Mmu`, `InlineTlb` | segments, TLB, copy-on-write, the inline lookup |
| `AllStop`, `AllStopRuns` | the debug server's all-stop protocol |
| `PartialLink`, `MixedSections` | `-r` links |
| `Plt`, `Layout`, `SysvHash` | call relocations, frame slots, PLT stubs, image layout, the hash section |
| `Ffi` | foreign calls and closures |

Where the code does not have a property one would expect, the project keeps
the code as it is and proves exactly when the property holds:

- a 64-bit JSET with a negative immediate compiles to a different test than
  the interpreter makes (`Emitter.BranchAgreesIff`);
- the scan for frame-based operators takes operand bytes for opcodes
  (`ExprScan.ScanRightIff`);
- the inline push stores the frame size unmasked (`InlineFrame.PushRefines`);
- the linker takes DW_FORM_ref_addr, a section offset, for a ULEB128 number
  (`DwarfReader.DecodingAgreesIff`, `DwarfReader.SectionRefSpoiled`);
- the inline exit looks at 56 bytes of a frame where `pop_frame` wants 104
  (`InlineFrame.ExitRefines`);
- a pending syscall restart goes stale when no flag is set at the next look and
  no compiled code is entered, although `src/insn.cpp` means every such syscall
  to be restarted or failed with -EINTR
  (`Restarts.InterruptedConsumedIff`, `Restarts.StaleRestart`);
- a zeroed TLB entry hits for empty accesses (`Mmu.FastEqualsSlowIff`);
- NOBITS sections are 8-aligned only behind a last data section of a multiple of 8 bytes
  (`Layout.NobitsAlignedIff`);
- the arena size of a foreign call wraps at 2^32 (`Ffi.ArenaHoldsIff`, `Ffi.HugeStructWraps`);
- data and NOBITS sections of one name do not mix (`MixedSections.MergedKeepsBytesIff`,
  `PartialLink.MixedKindsMisplace`);
- `-r` links lose defined globals that are neither functions nor objects
  (`PartialLink.DefinedGlobalResolvesIff`);
- call relocations and frame slots truncate silently (`Plt.CallLandsIff`,
  `Plt.FarCallWraps`, `Plt.SlotReadsBackIff`, `Plt.VmFindsFrameSize`).

Two more places where code and comments differ: the second delivery in
`safepoint` is not guarded by the signal depth although the comment above it
says that handlers do not nest, and the early returns of `compile` after the
entry was registered leave it in the counting state, which later calls treat
as failed although the comment calls that impossible. The models follow the
code.

## Model

| member | source | states |
|---|---|---|
| `Leb128.UnsignedRoundTrip` | src/elf_linker.cpp:2388-2390 | Whatever follows it, the unsigned encoding of any number decodes to that number and its own length. |
| `Leb128.SignedRoundTrip` | src/elf_linker.cpp:2391-2398 | The same for signed numbers, positive and negative. |
| `Leb128.UnsignedLocal` | src/elf_linker.cpp:2473-2477 | A terminated number is decoded from its own bytes only: replacing everything behind it changes nothing. |
| `Leb128.SignedLocal` | src/elf_linker.cpp:2562-2566 | The same for signed numbers. |
| `Leb128.TerminatedLast` | src/elf_linker.cpp:2473-2477 | A read stopped inside the input exactly when its last byte has no continuation bit. |
| `Leb128.ReadUnsigned` | src/elf_linker.cpp:2473-2477 | The shift-and-or reading loop finds the decoded value and leaves the cursor behind the number, truncated input included. |
| `Leb128.ReadSigned` | src/elf_linker.cpp:2562-2566 | The signed loop with its sign extension at the last byte does the same. |
| `Leb128.AppendUnsigned` | src/elf_linker.cpp:2388-2390 | The do-while writer appends exactly the encoding for which the round trip holds. |
| `Leb128.AppendSigned` | src/elf_linker.cpp:2391-2398 | The signed writer, with its stop test on sign bit and remaining value, appends that encoding. |
| `LocationExpr.RewriteExprBytes` | src/elf_linker.cpp:2556-2578 | The copy loop subtracts the frame size from every operand its scan meets, and reports a change exactly when the frame size is not zero and there is such an operand. |
| `LocationExpr.RewriteExprCopies` | src/elf_linker.cpp:2575-2577 | Bytes among which the opcode does not occur pass through unchanged and do not disturb what follows. |
| `LocationExpr.RewriteExprMeaning` | src/elf_linker.cpp:2556-2580 | An expression whose operators are `ops` becomes one whose operators are the same, every frame-based offset reduced by the frame size, however the operands were padded. |
| `LocationExpr.EncodesBased` | src/elf_linker.cpp:2567-2568 | A freshly written operand reads back as the corrected offset and is followed by the untouched rest. |
| `LocationExpr.OperandByteIsTakenForBased` | src/elf_linker.cpp:2559-2577 | A concrete expression that the scan corrupts: the operand byte 0x91 of DW_OP_const1u is taken for DW_OP_fbreg. |
| `ExprScan.ScanRightIff` | src/elf_linker.cpp:2556-2580 | For every list of DWARF operators and nonzero frame size: the byte scan gives the right correction if and only if the opcode byte occurs inside no other operator, except as the very last byte of the expression. |
| `ExprScan.Misread` | src/elf_linker.cpp:2560-2568 | Once the scan takes a byte inside another operator for the opcode, the result is wrong whatever the following operators are. |
| `ExprScan.ReadAcross` | src/elf_linker.cpp:2562-2566 | A number read across operator boundaries changes, under the right correction, by nothing or by at least 128 frame sizes; this is why a misread can never come out right by accident. |
| `DwarfUnit.ReadValueLocal` | src/elf_linker.cpp:2548-2634 | Decoding an attribute value by the linker's table of forms depends only on the bytes it consumes. |
| `DwarfUnit.DieOffsetsIncrease` | src/elf_linker.cpp:2523-2532 | The offsets of the entries of a unit strictly increase, so they identify entries. |
| `DwarfRewrite.ScanAgreesWithReader` | src/elf_linker.cpp:2523-2658 | Pass A succeeds on every unit that decodes under the linker's own table of forms, and what it collects is a function of the decoded entries. (How this decoding relates to the standard is DwarfReader.) |
| `DwarfRewrite.EmitDiePatched` | src/elf_linker.cpp:2670-2676 | Filling in the recorded reference slots of a rebuilt entry touches those slots only. |
| `DwarfRewrite.FieldReread` | src/elf_linker.cpp:2548-2631 | Every rewritten attribute is read back, by its unchanged form, as the new value and with the new length. |
| `DwarfRewrite.DiesReread` | src/elf_linker.cpp:2670-2679 | The concatenated rebuilt entries are read back as the same number of entries with the expected contents and offsets, in any context. |
| `DwarfRewrite.ScopesAreEnclosingFrames` | src/elf_linker.cpp:2639-2656 | The stack of optional frame sizes mirrors the open parents of each entry, and each element is the frame size of the innermost enclosing function; addr_base is tracked with it. |
| `DwarfRewrite.CurrentFrameIsEnclosing` | src/elf_linker.cpp:2554-2555 | The frame size subtracted inside an entry is that of the innermost function around it in the tree. |
| `DwarfRewrite.NewDieAt` | src/elf_linker.cpp:2667-2669 | Entry k of the rebuilt unit starts behind the rebuilt entries before it. |
| `DwarfRewrite.NewOffsetAt` | src/elf_linker.cpp:2667-2669 | The offset table sends the old offset of entry k to the new offset of the same entry. |
| `DwarfRewrite.NewOffsetsOnly` | src/elf_linker.cpp:2672-2673 | An offset that starts no entry is not in the table, so such references stay as they are. |
| `DwarfRewrite.OffsetsAgree` | src/elf_linker.cpp:2667-2676 | Old starts, table and new starts agree for all entries of a unit at once. |
| `DwarfRewrite.NewFieldMeaning` | src/elf_linker.cpp:2556-2580 | Each rewritten attribute means what the old one meant: references name the same entry exactly when the new offset fits their width, frame-based locations are reduced by the frame size, everything else is byte-identical. |
| `DwarfRewrite.RewriteKeepsMeaning` | src/elf_linker.cpp:2479-2685 | For every unit the linker can decode: the rebuilt unit decodes, has the same entries with the same codes and attributes, and every attribute keeps its meaning under the frame of its enclosing function, although all lengths and offsets may change. |
| `DwarfRewrite.UntouchedNeedsNothing` | src/elf_linker.cpp:2661-2664 | A unit left alone because nothing was touched contains no attribute that needed correction. |
| `DwarfSection.ScanEditable` | src/elf_linker.cpp:2624-2627 | Every reference slot recorded by pass A lies inside its entry, also in units the scan gives up on. |
| `DwarfSection.Version5Header` | src/elf_linker.cpp:2483-2498 | A unit with the header of DWARF 5 is taken whole, and its version, abbreviation offset and entries are found where the standard puts them. |
| `DwarfSection.Version4Header` | src/elf_linker.cpp:2483-2498 | The same for the header of DWARF 4. |
| `DwarfSection.Dwarf64Stops` | src/elf_linker.cpp:2484 | A unit of the 64-bit format is not taken. |
| `DwarfSection.RewriteUnitHeader` | src/elf_linker.cpp:2677-2681 | A rebuilt unit is again one whole unit: the new unit_length covers it, and version and abbreviation offset are kept. |
| `DwarfSection.RewriteUnitKeepsMeaning` | src/elf_linker.cpp:2479-2685 | The same at the level of unit bytes, header included, for versions 4 and 5, in the linker's decoding. |
| `DwarfSection.RewrittenUnitsSplit` | src/elf_linker.cpp:2481-2489 | The rewritten contribution splits into exactly the rewritten units plus the same unparsed tail. |
| `DwarfFrames.OpenParentsEnclose` | src/elf_linker.cpp:2639-2656 | The scopes open at an entry are those of the entries with children around it in the tree, counted by depth. |
| `DwarfFrames.BaseInForce` | src/elf_linker.cpp:2618-2620 | The address base used for an entry is the last DW_AT_addr_base set in the unit up to and including that entry, and 8 if there is none. |
| `DwarfFrames.AddressAt` | src/elf_linker.cpp:2640-2652 | In a .debug_addr section that holds addresses one behind the other, number n behind the base is read as address n. |
| `DwarfFrames.IndexedFunctionFrame` | src/elf_linker.cpp:2639-2656 | An entry inside a function whose low_pc is the number of an address of .debug_addr, by addrx or addrx1 to addrx4, is corrected by the frame size known for that address, counted from the base in force, and not at all if none is known. |
| `DwarfFrames.LiteralFunctionFrame` | src/elf_linker.cpp:2611-2613 | The same for a function with its address in the entry itself. |
| `DwarfFrames.UnresolvedFunctionFrame` | src/elf_linker.cpp:2640-2652 | An index past the end of the section, or no section, corrects nothing. |
| `DwarfFrames.NoFunctionFrame` | src/elf_linker.cpp:2639-2656 | Outside all functions nothing is corrected. |
| `DwarfReader.FormsAgreeIff` | src/elf_linker.cpp:2589-2634 | The linker's table of forms is that of DWARF 5 (section 7.5.6) for the forms it handles, except exactly for DW_FORM_ref_addr, which it takes for a ULEB128 number. |
| `DwarfReader.DecodingAgreesIff` | src/elf_linker.cpp:2589-2592 | The linker decodes a unit as a reader of the standard does if and only if no entry of the unit uses DW_FORM_ref_addr. |
| `DwarfReader.SectionRefSpoiled` | src/elf_linker.cpp:2589-2592 | A unit with that form which the pass damages: bytes of a section reference are taken for a location, corrected, and the reference then points elsewhere. |
| `DwarfReader.ReaderKeepsMeaning` | src/elf_linker.cpp:2479-2685 | For every unit a reader of the standard can read and that has no such reference: pass A and B succeed, and the reader finds in the rebuilt unit the same entries, each attribute with its meaning kept or corrected for the frame of its enclosing function. |
| `DwarfReader.ReaderKeepsUnit` | src/elf_linker.cpp:2479-2685 | The same for the bytes of a whole unit, rewritten or left alone; left alone means that no attribute needed correction. |
| `DwarfPass.ReadLebAt` | src/elf_linker.cpp:2473-2477 | The cursor version of the number reader, and whether the number ended inside the unit. |
| `DwarfPass.StepAttribute` | src/elf_linker.cpp:2543-2635 | One round of the attribute loop does to the state what the specification does with the value a reader finds there, and fails exactly where the reader fails. |
| `DwarfPass.ScanAttributes` | src/elf_linker.cpp:2543-2635 | The attribute loop of one entry computes the specified scan of its fields, success flag and end included. |
| `DwarfPass.ScanDieAt` | src/elf_linker.cpp:2523-2657 | One round of pass A, null entries and unknown codes included. |
| `DwarfPass.ScanUnit` | src/elf_linker.cpp:2509-2658 | Pass A as the loop with its mutable scope stack, addr_base and list table. |
| `DwarfPass.PlaceDies` | src/elf_linker.cpp:2667-2669 | The accumulating loop builds the offset table for which NewOffsetAt and NewOffsetsOnly are proved. |
| `DwarfPass.PatchOne` | src/elf_linker.cpp:2670-2676 | Writing the slots of one entry in order gives the specified bytes. |
| `DwarfPass.AssembleUnit` | src/elf_linker.cpp:2677-2681 | Header, patched entries and backfilled length make the specified unit. |
| `DwarfPass.RewriteUnitBytes` | src/elf_linker.cpp:2482-2684 | The loop body for one unit returns a replacement exactly when the specification changes the unit, and always returns the list table. |
| `DwarfPass.CollectRewrites` | src/elf_linker.cpp:2481-2685 | The unit loop of one contribution: splicing the collected replacements in gives the specified bytes. |
| `DwarfPass.ApplySplices` | src/elf_linker.cpp:2698-2711 | The final rebuild copies the gaps and puts each replacement where the old unit was. |
| `DwarfPass.FixFbregOffsets` | src/elf_linker.cpp:2344-2713 | The whole pass over a section with several contributions yields the section made of the rewritten contributions and the untouched gaps, and the frame size table of the location lists. |
| `LocLists.ListRoundTrip` | src/elf_linker.cpp:2836-2853 | A list of well-formed entries, written and followed by anything, is read back as itself. |
| `LocLists.RebuiltListReads` | src/elf_linker.cpp:2807-2835 | A rebuilt list reads as the old entries with corrected expressions, whatever comes behind it. |
| `LocLists.RebuildLookup` | src/elf_linker.cpp:2865-2884 | In a rebuilt contribution, index i leads through the new offset table to list i. |
| `LocLists.ContributionLookup` | src/elf_linker.cpp:2776-2886 | Looking up any index in a rebuilt contribution gives the corrected old list. |
| `LocLists.NewLookup` | src/elf_linker.cpp:2858-2863 | The same whether or not the contribution was rebuilt: a list that was not corrected did not need it. |
| `LocLists.KeysDistinct` | src/elf_linker.cpp:2594-2600 | The key "base plus index" belongs to one list only, over all contributions of the section. |
| `LocLists.RemapAt` | src/elf_linker.cpp:2909-2912 | The recorded new base of a contribution is 12 bytes behind the place its bytes went. |
| `LocLists.PlacedAt` | src/elf_linker.cpp:2905-2915 | Every contribution is found unbroken at its recorded place in the new section. |
| `LocLists.SectionLookup` | src/elf_linker.cpp:2734-2919 | For every contribution and index: the remapped base and the same index find, in the new section, the old list reduced by the frame size recorded under its key, for any table of frame sizes. (That the recorded one is right is ListsCorrected.TableIsRight.) |
| `LocListsPass.CopyUlebs` | src/elf_linker.cpp:2798-2801 | Copies a given count of numbers, or fails exactly when one is cut off. |
| `LocListsPass.CopyOperands` | src/elf_linker.cpp:2842-2851 | Copies the address part of an entry of any kind. |
| `LocListsPass.CopyExpr` | src/elf_linker.cpp:2807-2835 | Copies a length-prefixed expression with its breg10 operands corrected and the prefix recomputed. |
| `LocListsPass.CopyEntry` | src/elf_linker.cpp:2837-2853 | One entry: accepted exactly when a reader accepts it, and its corrected encoding appended. |
| `LocListsPass.RebuildList` | src/elf_linker.cpp:2782-2856 | One list: rebuilt as the encoding of the corrected entries, with an exact change flag. |
| `LocListsPass.Assemble` | src/elf_linker.cpp:2865-2884 | Offset table, bodies and backfilled length make the rebuilt contribution. |
| `LocListsPass.RebuildContribution` | src/elf_linker.cpp:2776-2886 | The three phases give the specified contribution, or the old bytes when a list is malformed or nothing changed. |
| `LocListsPass.AcceptSpans` | src/elf_linker.cpp:2754-2774 | The contributions taken up are in order and well-formed, and every one that is a single unit is taken up. |
| `LocListsPass.FixLoclists` | src/elf_linker.cpp:2734-2919 | The whole pass yields the new section and the map from old to new bases of SectionLookup. |
| `LocListMeaning.EntryReads` | src/elf_linker.cpp:2837-2853 | Each of the seven kinds of entries of section 7.7.3 of DWARF 5, with its numbers padded or not, is read whole as that entry. |
| `LocListMeaning.ListReads` | src/elf_linker.cpp:2836-2854 | So is a list of them up to its end-of-list entry. |
| `LocListMeaning.NewExprCorrected` | src/elf_linker.cpp:2812-2830 | The rewritten expression has the same operators with every DW_OP_breg10 offset reduced by the frame size, and is untouched without one. |
| `LocListMeaning.RebuiltListWritten` | src/elf_linker.cpp:2782-2856 | The rebuilt list is a list of the standard: the same kinds with the same numbers and addresses, expressions corrected. |
| `LocListMeaning.ContributionReads` | src/elf_linker.cpp:2765-2785 | A contribution written as section 7.29 says is accepted, and each index leads to its list. |
| `LocListMeaning.NewContributionWritten` | src/elf_linker.cpp:2858-2886 | The rewritten contribution is again one of the standard with the same lists corrected, rebuilt or left alone. |
| `LocListMeaning.SectionWritten` | src/elf_linker.cpp:2734-2919 | At the remapped base of every such contribution the new section holds a contribution of the standard whose lists are the old ones with the frame size recorded for each list subtracted. |
| `LocListMeaning.CorrectedDenotes` | src/elf_linker.cpp:2807-2835 | Whatever a lookup finds corrected stands for the corrected entries of the standard. |
| `LoclistsBase.OverwriteField` | src/elf_linker.cpp:3069-3079 | Overwriting one fixed-size attribute in place changes that attribute and no other, nor any length. |
| `LoclistsBase.RemapFieldBytesReads` | src/elf_linker.cpp:3048-3079 | An entry whose loclists_base slot was rewritten reads as the same fields with the base mapped. |
| `LoclistsBase.RemappedDiesRead` | src/elf_linker.cpp:3038-3080 | The remapped unit reads as the same entries at the same offsets; only moved loclists_base values differ. |
| `LoclistsBase.FindSlot` | src/elf_linker.cpp:3047-3067 | The skipping loop finds the offset of the last loclists_base slot of an entry, and fails exactly where a reader fails. |
| `LoclistsBase.FindFieldPatch` | src/elf_linker.cpp:3048-3079 | The patch of one entry's fields, applied, is the specified remapping. |
| `LoclistsBase.FindPatch` | src/elf_linker.cpp:3042-3080 | The same for a whole entry, null entries and unknown codes included. |
| `LoclistsBase.RemapUnitInPlace` | src/elf_linker.cpp:3040-3080 | Writing the slots of one unit in place as the cursor moves gives the specified unit. |
| `LoclistsBase.RemapOneUnit` | src/elf_linker.cpp:3023-3036 | Units of other versions or without a table are left alone. |
| `LoclistsBase.RemapSection` | src/elf_linker.cpp:3015-3082 | The pass over the merged section as one stream of units. |
| `ListFrames.FieldsRegister` | src/elf_linker.cpp:2594-2622 | An entry registers its location lists under the base in force, with the frame size of the enclosing function, and leaves other keys alone. |
| `ListFrames.BaseTracked` | src/elf_linker.cpp:2620-2622 | The base used for keys is the last loclists_base set before the entry. |
| `ListFrames.TableHolds` | src/elf_linker.cpp:2594-2600 | After any number of entries, a key is in the table exactly when an entry refers to it or it was there before, and then holds the frame size of a function referring to it. |
| `ListFrames.ListHasItsFunctionsFrame` | src/elf_linker.cpp:2594-2600 | A list that only functions of one frame size refer to is corrected with that frame size. |
| `ListsCorrected.SeenLists` | src/elf_linker.cpp:2594-2622 | What the scan of any unit records, malformed ones included, is what the entries it gets through refer to. |
| `ListsCorrected.TableOverUnits` | src/elf_linker.cpp:2594-2600 | Over all units of all contributions: a key holds the frame size of some function referring to it, or no entry refers to it and it is as before. |
| `ListsCorrected.SameKeySameList` | src/elf_linker.cpp:2594-2600 | References from any two units that have the same key are to the same list. |
| `ListsCorrected.TableIsRight` | src/elf_linker.cpp:2344-2713 | The frame size that the first pass leaves for the list of any reference is the frame size of the function around that reference. |
| `ListsCorrected.NewSplit` | src/elf_linker.cpp:2698-2711 | The rewritten section splits into the rewritten units, in order, over all contributions. |
| `ListsCorrected.RemappedSplit` | src/elf_linker.cpp:3015-3082 | The remapping pass keeps the division of the section into units. |
| `ListsCorrected.RewrittenKeepsLists` | src/elf_linker.cpp:2594-2622 | Rebuilding a unit keeps its list indices and bases, so its references are to the same lists. |
| `ListsCorrected.RefMapped` | src/elf_linker.cpp:3038-3080 | After both passes a reference is at the same place with the same index, under the mapped base. |
| `ListsCorrected.ListFound` | src/elf_linker.cpp:2734-2919 | Old base and index give the old list; mapped base and same index give it reduced by the frame of the referring function. |
| `ListsCorrected.CorrectDebug` | src/elf_linker.cpp:2032-2040 | The three passes, run one after the other on the section bytes. |
| `ListsCorrected.ListsFollowTheirFunctions` | src/elf_linker.cpp:2344-3083 | End to end over all units and contributions: after the three passes a reader of the standard finds every list attribute at its old place, and its index leads, under the base then in force, to the old list with the frame size of the attribute's own enclosing function subtracted. |
| `BpfAlu.Switch64` | src/insn.cpp:1063-1134 | The 64-bit switch, arm by arm, refuses exactly the byte swaps of unknown width and otherwise computes the result AluCorrect is about. |
| `BpfAlu.Switch32` | src/insn.cpp:1145-1219 | The 32-bit switch does the same on the low halves, the early-returning byte swaps included. |
| `BpfAlu.Divide` | src/insn.cpp:1073-1079 | The division arm, zero divisor and overflow included. |
| `BpfAlu.Modulo` | src/insn.cpp:1095-1101 | The remainder arm likewise. |
| `BpfAlu.Interpreter.Alu64` | src/insn.cpp:1056-1136 | One step sets the destination register and no other, or is refused, for r10 or by the switch, and changes nothing. |
| `BpfAlu.Interpreter.Alu32` | src/insn.cpp:1138-1221 | The same for the 32-bit class. |
| `BpfAlu.AluResultFits` | src/insn.cpp:1138-1219 | Every result is a 64-bit word, and every 32-bit operation except the byte swaps leaves the high half clear. |
| `BitLaws.XorBits` | src/insn.cpp:1102-1103 | Bit k of the exclusive or is set exactly when bits k of the operands differ. |
| `BitLaws.AndBits` | src/insn.cpp:1083-1084 | Bit k of the conjunction is set exactly when both are. |
| `BitLaws.OrBits` | src/insn.cpp:1080-1081 | Bit k of the disjunction is set exactly when one of them is. |
| `BitLaws.SwapBytes` | src/insn.cpp:1119-1132 | Byte k of a swapped value of n bytes is byte n - 1 - k. |
| `BpfMeaning.TruncDivQuotes` | src/insn.cpp:1073-1079 | The signed quotient leaves a rest smaller than the divisor and of the sign of the dividend. |
| `BpfMeaning.ShiftRightSignedBits` | src/insn.cpp:1116-1117 | The arithmetic shift moves bits down and repeats the sign bit. |
| `BpfMeaning.ExtendBits` | src/insn.cpp:1105-1114 | The sign-extending moves repeat the top bit of the narrow value. |
| `BpfMeaning.AluMeans` | src/insn.cpp:1056-1221 | For every instruction and all register values the interpreter refuses exactly the byte swaps of unknown width, and otherwise computes what sections 4.1 and 4.2 of RFC 9669 say: sums, products and negations modulo the width, quotients and remainders rounded toward zero with their two special cases, and bitwise operations, shifts, extensions and swaps bit by bit. |
| `BpfMeaning.EmittedCodeMeans` | src/jit/aarch64_emitter.cpp:643-788 | For every instruction that has native code and every machine state, that code leaves in the destination what RFC 9669 says. |
| `Arm.CompareMeans` | src/jit/aarch64_emitter.cpp:205-218 | After CMP, the ten conditions used are the unsigned and signed orders, 32 and 64 bits. |
| `AluEmitter.MovImmSets` | src/jit/aarch64_emitter.cpp:46-83 | Whatever mixture of MOVZ, MOVN and MOVK is chosen, the register gets the value and nothing else changes. |
| `AluEmitter.LslField` | src/jit/aarch64_emitter.cpp:186-191 | The UBFM alias for LSL shifts left, for every count, zero included. |
| `AluEmitter.LsrField` | src/jit/aarch64_emitter.cpp:192-195 | The UBFM alias for LSR shifts right. |
| `AluEmitter.AsrField` | src/jit/aarch64_emitter.cpp:196-199 | The SBFM alias for ASR shifts right with sign. |
| `AluEmitter.MSubIsRemainder` | src/jit/aarch64_emitter.cpp:778-780 | Quotient then multiply-subtract gives the BPF remainder: signed or not, zero divisor and overflow included. |
| `AluEmitter.RegisterOpProduces` | src/jit/aarch64_emitter.cpp:732-788 | With the operands in X0 and X1, the emitted register form leaves the interpreter's result in X0 and touches only X0 to X2. |
| `AluEmitter.ImmediateOpProduces` | src/jit/aarch64_emitter.cpp:732-788 | The same for the immediate forms, short and long immediates of both signs. |
| `AluEmitter.NegProduces` | src/jit/aarch64_emitter.cpp:666-667 | NEG leaves in X0 the negation the interpreter computes, 32 and 64 bits. |
| `AluEmitter.ExtendProduces` | src/jit/aarch64_emitter.cpp:669-687 | The sign-extending moves. |
| `AluEmitter.SwapProduces` | src/jit/aarch64_emitter.cpp:689-719 | The byte swaps and truncations, with the high half clear where required. |
| `AluEmitter.ZeroProduces` | src/jit/aarch64_emitter.cpp:755-761 | Division by the immediate zero gives zero. |
| `AluEmitter.ComputeProduces` | src/jit/aarch64_emitter.cpp:666-788 | All operations that go through X0 compute the interpreter's result. |
| `AluEmitter.NoOpResult` | src/jit/aarch64_emitter.cpp:721-730 | Each operation the peephole skips is an identity up to the clearing of the high half. |
| `AluEmitter.AluCodeAssigns` | src/jit/aarch64_emitter.cpp:643-788 | The code of any accepted instruction assigns the interpreter's result to the destination register's home. |
| `AluEmitter.AluCorrect` | src/jit/aarch64_emitter.cpp:643-788 | For every instruction the emitter accepts and every machine state: the code leaves in the BPF registers exactly what the interpreter computes, and changes no other BPF register. |
| `Emitter.CompareCodeFlags` | src/jit/aarch64_emitter.cpp:1013-1021 | The comparison code sets the flags for the destination and the emitted operand, and keeps all BPF registers. |
| `Emitter.BranchFollowsEmittedOperand` | src/jit/aarch64_emitter.cpp:991-1022 | The chosen condition holds exactly when the BPF comparison holds of the operand the emitter loaded. |
| `Emitter.BranchAgreesIff` | src/jit/aarch64_emitter.cpp:1014-1019 | The branch agrees with the interpreter in all states if and only if the instruction is not a 64-bit JSET with a negative immediate, which the emitter zero-extends and the interpreter sign-extends. |
| `Emitter.FlippedConditionIsOpposite` | src/jit/aarch64_emitter.cpp:523-529 | Flipping the low bit of a condition's number gives its negation, for every condition and state, so the skip over the far branch is taken exactly when the branch is not. |
| `Emitter.PatchReaches` | src/jit/aarch64_emitter.cpp:517-545 | A patched branch keeps its other bits and lands on the target if and only if the distance is a multiple of 4 that fits the field. |
| `Emitter.PatchedBranchesLand` | src/jit/aarch64_emitter.cpp:523-545 | With the fields in use: a conditional branch lands exactly within 1 MiB, an unconditional one exactly within 128 MiB, and the other bits are kept. |
| `Emitter.CodeBuffer.EmitMovImm` | src/jit/aarch64_emitter.cpp:46-83 | The counting and emitting loops produce the sequence of MovImmSets. |
| `Emitter.CodeBuffer.EmitChunks` | src/jit/aarch64_emitter.cpp:60-82 | The loop with its `first` flag, for both starting instructions. |
| `Emitter.CodeBuffer.EmitAddImm` | src/jit/aarch64_emitter.cpp:154-164 | Emits the short form, the negated short form, or the constant through X2. |
| `Emitter.CodeBuffer.EmitSubImm` | src/jit/aarch64_emitter.cpp:165-168 | The same for subtraction. |
| `Emitter.CodeBuffer.EmitExtend` | src/jit/aarch64_emitter.cpp:669-687 | Accepts exactly the specified widths. |
| `Emitter.CodeBuffer.EmitSwap` | src/jit/aarch64_emitter.cpp:689-719 | Accepts exactly the specified swaps and emits the code of SwapProduces. |
| `Emitter.CodeBuffer.EmitImmediate` | src/jit/aarch64_emitter.cpp:732-788 | Emits the code of ImmediateOpProduces. |
| `Emitter.CodeBuffer.EmitMove` | src/jit/aarch64_emitter.cpp:651-664 | Emits the plain moves. |
| `Emitter.CodeBuffer.EmitCompute` | src/jit/aarch64_emitter.cpp:666-788 | Emits the code of ComputeProduces. |
| `Emitter.CodeBuffer.EmitAlu` | src/jit/aarch64_emitter.cpp:643-788 | Succeeds exactly where the specification has code, and then appends the code of AluCorrect. |
| `Emitter.CodeBuffer.EmitCompare` | src/jit/aarch64_emitter.cpp:991-1022 | Refuses other operations without emitting, otherwise appends the comparison and returns the condition. |
| `JitFlow.Discovery.Enqueue` | src/jit/jit_compiler.cpp:249-255 | Marks and queues an unmarked instruction; marks plus queue length is conserved. |
| `JitFlow.Discovery.Jump` | src/jit/jit_compiler.cpp:258-266 | Marks the target and records the back edge. |
| `JitFlow.Discovery.Visit` | src/jit/jit_compiler.cpp:270-312 | After a round, every marked instruction outside the worklist has marked all its successors, and the measure has shrunk. |
| `JitFlow.ClosedCovers` | src/jit/jit_compiler.cpp:270-312 | A set of marks closed under successors covers every path from the entry. |
| `JitFlow.MarksAreReachable` | src/jit/jit_compiler.cpp:268-312 | When the worklist is empty, every reachable instruction is marked and every back edge recorded. |
| `JitFlow.ClearSecondSlots` | src/jit/jit_compiler.cpp:339-348 | The sweep leaves exactly the reachable instructions that are not the second slot of a live wide one. |
| `JitFlow.LoopBodies` | src/jit/jit_compiler.cpp:330-337 | Each loop head gets the span of its longest back edge. |
| `JitFlow.DiscoverReachable` | src/jit/jit_compiler.cpp:229-349 | The result is the set of live instructions of the control flow graph, its loop heads and the function size, for every program. |
| `JitCode.LinkedAt` | src/jit/jit_compiler.cpp:685-709 | The code of each live instruction lies unbroken at its recorded offset. |
| `JitCode.HolePlace` | src/jit/jit_compiler.cpp:719-739 | The place of a pending branch holds the branch to the jump's destination in the linked code. |
| `JitCode.HoleResolves` | src/jit/jit_compiler.cpp:719-733 | What the patch loop looks up is the destination: a live target, the exit for jumps out of the function, or failure. |
| `JitCode.EmitAll` | src/jit/jit_compiler.cpp:685-709 | The emission loop fails exactly on a live instruction the emitter has no code for, and otherwise yields the linked code up to the pending branches, which it lists all. |
| `JitCode.PatchAll` | src/jit/jit_compiler.cpp:719-739 | Patching fails exactly when some jump inside the function has a dead target, and otherwise completes the linked code. |
| `JitCode.Compile` | src/jit/jit_compiler.cpp:651-739 | Compilation succeeds if and only if there is something to compile, the emitter has code for all live instructions and all inner targets are live; the code is then the linked code. |
| `JitCode.TargetsInside` | src/jit/jit_compiler.cpp:719-739 | Every branch of the linked code goes to a piece of that code. |
| `JitCode.PatchedWordsLand` | src/jit/jit_compiler.cpp:719-739 | In a fragment of less than 128 MiB, whatever the sizes of its pieces, every patched branch word decodes to the byte offset of its target. |
| `JitSim.FallThroughOffset` | src/jit/jit_compiler.cpp:685-709 | Falling off the code of an instruction is falling into the code of its successor. |
| `JitSim.AluSimulates` | src/jit/aarch64_emitter.cpp:643-788 | The AArch64 code of an accepted arithmetic instruction takes the BPF registers to those of the interpreter's step. |
| `JitSim.WideSimulates` | src/jit/aarch64_emitter.cpp:46-83 | The code of a wide load leaves the 64-bit value of both slots in the register and keeps the others. |
| `JitSim.CompareSimulatesIff` | src/jit/aarch64_emitter.cpp:991-1022 | The comparison and the inverted skip go the interpreter's way in all machine states if and only if the instruction is not a 64-bit JSET with a negative immediate. |
| `JitSim.StraightSimulates` | src/jit/jit_compiler.cpp:400-481 | One straight-line instruction: code and interpreter reach the same registers, memory and next instruction. |
| `JitSim.JumpSimulates` | src/jit/jit_compiler.cpp:400-481 | Jumps, taken or not, inside or out of the fragment, end where the interpreter goes. |
| `JitSim.BlockSimulates` | src/jit/jit_compiler.cpp:400-481 | The code of any accepted live instruction takes the machine state to one that stands for the interpreter's next state, calls and deoptimising exits included. |
| `JitSim.StepSimulates` | src/jit/jit_compiler.cpp:685-709 | The same from the recorded offset, where a loop head first polls and may leave with the pc of the head. |
| `JitSim.FragmentSimulates` | src/jit/jit_compiler.cpp:651-739 | Any run of the compiled AArch64 code, started at any live instruction, follows the interpreter: after every number of interpreter steps the machine state stands for the interpreter's, or the code has left at a point where pc and registers are the interpreter's; a call is such a point. |
| `JitSim.EntryPoints` | src/jit/jit_compiler.cpp:229-349 | The first instruction and the one behind any live call have code, so the simulation starts and resumes there. |
| `JitSim.ForwardUnlessHead` | src/jit/jit_compiler.cpp:258-266 | An edge of the control flow graph goes forward or to a loop head. |
| `JitSim.CyclesPoll` | src/jit/jit_compiler.cpp:695-701 | A path of control that meets no safepoint advances with every instruction, so it is no longer than the fragment: no cycle runs without polling. |
| `JitSim.StepsAlongEdges` | src/jit/jit_compiler.cpp:258-312 | The interpreter moves along the edges of that graph. |
| `JitVm.Compared` | src/insn.cpp:624-706 | The comparisons of both jump switches are the ones the theorems use, signed and unsigned. |
| `JitVm.Core.Jmp` | src/insn.cpp:618-709 | A 64-bit jump adds its offset in instructions to the pc exactly when taken. |
| `JitVm.Core.Jmp32` | src/insn.cpp:711-778 | A 32-bit one does so on the low halves, its unconditional form by the immediate, and calls and exits of that class are refused. |
| `JitVm.StepByAddress` | src/insn.cpp:1306-1338 | For every instruction that is compiled, one step of the interpreter by instruction numbers is one round of the interpreter by guest addresses: jumps taken or not, two-slot loads with their halves, effects, calls and exits. |
| `JitVm.FragmentFollowsVm` | src/jit/jit_compiler.cpp:651-739 | Main result by addresses: with the program in guest memory, any run of the compiled code from any live instruction follows the interpreter round by round, and where it leaves, pc, registers and memory are the interpreter's. |
| `JitVm.VmMovesAlongEdges` | src/jit/jit_compiler.cpp:270-312 | Wherever the interpreter can go inside the program, the search for reachable code has an edge. |
| `JitVm.Opcodes` | src/jit/jit_compiler.cpp:274-312 | Which opcode bytes are wide loads, unconditional jumps, calls, exits and conditional jumps. |
| `JitVm.Successors` | src/jit/jit_compiler.cpp:279-311 | The edges of the control flow graph, opcode by opcode. |
| `JitVm.CompiledAccesses` | src/jit/aarch64_emitter.cpp:790-990 | The memory instructions that have code, opcode by opcode: plain and sign-extending loads, stores, and the known atomics of 4 and 8 bytes. |
| `JitVm.CompiledOthers` | src/jit/aarch64_emitter.cpp:643-1022 | The other instructions that have code: arithmetic not into r10, two-slot loads, jumps, exits and the three kinds of calls. |
| `JitVm.AluRound` | src/insn.cpp:1333-1334 | The arithmetic round of the interpreter by addresses is the step its methods are proved to take, refusals included. |
| `JitVm.JumpsInside` | src/jit/jit_compiler.cpp:719-739 | A jump to an instruction of the fragment stays in the native code; any other leaves with its target in the pc. |
| `Futex.FutexTable.Register` | src/posix/futex.cpp:93-98 | Appends the waiter to the bucket of its key. |
| `Futex.FutexTable.Detach` | src/posix/futex.cpp:17-28 | Removes the waiter and all dead entries from one bucket, and the bucket when empty. |
| `Futex.FutexTable.Take` | src/posix/futex.cpp:54-76 | Takes up to `val` live waiters from the back, dropping dead ones, and removes an emptied bucket. |
| `Futex.RemainingMembers` | src/posix/futex.cpp:22-27 | Exactly the live others remain, in order, without duplicates. |
| `Futex.PoppedMembers` | src/posix/futex.cpp:67-74 | What is taken is live and from the bucket, no live waiter is lost, and fewer than asked means the bucket is empty. |
| `Futex.PoppedAllLive` | src/posix/futex.cpp:67-74 | With only live waiters, exactly the last `n` are taken, newest first. |
| `Futex.StepInv` | src/posix/futex.cpp:54-114 | Every step of every thread keeps the invariant that ties registrations, wait phases, flags and pending wakes together. |
| `Futex.RunInv` | src/posix/futex.cpp:54-114 | The invariant holds in every state of every run, under any interleaving. |
| `Futex.WakeTakesExactly` | src/posix/futex.cpp:54-80 | In any run a wake takes min(count, waiters) waiters from its key, the newest, and no other bucket changes. |
| `Futex.NoLostWakeup` | src/posix/futex.cpp:84-114 | A waiter that read the word before a write, when a later wake for enough waiters has delivered, is still blocked only if another waker in flight already holds it. |
| `Futex.AllAwake` | src/posix/futex.cpp:77-80 | Once no wake is in flight, no such waiter is asleep. |
| `Futex.SleepersAreWakeable` | src/insn.cpp:841-894 | In every reachable state a sleeping thread is blocked, is in its bucket or in some waker's hands, and a signal sent to it is still owed. |
| `FutexRuns.WaitOutcome` | src/posix/futex.cpp:84-98 | In any run a wait on a word that holds the expected value registers the thread at the end of the bucket and blocks it; on another value it answers -EAGAIN, on an unmapped word -EFAULT, and changes nothing. |
| `FutexRuns.LastWriteHolds` | src/posix/futex.cpp:33-36 | A word holds what the last write to it in the run stored. |
| `FutexRuns.Entered` | src/posix/futex.cpp:84-98 | A thread found waiting or leaving entered by a wait for the value the word held at that moment. |
| `FutexRuns.WokenSince` | src/posix/futex.cpp:77-80 | A thread no longer blocked has been reached by a waker, or picked by an exiting thread, after it entered. |
| `FutexRuns.AnswerMeans` | src/posix/futex.cpp:100-114 | The answer of a wait over any run: 0 only after such a wakeup, a restart only if flagged for interruption while blocked, -ETIMEDOUT only when its time was up and neither had happened. |
| `FutexRuns.WaiterIsWoken` | src/posix/futex.cpp:54-114 | By actions alone: a thread that began to wait before a write to its word is, after a later wake for enough threads has been delivered, blocked only in the hands of another waker. |
| `FutexRuns.BlockedChanges` | src/posix/futex.cpp:84-114 | A thread is blocked exactly from its registration to its wakeup or departure. |
| `FutexRuns.AsleepChanges` | src/insn.cpp:854-885 | It falls asleep exactly by a check that finds it blocked, not interrupted and in time, and any wakeup ends that. |
| `FutexRuns.InterruptedChanges` | src/insn.cpp:861-864 | A thread is flagged exactly from an interruption until it resumes or its number is used anew. |
| `FutexRuns.OwedChanges` | src/insn.cpp:887-894 | A broadcast is owed exactly from an interruption until the next wakeup of any kind. |
| `FutexRuns.ThreadsChange` | src/posix/futex.cpp:17-28 | Threads come and go by creation and destruction only, and are idle when created and after leaving a wait. |
| `FutexRuns.PendingChanges` | src/posix/futex.cpp:59-80 | A waker holds exactly the threads its own wake took and has not delivered yet, in order; no other action touches them. |
| `FutexRuns.BucketChanges` | src/posix/futex.cpp:17-98 | Only a registration, a wake, an exiting thread and a leaving waiter touch the waiters of a word, and only of their own word. |
| `Frames.HeaderFields` | src/insn.h:33-68 | The packed header gives back frame size and alloca length modulo 2^24 and both flags, for all arguments. |
| `Frames.WithAllocaFields` | src/insn.cpp:458-460 | Replacing the alloca length keeps the other fields. |
| `Frames.Vm.PushFrame` | src/insn.cpp:271-321 | The push, field by field on the memory and registers, or no change at all on overflow or an unmapped record. |
| `Frames.Vm.WriteWords` | src/insn.cpp:299-317 | Stores consecutive words and nothing else. |
| `Frames.Vm.PopFrame` | src/insn.cpp:376-417 | The pop, signal frames included. |
| `Frames.Vm.AllocaBy` | src/insn.cpp:436-464 | The adjustment and its error cases. |
| `Frames.Vm.DeliverSignal` | src/insn.cpp:323-374 | Delivery with the pending restart taken into account. |
| `StackRuns.RecordsBelowCallers` | src/insn.cpp:275-291 | In a stack built by calls, each record lies below its caller's locals and alloca area and above the stack bottom. |
| `StackRuns.OverflowTestExact` | src/insn.cpp:278-283 | The header at r10 gives the caller's true reservation, so the overflow test looks at the true end of the stack. |
| `StackRuns.PushChain` | src/insn.cpp:271-321 | A push extends a well-linked stack by one record and keeps it well-linked. |
| `StackRuns.PopReadable` | src/insn.cpp:376-380 | The 104-byte read of a pop stays inside the stack segment if and only if the record is not the first one under a reservation of less than 32 bytes. |
| `StackRuns.PopRestores` | src/insn.cpp:376-417 | A pop restores exactly what the matching push saved and removes one record. |
| `StackRuns.AllocaChain` | src/insn.cpp:436-464 | alloca fails exactly for a negative total, a total over 24 bits or one below the stack bottom; otherwise the stack stays well-linked and the address is the new lower end. |
| `StackRuns.AllocaBlocksAdjacent` | src/insn.cpp:426-434 | Consecutive alloca blocks are adjacent and do not overlap. |
| `StackRuns.InitialChain` | src/insn.cpp:1546-1556 | The sentinel makes a well-linked stack. |
| `StackRuns.StepChain` | src/insn.cpp:271-464 | Every call, return, signal, alloca and ordinary work keeps the stack well-linked. |
| `StackRuns.RunChain` | src/insn.cpp:271-464 | The stack is well-linked in every state of every run. |
| `StackRuns.CallReturns` | src/insn.cpp:659-686 | In any run, when a call returns, the pc is behind the call and r6 to r10 are as before it, whatever happened in between. |
| `StackRuns.SignalTransparent` | src/insn.cpp:323-417 | In any run, when a handler without SA_SIGINFO returns, all registers are as before the delivery, apart from the error code of an interrupted call, and execution resumes at the interruption. |
| `FrameLayout.RecordWords` | src/insn.cpp:299-317 | The record of a call or signal, word by word at its fixed offsets. |
| `FrameLayout.CallEnters` | src/insn.cpp:271-321 | In any run a call is at its target with r0 to r9 unchanged and r10 64 bytes below the caller's reservation, where the record is. |
| `FrameLayout.HandlerEntered` | src/insn.cpp:323-374 | In any run a delivered signal is at its handler with the signal number in r1 and r2 to r9 unchanged, on a record of 128 bytes, or 520 with siginfo, that holds all registers and the place to go back to. |
| `Restarts.DeliverConsumes` | src/insn.cpp:348-357 | A delivery that succeeds always consumes the pending restart. |
| `Restarts.SafepointConsumes` | src/insn.cpp:1225-1255 | So does a safepoint, at any signal depth. |
| `Restarts.RestartConsumedIff` | src/insn.cpp:1269-1305 | A pending restart is consumed before the next guest instruction if and only if a flag is set behind the call in compiled code or before the fetch, or the next instruction has compiled code that is entered. |
| `Restarts.InterruptedConsumedIff` | src/insn.cpp:1269-1305 | The same from the interrupted call itself, made by the interpreter or by compiled code, in terms of what is compiled at the call or behind it. |
| `Restarts.NextIsRun` | src/insn.cpp:1225-1305 | The way to the next instruction is a run of signal deliveries, an empty one exactly when no safepoint is met. |
| `Restarts.InterruptedRun` | src/insn.cpp:1269-1305 | From an interrupted call the record is consumed by the very next action of the run, exactly under that condition. |
| `Restarts.RestartWithoutSignal` | src/insn.cpp:328-339 | An interrupted call whose record is consumed at once without a signal to deliver is about to run again with all its registers and its stack. |
| `Restarts.RestartTransparent` | src/insn.cpp:343-357 | In any run from the interrupted call through a handler to its return: with SA_RESTART the call is about to run again with the r0 to r10 it was made with, otherwise the program is behind it with -EINTR in r0 and the call's other registers. |
| `Restarts.ConsumedOnce` | src/insn.h:419-430 | Once consumed a record does not come back, over any run without another interrupted call. |
| `Restarts.StaleRestart` | src/jit/jit_compiler.cpp:99-126 | From any state at a call where the condition fails there is a run in which arbitrary guest work follows and a later safepoint without signal jumps back to the call with the registers of that work. |
| `InlineFrame.FrameArithmeticRuns` | src/jit/aarch64_emitter.cpp:1376-1386 | The emitted arithmetic computes the new frame base and branches to the overflow stub exactly below the stack bottom. |
| `InlineFrame.PushHeadRuns` | src/jit/aarch64_emitter.cpp:1374-1388 | Header read, overflow test and write probe end as the C++ push does, without touching the BPF registers. |
| `InlineFrame.SevenStores` | src/jit/aarch64_emitter.cpp:1398-1407 | The stores lay out the seven words of the record. |
| `InlineFrame.PushRefines` | src/jit/aarch64_emitter.cpp:1369-1412 | The inline push runs to the end exactly when `push_frame` succeeds and then leaves the same registers; the record is the same if and only if the frame size fits in 24 bits. |
| `InlineFrame.ExitHeadRuns` | src/jit/aarch64_emitter.cpp:1587-1605 | The head of the inline exit tells the bottom of the stack, signal frames and normal frames apart. |
| `InlineFrame.ExitRefines` | src/jit/aarch64_emitter.cpp:1583-1632 | The inline exit tells bottom, signal and normal frames apart exactly, and agrees with `pop_frame` on the way it leaves and on the whole machine if and only if `pop_frame` can read its 104 bytes or the return address is zero. |
| `Mmu.Memory.constructor` | src/insn.h:384 | A new memory has no segments and a sound TLB, whatever blocks exist already; all methods keep this. |
| `Mmu.Memory.AddMem` | src/insn.cpp:1341-1350 | Insertion keeps the table sorted and the TLB sound, and adds exactly this segment. |
| `Mmu.Memory.Unmap` | src/insn.cpp:1352-1362 | Removes exactly the segment that starts at the address, or reports that there is none. |
| `Mmu.Memory.FindMap` | src/insn.cpp:1383-1395 | The binary search finds what a linear search for a covering segment finds, for accesses of at least one byte. |
| `Mmu.Memory.ReadSlow` | src/insn.cpp:1397-1405 | The slow path answers as the linear search and keeps the TLB sound. |
| `Mmu.Memory.Read` | src/insn.cpp:1372-1381 | In every reachable state, TLB or not, a read of at least one byte is answered as by linear search over the current segments. |
| `Mmu.Memory.Unshare` | src/insn.cpp:1426-1458 | Resolving copy-on-write keeps every segment's contents and every existing block of memory, leaves the segment unshared, and copies exactly if it was shared. |
| `Mmu.Memory.WriteSlow` | src/insn.cpp:1419-1462 | Succeeds exactly for a covering writable segment whose copy could be made, and then yields a pointer into an unshared block with the same contents. |
| `Mmu.Memory.Write` | src/insn.cpp:1407-1417 | The same with the fast path: a write never reaches a block shared with another address space. |
| `Mmu.Memory.SharedIff` | src/insn.cpp:1427-1432 | A segment is copied instead of taken over exactly when another vm or another segment holds its bytes. |
| `Mmu.FoundIsSearch` | src/insn.cpp:1383-1395 | The predecessor by address is the covering segment, for sorted disjoint segments. |
| `Mmu.EntryHit` | src/insn.cpp:1376-1379 | A hit in a sound TLB entry is a hit in the segment it was filled from. |
| `Mmu.FastEqualsSlowIff` | src/insn.cpp:1372-1381 | Fast and slow path agree for all tables, entries and addresses if and only if the size is not zero (a zeroed entry hits for zero bytes at address 0). |
| `Mmu.StealKeeps` | src/insn.cpp:1427-1431 | Taking over the only reference keeps the table invariants and all contents. |
| `Mmu.CopyKeeps` | src/insn.cpp:1432-1456 | So does copying into a fresh block. |
| `InlineTlb.IndexRuns` | src/jit/aarch64_emitter.cpp:559-567 | The emitted shifts, mask and additions leave X15 at the slot of the address. |
| `InlineTlb.BoundsRuns` | src/jit/aarch64_emitter.cpp:575-590 | The three comparisons miss exactly outside the entry or on wrap-around. |
| `InlineTlb.WriteRuns` | src/jit/aarch64_emitter.cpp:592-604 | The write checks miss exactly for read-only or copy-on-write entries. |
| `InlineTlb.HitRuns` | src/jit/aarch64_emitter.cpp:606-610 | A hit turns the guest address into the host address. |
| `InlineTlb.InlineLookupAgrees` | src/jit/aarch64_emitter.cpp:551-610 | For every table, address and size below 4096: the emitted lookup hits exactly where the C++ fast path does, leaves the same pointer, and on a miss leaves the address for the slow path; BPF registers survive. |
| `InlineTlb.InlineReadIsSearch` | src/jit/aarch64_emitter.cpp:551-610 | Over a TLB filled from sorted segments, an inline hit is the pointer the linear search gives. |
| `AllStop.ScanRound` | src/gdb_server.cpp:622-648 | The scanning loop computes the round specified. |
| `AllStop.RoundMeaning` | src/gdb_server.cpp:623-648 | A round reports a watched vm in the order preferred, stopped, exited, and `settled` exactly when all attached vms are. |
| `AllStop.VmStepInv` | src/gdb_server.cpp:68-80 | Forks, hooks, catches, exits and POSIX stops keep the invariant. |
| `AllStop.StepInv` | src/gdb_server.cpp:351-421 | So does every action of the server, detach and continue included. |
| `AllStop.RunInv` | src/gdb_server.cpp:596-677 | The invariant holds in every state of every run, with other threads running between scan, stop and decision. |
| `AllStop.AllQuietInControl` | src/gdb_server.cpp:641-662 | Whenever the debugger has control, every vm in the table is attached and settled, or SIGCONT took it out of a POSIX stop since the scan. |
| `AllStop.ReportIsWatchedAndSettled` | src/gdb_server.cpp:649-662 | A reported vm is watched, attached and stopped or exited. |
| `AllStop.DetachedNeverReported` | src/gdb_server.cpp:602-612 | A detached vm is never reported. |
| `AllStop.StopsHold` | src/gdb_server.cpp:367-377 | A stop holds while the debugger is in control, whatever the vms do, unless that vm is detached. |
| `AllStopRuns.FirstIsReported` | src/gdb_server.cpp:630-640 | Among stopped vms, or if there are none among exited ones, the first watched one in the order of the table is reported. |
| `AllStopRuns.WatchedAre` | src/gdb_server.cpp:602-612 | A wait watches the vms it names, or all attached ones of the table. |
| `AllStopRuns.Resumed` | src/gdb_server.cpp:354-364 | Continuing lifts a vm's stop and asks for no step, stepping lifts it and asks for one, and no other vm is touched. |
| `AllStopRuns.NextInstruction` | src/gdb_server.cpp:68-80 | Over any run, the next instruction of a vm released for a step stops it; one told to continue goes past it unless there is a breakpoint. |
| `AllStopRuns.ForkedStops` | src/gdb_server.cpp:398-421 | The child of a traced vm is traced and stopped before its first instruction, with its parent if fork events are wanted. |
| `AllStopRuns.FlagsChange` | src/gdb_server.cpp:351-421 | For each flag of a vm, exactly which actions set and clear it. |
| `AllStopRuns.OnlyForksCreate` | src/gdb_server.cpp:398-421 | A vm comes into being by a fork only, traced and stopped exactly if its parent is traced. |
| `AllStopRuns.TableChanges` | src/gdb_server.cpp:379-421 | The table grows exactly by attaching and by forks of traced vms, and shrinks by detaching and reaping. |
| `JitCache.JitCompiler.FindCounter` | src/jit/jit_compiler.cpp:579-586 | The probing loop takes the matching or free slot, or the least counted of the window. |
| `JitCache.JitCompiler.MarkFailed` | src/jit/jit_compiler.cpp:626-649 | Records the failure and poisons the shadow slots up to the bad instruction, sparing compiled entries. |
| `JitCache.JitCompiler.CompileEntry` | src/jit/jit_compiler.cpp:532-664 | The lookup with shadow cache, table, counting and compilation computes the specified transition. |
| `JitCache.CallsCounted` | src/jit/jit_compiler.cpp:574-592 | The count the threshold is compared with is the number of usable calls for the address since the last clear. |
| `JitCache.CompileHonest` | src/jit/jit_compiler.cpp:532-592 | One call keeps the invariant: shadow slots agree with the table or lie in a poisoned span, and no counter exceeds the usable calls made. |
| `JitCache.HistoryHonest` | src/jit/jit_compiler.cpp:532-592 | The invariant holds after every history of calls and clears. |
| `JitCache.ResultIsCompiled` | src/jit/jit_compiler.cpp:537-592 | A non-null answer is the compiled entry of that address, called usably at least threshold times since the last clear; a compiled entry is always found, shadow collisions and poisoning notwithstanding. |
| `JitCache.CompileKeeps` | src/jit/jit_compiler.cpp:562-593 | A call never changes the record of an address already registered. |
| `JitCache.RegistrationFinal` | src/jit/jit_compiler.cpp:562-593 | Between clears, compiled stays compiled and failed stays failed, over any sequence of calls. |
| `JitHot.ProbeSettles` | src/jit/jit_compiler.cpp:578-588 | The probe settles in the window of eight counters that starts at the address's instruction number, on the first matching or free one or on the least used. |
| `JitHot.HistoryLow` | src/jit/jit_compiler.cpp:588-591 | No history fills a counter up. |
| `JitHot.HotIsCompiled` | src/jit/jit_compiler.cpp:574-593 | After any history, an address the cache knows nothing about is compiled, or marked failed, once it has been asked for threshold times in a row. |
| `JitHot.SpanPoisoned` | src/jit/jit_compiler.cpp:639-648 | Every instruction from a failed entry to the culprit is marked in the shadow cache, except those compiled. |
| `JitHot.FailedSpanIsSkipped` | src/jit/jit_compiler.cpp:626-649 | A call for any such instruction answers at once and changes nothing. |
| `PartialLink.NewSection` | src/elf_linker.cpp:970-989 | Opening an output section keeps all earlier placements, bytes and alignments valid. |
| `PartialLink.MoreOfSection` | src/elf_linker.cpp:990-1008 | So does padding and appending to an existing one. |
| `PartialLink.RegisterKeeps` | src/elf_linker.cpp:1709-1733 | Registering one more symbol keeps every name bound to its first strong definition, or to its first weak one. |
| `PartialLink.RelocationCommutes` | src/elf_linker.cpp:1204-1229 | Relocating commutes with merging: the output symbol means the image of what the input symbol means, strong-over-weak choice and undefined names included. |
| `PartialLink.ImageInjective` | src/elf_linker.cpp:961-1010 | Distinct input bytes have distinct places in the output. |
| `PartialLink.ImageKeepsBytes` | src/elf_linker.cpp:961-1010 | Every byte of a data section is found at its image. |
| `PartialLink.ObjectOrigin` | src/elf_linker.cpp:1178-1234 | Output relocation j of an object carries over its j-th kept input relocation. |
| `PartialLink.OutputOrigin` | src/elf_linker.cpp:1178-1234 | Over all objects: output relocation j is the j-th kept input relocation, with the same kind and addend and with site and symbol mapped. |
| `PartialLink.KeptOnce` | src/elf_linker.cpp:1181-1185 | Every relocation of a placed section, and no other, is in that list, once and in input order. |
| `PartialLink.MergedOk` | src/elf_linker.cpp:961-1010 | For objects that agree on NOBITS for each name, all loadable sections end up placed, aligned, apart and with their bytes. |
| `PartialLink.DefinedGlobalResolvesIff` | src/elf_linker.cpp:1204-1228 | A relocation against a defined global leads to a definition if and only if some object defines the name as FUNC or OBJECT; otherwise to the null symbol or an undefined entry. |
| `PartialLink.FullTable` | src/elf_linker.cpp:1121-1164 | Locals, chosen globals and undefined names together cover everything a relocation can name. |
| `PartialLink.MixedKindsMisplace` | src/elf_linker.cpp:990-1008 | Concrete inputs for which data goes astray when one name is data in one object and NOBITS in another. |
| `PartialLink.Linker.RegisterGlobals` | src/elf_linker.cpp:1709-1733 | Binds every name of all objects to its winning definition and no other name. |
| `PartialLink.Linker.MergeSections` | src/elf_linker.cpp:961-1010 | The loops over objects and sections compute, for any objects, the merge of MergedOk and MixedSections.MergedKeepsBytesIff. |
| `PartialLink.Linker.MergeSection` | src/elf_linker.cpp:964-1008 | One contribution is placed, in a new section or behind its padding in an existing one, whatever the kinds. |
| `PartialLink.Linker.EmitSym` | src/elf_linker.cpp:1108-1119 | Appends the moved symbol and records its index. |
| `PartialLink.Linker.EmitLocals` | src/elf_linker.cpp:1121-1131 | Exactly the local symbols are recorded. |
| `PartialLink.Linker.EmitGlobals` | src/elf_linker.cpp:1134-1142 | Exactly the chosen definitions are added, in any order of the name table. |
| `PartialLink.Linker.EmitUndefined` | src/elf_linker.cpp:1143-1164 | Every undefined name gets an entry. |
| `PartialLink.Linker.BuildSymtab` | src/elf_linker.cpp:1066-1172 | The table is sound and complete for the relocations. |
| `PartialLink.Linker.FindSym` | src/elf_linker.cpp:1209-1227 | The three-step lookup of the output index. |
| `PartialLink.Linker.BuildRelocations` | src/elf_linker.cpp:1178-1234 | The list of carried relocations, in input order. |
| `PartialLink.Linker.Link` | src/elf_linker.cpp:951-1234 | The four passes together: names bound, sections merged, a sound and complete symbol table and the relocations of OutputOrigin, from the loaded objects alone. |
| `MixedSections.KeptIff` | src/elf_linker.cpp:990-1008 | A data section behind the first of its name reaches the file at its recorded offset if and only if the first section of the name is data and no NOBITS section of nonzero size comes before it. |
| `MixedSections.StoredBytes` | src/elf_linker.cpp:1002-1006 | Where the bytes of each contribution are really stored, in any mixture. |
| `MixedSections.MergedIsJoined` | src/elf_linker.cpp:961-1010 | After merging any objects, each output section is the joined contributions of its name, each recorded at its place. |
| `MixedSections.MergedKeepsBytesIff` | src/elf_linker.cpp:961-1010 | Over the whole merge of any objects: the bytes of a later section of a name stand at the offset its symbols and relocations use if and only if the first section of the name is data and no NOBITS section of nonzero size comes before. |
| `MixedSections.MergedPadding` | src/elf_linker.cpp:990-1008 | The other bytes of a merged section are zero, and its alignment is the greatest of its contributions. |
| `Ffi.Prep` | ffi/ffi.c:105-153 | Accepts exactly the valid signatures and computes the arena size modulo 2^32. |
| `Ffi.ArenaHoldsIff` | ffi/ffi.c:108-151 | Every byte of every copy and field lies inside the allocated arena if and only if the call needs less than 2^32 bytes. |
| `Ffi.HugeStructWraps` | ffi/ffi.c:108-151 | A structure of 2^32 bytes is accepted with an arena of no bytes. |
| `Ffi.RegionsDisjoint` | ffi/ffi.c:204-257 | No byte of the arena belongs to two arguments or to both a copy and a packed field. |
| `Ffi.RegionsCover` | ffi/ffi.c:204-257 | Every byte of the arena belongs to some argument. |
| `Ffi.SextKeepsBytes` | ffi/ffi.c:173-188 | Sign extension keeps the argument's own bytes. |
| `Ffi.SextIsValue` | ffi/ffi.c:173-188 | A slot says the signed value of a narrow signed integer in 64-bit two's complement, and the bytes with zeros above for anything else. |
| `Ffi.ArgSlot` | ffi/ffi.c:191-202 | The slot value of an argument, with its copy written and all earlier ones kept. |
| `Ffi.MarshalPlain` | ffi/ffi.c:252-256 | Up to five slots: all values in registers. |
| `Ffi.MarshalPacked` | ffi/ffi.c:242-251 | More slots: the rest in the packed area. |
| `Ffi.VariadicPart` | ffi/ffi.c:225-237 | The variadic arguments, structures by reference. |
| `Ffi.MarshalVariadic` | ffi/ffi.c:222-238 | Named arguments in registers, the variadic part behind them. |
| `Ffi.Marshal` | ffi/ffi.c:204-257 | Every register, copy and packed field holds what the calling convention says, for all accepted signatures and values. |
| `Ffi.Dispatch` | ffi/closures.c:61-105 | The closure side finds each argument in its register, in r5 or in the packed area, and the return buffer. |
| `Ffi.FieldReads` | ffi/ffi.c:246-250 | A packed field gives back the pointer, or the argument's exact bytes. |
| `Ffi.SlotHolds` | ffi/closures.c:79-98 | The value the closure side takes from a register, from r5 or from the packed area is the pointer to the copy of that argument, or holds its exact bytes. |
| `Ffi.VariadicRoundTrip` | ffi/ffi.c:222-238 | Walking the packed area as va_arg does, scalars in place and structures through their pointers, yields every variadic argument's exact bytes in order. |
| `Ffi.RoundTrip` | ffi/closures.c:61-105 | Call then dispatch: every argument of a fixed signature arrives with its exact bytes and the structure return pointer arrives as the return buffer. |
| `Plt.CallLandsIff` | src/elf_linker.cpp:4070-4089 | The relocated call lands on its target if and only if the distance is a multiple of 8 that fits the signed 32-bit field. |
| `Plt.FarCallWraps` | src/elf_linker.cpp:4070-4089 | A call 8 bytes over 16 GiB away goes 16 GiB less 8 bytes the other way. |
| `Plt.SlotReadsBackIff` | src/frame_slot.h:9-17 | A frame size survives the slot if and only if it is below the fallback mark. |
| `Plt.MarkReadsAsNone` | src/frame_slot.h:9-17 | A frame size equal to the mark reads as none. |
| `Plt.FillFrameSlots` | src/elf_linker.cpp:2310-2326 | Every slot holds its function's size or the fallback, and no other byte changes. |
| `Plt.VmFindsFrameSize` | src/insn.cpp:249-269 | The vm reads from the linked image the size the linker wrote if that is below the mark, and falls back to the limit if and only if there was none, or its low half is the mark, or it has high bits the magic number lacks. |
| `Plt.SlotIs` | src/frame_slot.h:9-17 | The word in front of a function is the magic number above its frame size. |
| `Plt.EntryFindsSize` | src/insn.cpp:249-269 | Asked with the address of the function behind a slot, the vm gets the size recorded for that address, or the limit if none is. |
| `Plt.EmitPltStub` | src/elf_linker.cpp:4227-4234 | The byte stores produce the stub and leave everything around it alone. |
| `Plt.StubDecodes` | src/elf_linker.cpp:4227-4234 | The stub decodes to lddw, ldx, call and exit on r6 with the slot's full 64-bit address. |
| `Plt.StubActs` | src/elf_linker.cpp:4227-4234 | Executing the bytes of the stub: r6 gets the address of the slot, then the word in the slot, which is called, and the stub exits. |
| `Plt.StubEnters` | src/elf_linker.cpp:4227-4234 | In any run, a call of a stub whose slot holds f is at f three actions later, with the caller's r0 to r5. |
| `Plt.StubTransparent` | src/insn.cpp:659-686 | In any run that executes the stub's bytes, a call through it reaches the function stored in the GOT slot with its arguments intact and returns behind the call with r6 to r10 as before it and r0 to r5 as the function left them. |
| `Layout.Distribute` | src/elf_linker.cpp:756-770 | The order of a segment: plain sections, then init arrays, then fini arrays. |
| `Layout.BucketMembers` | src/elf_linker.cpp:756-770 | Every loadable section is in its segment's order exactly once and in no other. |
| `Layout.PlaceData` | src/elf_linker.cpp:781-789 | The first pass puts every data section at the next multiple of 8 behind the data before it. |
| `Layout.PlaceSegment` | src/elf_linker.cpp:779-800 | Both passes give the specified offsets and sizes. |
| `Layout.OffsApart` | src/elf_linker.cpp:779-800 | Any two sections of a segment are disjoint and all data lies before all NOBITS. |
| `Layout.NobitsAlignedIff` | src/elf_linker.cpp:790-797 | A NOBITS section is 8-aligned in its segment if and only if the last data section of the segment has a size divisible by 8 or there is none. |
| `Layout.MisalignedBss` | src/elf_linker.cpp:790-797 | A concrete layout in which it is not. |
| `Layout.CursorPages` | src/elf_linker.cpp:804-810 | Segments start on pages of their own, in order, above the header page. |
| `Layout.SectionsDisjoint` | src/elf_linker.cpp:750-816 | Any two sections of the image are disjoint, and sections of different segments share no page. |
| `Layout.RunContiguous` | src/elf_linker.cpp:836-847 | Arrays whose sizes are multiples of 8 are laid out without gaps, so the recorded interval is exactly their contents. |
| `Layout.ArraysContiguous` | src/elf_linker.cpp:753-770 | Init and fini arrays form such runs. |
| `Layout.LayoutSegments` | src/elf_linker.cpp:750-834 | The whole function computes the specified segments and addresses. |
| `Layout.LayoutIsOk` | src/elf_linker.cpp:801-816 | Its segments are in order, page-aligned and apart. |
| `Layout.HeadersFitOnePage` | src/elf_linker.cpp:3643-3657 | The headers fit in the first page, whatever program headers are present. |
| `Layout.LoadsCongruent` | src/elf_linker.cpp:3799-3818 | Every PT_LOAD has congruent offset and address, no more file than memory, and lies apart from the others, also after the first one was extended. |
| `Layout.PhdrCovered` | src/elf_linker.cpp:3772-3798 | PT_PHDR lies inside the extended first PT_LOAD at the matching offset. |
| `Layout.LoadMaps` | src/elf_linker.cpp:3799-3818 | Every PT_LOAD maps its segment's bytes where the layout put them and ends with them; it starts at the head of the file exactly when it is the first one and the header table must be covered. |
| `Layout.FileImagesApart` | src/elf_linker.cpp:3658-3670 | The images of the segments lie one behind the other in the file, behind the page of headers. |
| `Layout.WriteHeaders` | src/elf_linker.cpp:3769-3865 | As many program headers are written as were counted, the table's own first, and one for each used segment. |
| `Layout.DynamicApart` | src/elf_linker.cpp:3686-3704 | The dynamic sections get congruent addresses on pages behind all segments. |
| `SysvHash.ComputeHash` | src/elf_linker.cpp:294-303 | The loop in 32-bit arithmetic computes the hash. |
| `SysvHash.RoundBits` | src/elf_linker.cpp:297-300 | A round of the hash is the gABI's: of the shifted value plus the byte, the low 28 bits with the top four exclusive-ored onto bits 4 to 7. |
| `SysvHash.LinkKeeps` | src/elf_linker.cpp:3437-3440 | Linking one more symbol keeps all chains complete. |
| `SysvHash.Build` | src/elf_linker.cpp:3412-3446 | After the loop every bucket's chain holds exactly the named symbols that hash to it, in order. |
| `SysvHash.ChainIncreases` | src/elf_linker.cpp:3432-3441 | Chain indices strictly increase, so every walk ends. |
| `SysvHash.Lookup` | src/elf_linker.cpp:3412-3446 | The standard lookup in the built table finds the first symbol of that name, and 0 if and only if there is none. |

## Left out

- Leb128.ReadUnsigned: numbers are mathematical integers; the shifts past bit 63 of the C++ loops on over-long input are not modelled.
- Leb128.ReadSigned: the same.
- DwarfPass.StepAttribute: a read past the end of the unit is a failure; the C++ code reads on into the next unit in some of these cases. Parsing the abbreviation tables themselves is not modelled.
- DwarfRewrite.RewriteKeepsMeaning: is about the linker's decoding; a reference names the same entry exactly when the new offset fits its width, since the code truncates it otherwise.
- LocLists.SectionLookup: speaks of contributions of one unit each, which is all the code looks at, of new contributions below 4 GiB, and of any frame table; ListsCorrected has the table the code builds.
- ListsCorrected.ListsFollowTheirFunctions: units fill the section, every reference is to an index of a contribution, all lists can be read, entries sharing a list lie in functions of one frame size (ListFrames.TableHolds says which one wins otherwise), and sizes fit 32 bits.
- DwarfReader.ReaderKeepsUnit: forms that are in neither the linker's table nor this reader's (64-bit DWARF, supplementary files, DWARF 5 indirect forms) are unreadable to both; the pass leaves such units alone.
- DwarfUnit.ReadValueLocal: the linker's reading of each form, DW_FORM_ref_addr included; DwarfReader relates it to the standard.
- DwarfRewrite.ScanAgreesWithReader: likewise in the linker's decoding.
- DwarfRewrite.NewFieldMeaning: likewise in the linker's decoding.
- DwarfSection.RewriteUnitKeepsMeaning: likewise in the linker's decoding.
- ListFrames.ListHasItsFunctionsFrame: is about one unit, and when functions of different frame sizes share a list the last one wins, as TableHolds says; ListsCorrected.TableIsRight is over all units.
- LoclistsBase.FindSlot: only the last loclists_base attribute of an entry is rewritten, as in the code.
- AluEmitter.AluCorrect: the bit patterns of AArch64 instructions are not modelled; an instruction is a value with its architectural meaning.
- JitVm.FragmentFollowsVm: as JitSim.FragmentSimulates, on which it rests.
- FrameLayout.HandlerEntered: with siginfo, r2 and r3 and the bytes above the record are not modelled.
- LocListMeaning.SectionWritten: expressions are corrected operator by operator when the opcode byte occurs as an opcode only; ExprScan.ScanRightIff says what happens otherwise.
- DwarfFrames.IndexedFunctionFrame: an entry has one low_pc, as section 2.2 of DWARF 5 demands.
- JitHot.FailedSpanIsSkipped: spans of up to 65536 instructions, the size of the shadow cache.
- JitSim.FragmentSimulates: arithmetic, wide loads, comparisons, jumps and safepoints are the AArch64 code itself; memory accesses and floating point are an effect of the guest and one of the host that are assumed to agree (InlineTlb is about the lookup). What a call does until it returns, memory faults, the instruction budget and control that runs off the end of the segment are left out.
- JitCode.EmitAll: a memory access, floating point operation or call is one piece of code, whose length is not fixed.
- JitCode.Compile: likewise, and the check of the total size against the buffer is left out.
- Futex.StepInv: a thread is destroyed only when idle, deadlines may fire at any time, and the requeue operation is the wake the code makes of it.
- Frames.Vm.DeliverSignal: the contents of siginfo and ucontext and the sigreturn that reads them are not modelled, so StackRuns.SignalTransparent and Restarts.RestartTransparent are about handlers without SA_SIGINFO.
- StackRuns.RunChain: stack memory is the one stack segment, frame sizes are given with the call, and an atomic fetch into r10 is excluded.
- InlineFrame.PushRefines: host pointers are identified with guest addresses, and the variant that loads the frame size from an inline cache slot is not modelled separately.
- Mmu.Memory.Write: one table and one TLB; several threads of one address space, mprotect and the freeing of host memory are left out.
- Mmu.Memory.AddMem: assumes that the new segment does not wrap and overlaps no other, which the code leaves to its callers; with overlapping segments its binary search has no meaning.
- AllStop.RunInv: the remote protocol's packets and the parsing of vCont are left out; resumption is an action of the state machine.
- JitCache.JitCompiler.CompileEntry: the outcome of the compilation itself is a parameter; JitCode and JitSim are about that.
- PartialLink.MoreOfSection: is for inputs that agree on NOBITS for each name; MixedSections.MergedKeepsBytesIff is about all inputs.
- PartialLink.Linker.BuildRelocations: relocations of debug sections, the grouping by output section, string tables and ELF encoding are left out.
- PartialLink.RelocationCommutes: is for symbols that resolve; DefinedGlobalResolvesIff says which defined globals do not.
- PartialLink.OutputOrigin: likewise for the kept relocations.
- PartialLink.ObjectOrigin: likewise.
- Ffi.Marshal: is for calls that need less than 2^32 bytes, exactly those whose arena holds them (Ffi.ArenaHoldsIff); the ABI check, the thunk pool and the return value store are left out.
- Ffi.MarshalPacked: likewise below 2^32 bytes.
- Ffi.VariadicPart: likewise.
- Ffi.MarshalVariadic: likewise.
- Plt.VmFindsFrameSize: the segment and permission checks of `frame_size_of` are left out.
- Plt.CallLandsIff: addresses are below 2^63.
- Layout.PhdrCovered: assumes one used segment, as the code does; the contents of extra sections and section headers are left out.
- The x86 emitter, floating point, the loader, the rest of the syscalls and the compiler passes would add no harder property and are left out.
