# A verified model of anytrace's unwinder

anytrace unwinds the stack of a stopped process: it finds the frame description of the current
program counter in an `.eh_frame` section, executes its call-frame instructions, reads the caller's
registers from memory and repeats until it meets a stack pointer again. This project models that
unwinder and the pointer structures under it, and proves what they promise.

| module | models | main results |
|---|---|---|
| `RedBlackSpec`, `RedBlackTree` | `npr/red-black-tree.c` | insertion keeps a left-leaning red-black tree and is map update; the unguarded left rotation is harmless; depth is logarithmic; the heap code computes exactly this |
| `FrameLoop` | `anytrace/atr.c` | the unwinding loop terminates for every step function and stops exactly at the first repeat, failure or non-running state |
| `Leb128` | the number readers of `anytrace/atr-backtrace.c` | what every byte run is read as; round trips with their exact ranges |
| `CfaMachine`, `CfaEncoding`, `CfaInterp` | the call-frame interpreter | the chain of heap environments simulates a row machine on every byte program, without leaks; the scan is a table lookup; the decoder inverts an encoder |
| `StandardFrame` | the whole step on a compiler's section, written out byte by byte | from a function entered with `push rbp; mov rbp, rsp; sub rsp, n` the step restores the caller's rsp, rbp and return address, at every pc but one |
| `EhFrame`, `EhFrameEncoding`, `StartState`, `Backtrace` | the record walk and `ATR_backtrace_up` | the walk terminates, tiles the section and executes the first matching frame description; on an encoded section it gives what the list of records means; the uninitialised bytes it starts on cannot matter exactly when the section defines the frame |
| `ChunkAlloc`, `Dlist`, `Bits`, `Mempool` | `npr/chunk-alloc.c`, `npr/list.c`, `npr/bits.h`, `npr/mempool-c.c` | free and live slots partition memory; any run of list operations refines a run on a sequence, over recycled cells; bit smearing rounds up to the least power of two; blocks are aligned and disjoint |
| `SymbolTable`, `IntMap`, `LanguageModule` | `npr/symbol.c`, `npr/int-map.c`, `anytrace/atr-language-module.c` | which interns give one symbol, with any hashes; a rehash keeps every cell; after any registrations a lookup gives the last one's module and argument |
| `Words`, `Lists` | C integer ranges; duplicate-free sequences | |

Objects that the C code updates in place are classes here, with their chains described by ghost
sequences or trees; a method's effect is tied to a function on values, and the theorems are about
those functions. Machine arithmetic is explicit: 32-bit words wrap (`ToWord32`, `ToInt32`), and
what C leaves undefined in reading (a shift of 32 or more, a read beyond the mapped bytes, an index
outside the registers) is an outcome of its own (`Undefined`, `Wild`, `Unreadable`, result -2);
the one exception is named under "Left out".

Results where the code does not do what its surroundings suggest:

- The signed reader cannot read negative numbers below -2^27 (`Leb128.SignedRoundTrip`).
- The operands of `DW_CFA_def_cfa`, the factored offset of `DW_CFA_offset`, the operand of
  `DW_CFA_register`, the code alignment and return column of a CIE and the lengths of augmentation
  data, which DWARF 4 encodes as unsigned LEB128, are read as signed. That is right exactly for
  numbers below 2^31 with the top bit of the last group clear; an offset of 64 is read as -64
  (`Leb128.UnsignedReadAsSigned`, `Leb128.OffsetSixtyFourIsMisread`,
  `CfaMachine.OffsetFactorIsMisread`).
- An unwinding step starts on an uninitialised environment. What it holds can change the frame
  exactly when the section leaves a CFA field undefined, or executes a frame description before
  any CIE (`StartState.DeterminedExactly`); a CIE and an FDE without instructions are such a
  section (`StartState.UndescribedFrame`).
- Advances are not multiplied by the code alignment factor, the scan stops when the location is at
  least the pc (not above it), `DW_CFA_restore` does nothing, `DW_CFA_undefined` only widens the
  columns and `DW_CFA_register` sets the frame register. All theorems are about these meanings.
- Because of that boundary the step is wrong at one address of every such function, the one behind
  the push: there it still takes the row of the entry, gives a stack pointer that is 8 too low and
  takes the caller's rbp for the return address (`StandardFrame.UnwindStandardFrame`).
- A record length of 0xfffffffc stalls the walk (`EhFrame.WrappingLengthStalls`).
- The symbol hash sign-extends its characters, so one step is FNV-1a exactly for octets below 128
  (`SymbolTable.StepIsFnv1a`).
- Interning with caller-supplied hashes gives one symbol per string exactly when equal strings come
  with hashes that select the same chain (`SymbolTable.InternTable.InternAllWithHashes`).
- `new_size` has an answer exactly below 2^30 (`IntMap.NewSize`).
- Clearing a pool on the short path leaves what was charged to its entry charged, and padding is
  charged twice to what remains (`Mempool.Pool.Clear`, `Mempool.Pool.AllocAlign`).

## Model

| member | source | states |
|---|---|---|
| RedBlackSpec.InsertKeepsColors | npr/red-black-tree.c:96-135 | the induction behind insertion, indexed by the subtree's colour: black heights stay equal and unchanged, a black subtree comes back properly coloured (a black 2- or 3-node black), a red one at worst as a red node with a red left child |
| RedBlackSpec.InsertUpdatesContents | npr/red-black-tree.c:96-135 | on every search tree, whatever its colours, insertion keeps search order and replaces exactly one binding |
| RedBlackSpec.InsertRootKeepsRedBlack | npr/red-black-tree.c:138-148 | search order, equal black counts, no red-red edge, right-red only beside left-red and a black root survive an insertion, and the contents are updated at the key |
| RedBlackSpec.EveryReachableTreeIsRedBlack | npr/red-black-tree.c:138-148 | every tree built by any sequence of insertions has the invariants and holds the last binding of each key |
| RedBlackSpec.GuardIsRedundant | npr/red-black-tree.c:126-132 | insertion without the "left is not red" guard gives the same tree, shape and colours, as the guarded one for every valid tree and key |
| RedBlackSpec.RotationsCancel | npr/red-black-tree.c:26-76 | rotating left and then right with both children red is the identity |
| RedBlackSpec.RotateRightKeepsContents | npr/red-black-tree.c:26-50 | a right rotation keeps search order and contents |
| RedBlackSpec.RotateLeftKeepsContents | npr/red-black-tree.c:52-76 | a left rotation keeps search order and contents |
| RedBlackSpec.FixUpKeepsContents | npr/red-black-tree.c:126-134 | the two rotations on the way up keep search order and contents |
| RedBlackSpec.SplitKeepsContents | npr/red-black-tree.c:114-116 | splitting a 4-node on the way down keeps search order and contents |
| RedBlackSpec.HasKeyMeansContained | npr/red-black-tree.c:181-197 | the search finds a key exactly when the contents have it |
| RedBlackSpec.TraversalAscends | npr/red-black-tree.c:160-171 | the traversal lists every binding exactly once, keys strictly ascending |
| RedBlackSpec.HeightAgainstBlackHeight | npr/red-black-tree.c:96-135 | height is at most twice the black height, plus one under a red root |
| RedBlackSpec.SizeAgainstBlackHeight | npr/red-black-tree.c:96-135 | a tree of black height b has at least 2^b - 1 keys |
| RedBlackSpec.DepthIsLogarithmic | npr/red-black-tree.c:96-197 | with n keys, 2^(black height) <= n + 1 and 2^height <= (n + 1)^2, so searches and insertions go at most 2 log2(n + 1) deep |
| RedBlackTree.RotateNodeRight | npr/red-black-tree.c:26-50 | the pointer writes turn a tree in the heap into the rotated tree over the same nodes |
| RedBlackTree.RotateNodeLeft | npr/red-black-tree.c:52-76 | the same for the left rotation |
| RedBlackTree.FlipNodeColor | npr/red-black-tree.c:78-84 | the three colours flip, nothing else changes |
| RedBlackTree.NodeIsRed | npr/red-black-tree.c:86-94 | the null-safe colour test agrees with the tree value |
| RedBlackTree.FixNodeUp | npr/red-black-tree.c:126-134 | the end of `insert` computes `FixUp` over the same nodes |
| RedBlackTree.InsertNode | npr/red-black-tree.c:96-135 | the heap insertion computes `Insert`, shape and colours, reports a new node exactly when the key was absent, keeps every old node and adds none when the key is there |
| RedBlackTree.PlaceNode | npr/red-black-tree.c:118-124 | overwriting, or inserting on one side, in place |
| RedBlackTree.PlaceLeft | npr/red-black-tree.c:120-121 | the left subtree is replaced by the one with the key inserted, over the same nodes and at most new ones |
| RedBlackTree.PlaceRight | npr/red-black-tree.c:122-123 | the same on the right |
| RedBlackTree.PaintBlack | npr/red-black-tree.c:144-145 | only the root's colour changes |
| RedBlackTree.HasKeyFrom | npr/red-black-tree.c:181-197 | the search in the heap agrees with the search in the value |
| RedBlackTree.TraverseFrom | npr/red-black-tree.c:160-171 | the callback is shown the in-order sequence |
| RedBlackTree.RbTree.constructor | npr/red-black-tree.c:6-11 | an empty valid tree |
| RedBlackTree.RbTree.InsertKey | npr/red-black-tree.c:138-148 | keeps all invariants, contents become old[key := v], result is 1 exactly when the key was absent |
| RedBlackTree.RbTree.HasTheKey | npr/red-black-tree.c:199-203 | true exactly for the keys of the contents |
| RedBlackTree.RbTree.Traverse | npr/red-black-tree.c:173-177 | each binding once in strictly ascending key order |
| RedBlackTree.InsertEach | npr/red-black-tree.c:96-148 | any insertions into an empty tree: each is reported new exactly when no earlier one has its key |
| RedBlackTree.InsertAll | npr/red-black-tree.c:96-203 | a tree's whole life, without reference to its shape: which insertions are new, which keys are found, and that the traversal shows strictly ascending keys, exactly those inserted, each with its last value |
| FrameLoop.GetFrame | anytrace/atr.c:48-119 | fails exactly when initialisation does; otherwise the recorded frames are those of the step sequence up to the first reason to stop, with distinct stack pointers, as many as the visited set has members; told also by the tracers themselves: each the step of the one before, entry k with tracer k's pc and with an object path exactly if that one is running |
| FrameLoop.TraceExplains | anytrace/atr.c:69-111 | the entries and the stop reason, field by field, follow from the tracers the loop went through |
| FrameLoop.Unwind | anytrace/atr.c:69-111 | the loop terminates for every step function (stack pointers not yet visited get fewer) and stops exactly at the first repeat, step failure or non-running state |
| FrameLoop.Visit | anytrace/atr.c:70-75 | inserting into the visited tree tells whether the stack pointer is new and adds exactly it |
| FrameLoop.StopIsUnique | anytrace/atr.c:69-111 | the number of frames and the stop reason are determined by the step function and the start |
| FrameLoop.DistinctPointersCount | anytrace/atr.c:70-113 | frames with distinct stack pointers are as many as the visited set has members |
| FrameLoop.RecordOne | anytrace/atr.c:77-97 | recording a frame with a new stack pointer keeps the record exact and distinct |
| FrameLoop.StopsAtLoop | anytrace/atr.c:71-75 | a stack pointer already in the tree is one of an earlier frame |
| Leb128.ReadLeb128 | anytrace/atr-backtrace.c:71-94 | the loop and sign extension compute `DecodeSigned`, whose meaning is `ReadsSignedRun` |
| Leb128.ReadUleb128 | anytrace/atr-backtrace.c:96-115 | the loop computes `DecodeUnsigned`, whose meaning is `ReadsUnsignedRun` |
| Leb128.SignExtend | anytrace/atr-backtrace.c:89-93 | the final sign extension, undefined for a shift of 32 or more |
| Leb128.ReadsUnsignedRun | anytrace/atr-backtrace.c:96-115 | a terminated byte run of up to five bytes is read as the number it denotes, in 32 bits, with the cursor just past it; a longer one is undefined |
| Leb128.ReadsSignedRun | anytrace/atr-backtrace.c:71-94 | the same with the sign of the last group; a negative five-byte run is undefined |
| Leb128.ReadsOnlyRuns | anytrace/atr-backtrace.c:71-115 | a defined read consumes one terminated run of at most five bytes |
| Leb128.UnsignedRoundTrip | anytrace/atr-backtrace.c:96-115 | in any context, reading the minimal encoding gives v back and stops behind it exactly for v < 2^32 |
| Leb128.SignedRoundTrip | anytrace/atr-backtrace.c:71-94 | in any context, reading the minimal encoding gives v back and stops behind it exactly for -2^27 <= v < 2^31 |
| Leb128.UnsignedEncodingDenotes | anytrace/atr-backtrace.c:96-115 | the encoder's run denotes the number |
| Leb128.SignedEncodingDenotes | anytrace/atr-backtrace.c:71-94 | the signed encoder's run denotes the number |
| Leb128.UnsignedEncodingSize | anytrace/atr-backtrace.c:96-115 | the encoding is minimal: k bytes reach exactly the numbers below 128^k |
| Leb128.SignedEncodingSize | anytrace/atr-backtrace.c:71-94 | the signed encoding is minimal |
| Leb128.PublishedExamples | anytrace/atr-backtrace.c:71-115 | the encoders give the examples of section 7.6 of DWARF 4 |
| Leb128.UnsignedReadAsSigned | anytrace/atr-backtrace.c:363-369 | for every v, the unsigned encoding of v is read as v by the signed reader exactly when v < 2^31 and the top bit of its last group is clear; another v < 2^31 is read too small by 128^n |
| Leb128.OffsetSixtyFourIsMisread | anytrace/atr-backtrace.c:363-369 | the smallest such operand: 64 is read as -64 |
| CfaMachine.Fetch | anytrace/atr-backtrace.c:312-423 | a decoded instruction moves the cursor forward inside the bytes, and advances by at most 65535 a byte |
| CfaMachine.OffsetFactorIsMisread | anytrace/atr-backtrace.c:335-340 | a register saved at factored offset 64 is taken to be saved at -64 |
| CfaMachine.ScanIsLookup | anytrace/atr-backtrace.c:320-361 | the one-pass scan ends with the row a lookup in the whole location/row table gives: the last row strictly below pc, or the first |
| CfaMachine.LookupIsUnique | anytrace/atr-backtrace.c:320-361 | that lookup has one answer |
| CfaMachine.HigherPcRunsLonger | anytrace/atr-backtrace.c:320-325 | for pc1 <= pc2 the instructions executed for pc1 are a prefix of those for pc2, and a run pc1 does not stop is the same for pc2 |
| CfaMachine.TableLocationsGrow | anytrace/atr-backtrace.c:350-361 | no location of the table lies below the start |
| CfaMachine.RestoreBringsBack | anytrace/atr-backtrace.c:400-412 | a remember and its matching restore bracket any balanced program: row and saved rows are back, only the location moved |
| CfaMachine.RestoreBringsWidthBack | anytrace/atr-backtrace.c:181-204 | the bracket restores the column width as well |
| CfaMachine.LastWordCounts | anytrace/atr-backtrace.c:334-396 | the CFA register is the operand of the last instruction that names one, the CFA offset that of the last that gives one, a column is saved at the last factor given for it times the data alignment, in 32 bits |
| CfaMachine.UnsaidStays | anytrace/atr-backtrace.c:334-396 | what no instruction mentions stays |
| CfaMachine.PlainRunsToTheEnd | anytrace/atr-backtrace.c:312-430 | that is what a run ends with when pc does not stop it |
| CfaMachine.WidthsInNumbers | anytrace/atr-backtrace.c:148-228 | the widths in numbers: c + 1 columns for a column c, two more for an unmatched remember, none for a matched one |
| CfaMachine.RunPasses | anytrace/atr-backtrace.c:312-423 | a run passes through a balanced program that does not reach pc |
| CfaMachine.BalancedKeepsSaved | anytrace/atr-backtrace.c:400-412 | a balanced program leaves the rows saved before it alone |
| CfaEncoding.FetchInvertsEncode | anytrace/atr-backtrace.c:312-423 | decoding an encoded instruction gives it back with the cursor behind it, in any context |
| CfaEncoding.ProgramRoundTrip | anytrace/atr-backtrace.c:312-423 | the interpreter sees exactly the instruction list that was encoded |
| CfaEncoding.DecodesSingleBytes | anytrace/atr-backtrace.c:327-348 | 0x40 + d advances by d, every 0xc0 + r and 0x00 do nothing, 0x0a remembers, 0x0b restores |
| CfaEncoding.DecodesAdvances | anytrace/atr-backtrace.c:350-361 | 0x02 and 0x03 advance by one byte or two little-endian bytes; cut off they have no meaning |
| CfaEncoding.DecodesUnsignedOperands | anytrace/atr-backtrace.c:378-397 | 0x0e, 0x0d and 0x07 with every operand: CFA offset, CFA register, undefined column |
| CfaEncoding.DecodesSignedOperands | anytrace/atr-backtrace.c:335-376 | 0x80 + r with every operand its reader covers saves register r; 0x09 sets the CFA register |
| CfaEncoding.DecodesDefCfa | anytrace/atr-backtrace.c:363-370 | 0x0c: the register first, then the offset |
| CfaEncoding.DecodesNothingElse | anytrace/atr-backtrace.c:415-420 | every other byte below 0x40 is an opcode the code gives up at |
| CfaInterp.ReserveColumnWidth | anytrace/atr-backtrace.c:148-163 | widening appends undefined columns up to the asked one and keeps the row |
| CfaInterp.CopyEnv | anytrace/atr-backtrace.c:165-179 | the copy has the source's row and constants and is one undefined column wider |
| CfaInterp.PushEnv | anytrace/atr-backtrace.c:181-193 | a fresh environment with the same row, one column wider, chained to the old one |
| CfaInterp.PopEnv | anytrace/atr-backtrace.c:195-204 | gives the chained environment and frees this one |
| CfaInterp.Cleanup | anytrace/atr-backtrace.c:213-228 | the top row moves into the caller's environment, everything above that is freed once, the extra column is undefined |
| CfaInterp.ReadInstr | anytrace/atr-backtrace.c:312-423 | the decoding half of the `switch` is `Fetch` |
| CfaInterp.ReadLongInstr | anytrace/atr-backtrace.c:348-421 | its inner `switch` |
| CfaInterp.EditEnv | anytrace/atr-backtrace.c:334-396 | instructions on the current environment are the machine's step on the current row, and widen as `StepWidths` says |
| CfaInterp.RememberOn | anytrace/atr-backtrace.c:400-402 | a remember pushes the current row |
| CfaInterp.RestoreOn | anytrace/atr-backtrace.c:404-412 | a restore frees the top once and brings back the row below, never the caller's environment |
| CfaInterp.ExecInstr | anytrace/atr-backtrace.c:327-423 | any instruction that neither advances nor fails: the chain keeps holding the machine's rows and the predicted widths |
| CfaInterp.ExecCfa | anytrace/atr-backtrace.c:299-430 | for every byte program, the caller's environment ends with exactly the machine's row at the stop point, on success, error and inside unmatched remembers; its width is the predicted one; every pushed environment is freed once and no other |
| CfaInterp.NoWrap | anytrace/atr-backtrace.c:320-325 | the 64-bit location never wraps from a 32-bit start |
| EhFrame.VisitedTile | anytrace/atr-backtrace.c:472-479 | the visited records tile a prefix of the section |
| EhFrame.WalkFindsFirst | anytrace/atr-backtrace.c:472-609 | the walk executes one frame description at most: the first visited one whose range holds pc, on the state the CIEs before it left, unless one of those fails first |
| EhFrame.WrappingLengthStalls | anytrace/atr-backtrace.c:608 | the cursor stands still exactly for the length 0xfffffffc |
| EhFrame.Next | anytrace/atr-backtrace.c:608 | without wrapping the next record starts where this one ends |
| EhFrame.ScanFindsNul | anytrace/atr-backtrace.c:490-498 | the augmentation string ends at the first NUL, the flag says exactly whether a 'z' comes before it, and the scan is lost exactly when there is no NUL |
| EhFrameEncoding.WalkIsMeaning | anytrace/atr-backtrace.c:472-609 | on the bytes of any encoded list of CIEs and FDEs, ended by the section's length or a zero record, the walk gives what the list means: CIEs run in order, the first FDE holding pc decides |
| EhFrameEncoding.SectionWellFormed | anytrace/atr-backtrace.c:472-609 | encoded sections are complete sections, so the walk terminates on them |
| EhFrameEncoding.CieHeaderAt | anytrace/atr-backtrace.c:483-510 | the header of an encoded CIE is read back field by field and the cursor is at its instructions |
| EhFrameEncoding.RecordAt | anytrace/atr-backtrace.c:474-481 | length, kind and instructions of an encoded record are read back |
| EhFrameEncoding.CieRuns | anytrace/atr-backtrace.c:481-516 | executing an encoded CIE is running its instruction list with its factors |
| EhFrameEncoding.CieCountsFromZero | anytrace/atr-backtrace.c:513 | a CIE's locations start at 0: what follows an advance by d applies only above d |
| EhFrameEncoding.FdeRuns | anytrace/atr-backtrace.c:518-537 | an encoded FDE has its own code range, relative to its place, and runs its instruction list |
| Backtrace.ReadAugmentation | anytrace/atr-backtrace.c:490-498 | the loop computes `ScanAugmentation` |
| Backtrace.ReadSkip | anytrace/atr-backtrace.c:507-510 | the augmentation data is skipped, its length added in 32 bits |
| Backtrace.ReadCieHeader | anytrace/atr-backtrace.c:487-510 | the header fields in the order they are read |
| Backtrace.DoCie | anytrace/atr-backtrace.c:481-516 | a CIE's effect on the environment: factors replaced, rules and columns accumulated, a slot for the return column |
| Backtrace.DoFde | anytrace/atr-backtrace.c:525-537 | an FDE runs on a copy, one column wider, of the CIE environment |
| Backtrace.RestoreColumns | anytrace/atr-backtrace.c:554-575 | the columns before the first unreadable one are restored, each ruled register from memory and no other |
| Backtrace.FinishFrame | anytrace/atr-backtrace.c:551-601 | from the row to the caller's registers, stack pointer, module offset and state; an index outside the registers is a result of its own |
| StartState.RunsStopAlike | anytrace/atr-backtrace.c:312-430 | where a program stops depends on the location and the number of saved rows alone |
| StartState.RunsEndAlike | anytrace/atr-backtrace.c:312-430 | two runs from rows that differ in the CFA fields end with equal rules, and with an equal CFA field exactly as the executed instructions set it |
| StartState.CieAlike | anytrace/atr-backtrace.c:481-516 | after a CIE two states that began differently can differ in the CFA fields only |
| StartState.FdeAlike | anytrace/atr-backtrace.c:518-537 | a frame description ends alike from two such states |
| StartState.WalksAlike | anytrace/atr-backtrace.c:472-609 | the same for the whole walk, record by record |
| StartState.BlankStartsAgree | anytrace/atr-backtrace.c:451-609 | from any two uninitialised starts the walk ends at the same record in the same way; after a CIE with the same rules, width and return column, and with the same row exactly when each CFA field was set by the section or equal on the stack |
| StartState.DeterminedExactly | anytrace/atr-backtrace.c:451-609 | the frame is the same for all uninitialised starts if and only if the section, for this pc, executes a CIE first and sets both CFA fields, or finds no frame |
| StartState.UndescribedFrame | anytrace/atr-backtrace.c:451-609 | a section for which it is not: a CIE and an FDE without instructions |
| Backtrace.OutcomesExclude | anytrace/atr-backtrace.c:551-601 | success, failure and undefined behaviour exclude each other, and success has one result |
| Backtrace.StepIsDetermined | anytrace/atr-backtrace.c:432-628 | on such sections a step that succeeds for one uninitialised start cannot fail for another, and gives the same registers and return address |
| Backtrace.InNumbers | anytrace/atr-backtrace.c:551-585 | a successful step in sums: register 7 is the CFA register plus the offset, every other ruled register is the word at that sum plus the rule's offset, the rest stay |
| Backtrace.Consequences | anytrace/atr-backtrace.c:551-585 | each of the three results in such numbers |
| Backtrace.WalkRecords | anytrace/atr-backtrace.c:472-609 | the record loop computes `Walk` |
| Backtrace.BacktraceUp | anytrace/atr-backtrace.c:432-628 | a whole step: outcome by `Walk`, exactly the CIE state's columns restored, error state on failure, nothing touched outside a running state, no environment leaked on any path; and the caller's registers as sums, register by register |
| StandardFrame.RowAtPc | anytrace/atr-backtrace.c:432-609 | for the section as bytes, every place of the function and every pc in its range: CFA register, offset, rules, return column and width |
| StandardFrame.FrameAddress | anytrace/atr-backtrace.c:551-553 | that row on the stopped machine gives the entry stack pointer plus 8, at every pc but the one behind the push |
| StandardFrame.CallerOf | anytrace/atr-backtrace.c:551-585 | and with it the caller's rsp, rbp and return address |
| StandardFrame.NothingUnreadable | anytrace/atr-backtrace.c:557-570 | no word the row needs is unreadable |
| StandardFrame.UnwindStandardFrame | anytrace/atr-backtrace.c:432-628 | the whole step from bytes to registers succeeds, with the caller's rsp, rbp and return address exactly when pc is not behind the push, and with which wrong ones there |
| ChunkAlloc.AllocChunk | npr/chunk-alloc.c:13-37 | a new chunk's slots form one null-terminated chain in address order |
| ChunkAlloc.AddChunk | npr/chunk-alloc.c:62-67 | the chunk goes in front of the chunk list and is apart from all slots there are |
| ChunkAlloc.ChunkAllocator.constructor | npr/chunk-alloc.c:39-52 | one chunk, all slots free |
| ChunkAlloc.ChunkAllocator.Alloc | npr/chunk-alloc.c:54-74 | never a live slot; the last one freed, or one of a new chunk; free and live slots still partition all slots |
| ChunkAlloc.ChunkAllocator.AllocFromNewChunk | npr/chunk-alloc.c:61-73 | the branch without a free slot |
| ChunkAlloc.ChunkAllocator.Free | npr/chunk-alloc.c:76-83 | a live slot goes to the front of the free list |
| ChunkAlloc.ChunkAllocator.Stat | npr/chunk-alloc.c:98-129 | what is counted by walking: free + used = chunks * chunk count, used are the live slots |
| ChunkAlloc.NewChunkPartition | npr/chunk-alloc.c:61-73 | adding a chunk and handing out its first slot keeps the partition |
| Dlist.DList.constructor | npr/list.c:48-54 | an empty list between two sentinels, all its memory new |
| Dlist.DList.PushBack | npr/list.c:62-75 | appends one cell, reusing the one removed last if any; links agree in both directions; only new memory is added |
| Dlist.DList.Remove | npr/list.c:77-85 | deletes exactly that element; its cell is the next to be reused |
| Dlist.DList.Perform | npr/list.c:62-85 | either operation, as a step on a sequence |
| Dlist.DList.Run | npr/list.c:62-85 | any sequence of pushes and removals does to the list what it does to a sequence |
| Dlist.MakeAndRun | npr/list.c:48-85 | the same from the list's making on, as seen by iterating at the end |
| Dlist.DList.Iterate | npr/list.h:60-69 | insertion order of the survivors |
| Dlist.LinkLast | npr/list.c:67-72 | the link writes of a push |
| Dlist.Unlink | npr/list.c:81-82 | the link writes of a removal |
| Mempool.Pool.constructor | npr/mempool-c.c:22-44 | one entry of the hinted size, nothing live |
| Mempool.Pool.Init | npr/mempool-c.c:22-44 | the same on an existing pool |
| Mempool.Pool.AllocAlign | npr/mempool-c.c:104-175 | a small block is aligned, inside the current entry and apart from every live block; a new entry is taken at most once, exactly when the request does not fit; the new cursor and remainder, with padding charged twice |
| Mempool.Pool.AllocLarge | npr/mempool-c.c:82-102 | a large block is a region of its own, apart from every live block |
| Mempool.Pool.NewEntry | npr/mempool-c.c:134-156 | the new entry fits the request at any alignment, and live blocks stay where they are |
| Mempool.Pool.TakeAtCursor | npr/mempool-c.c:162-174 | cursor and remainder after a block |
| Mempool.Pool.CursorBlockIsApart | npr/mempool-c.c:126-131 | memory from the cursor on is apart from every live block |
| Mempool.Pool.NewRegionIsApart | npr/mempool-c.c:94-96 | a fresh region is apart from every live block |
| Mempool.Pool.Fini | npr/mempool-c.c:52-68 | every region of the pool is freed exactly once, nothing else |
| Mempool.Pool.Clear | npr/mempool-c.c:70-80 | nothing is live afterwards; the short path keeps what was charged, the long one starts over with one entry |
| Mempool.AlignUp | npr/mempool-c.c:123-129 | the least multiple of the alignment that is not below the address |
| Bits.RoundUp2IsLeast | npr/bits.h:9-18 | the shifts and ORs give the least power of two not below x, for 0 < x <= 2^31 |
| Bits.RoundUp2Wraps | npr/bits.h:9-18 | and 0 for 0 and beyond 2^31 |
| Bits.SmearDoubles | npr/bits.h:12-16 | smearing by as many places as there are leading ones doubles them |
| Bits.SmearedAll | npr/bits.h:12-16 | the five steps smear any 32-bit number into all ones |
| SymbolTable.HashBytes | npr/symbol.c:20-33 | the loop computes `Hash` |
| SymbolTable.StepIsFnv1a | npr/symbol.h:15-22 | a step is that of FNV-1a exactly for octets below 128 |
| SymbolTable.HashIsFnv1a | npr/symbol.c:20-33 | on 7-bit strings the hash is FNV-1a |
| SymbolTable.StringHashIsFnv1a | npr/symbol.c:20-33 | from the published start, the hash of a 7-bit string is FNV-1a |
| SymbolTable.HashOfA | npr/symbol.h:12-22 | the published values for "a" and for the empty string |
| SymbolTable.TimesIsInjective | npr/symbol.h:15-22 | multiplying by the prime loses nothing in 32 bits |
| SymbolTable.InternTable.constructor | npr/symbol.c:98-112 | an empty table of 173 chains |
| SymbolTable.InternTable.InternWithHash | npr/symbol.c:37-76 | the symbol with these bytes in the selected chain, made in front only when there is none; the rest of the table unchanged |
| SymbolTable.InternTable.InternWithLength | npr/symbol.c:78-83 | a fresh symbol exactly when the bytes were not interned before; earlier symbols stay |
| SymbolTable.InternTable.SymbolsAreTheirBytes | npr/symbol.c:37-83 | two interned symbols are the same exactly when their bytes are |
| SymbolTable.InternTable.InternAll | npr/symbol.c:37-83 | over any sequence of interns, equal results exactly for equal strings |
| SymbolTable.InternTable.InternAllWithHashes | npr/symbol.c:37-76 | over any sequence of interns with any hashes, from any table: two results are the same symbol exactly when the strings are equal and the hashes select the same chain; so one symbol per string exactly when the hashes are consistent |
| SymbolTable.InternTable.OneSymbolEach | npr/symbol.c:37-76 | the same for two symbols of a table |
| IntMap.PrimesAreAbove | npr/int-map.c:8-38 | every table size lies above the power of two it is listed for |
| IntMap.NewSize | npr/int-map.c:40-56 | a size above the argument, namely the one for the least doubling above it, exactly below 2^30 |
| IntMap.SizesInNumbers | npr/int-map.c:8-56 | the sizes of the smallest tables, of the hook table and its first rehash, and of the largest |
| IntMap.Symtab.InItsBin | npr/int-map.c:80-133 | each cell is in the chain of its symbol's hash code modulo the number of bins |
| IntMap.Symtab.constructor | npr/int-map.c:142-160 | an empty table with more bins than the hint |
| IntMap.Symtab.Lookup | npr/int-map.c:104-140 | finds the symbol's one cell, or appends one; cells handed out earlier stay the table's cells, also through a rehash, which happens exactly at four cells a bin and gives strictly more bins |
| IntMap.Symtab.Find | npr/int-map.c:109-120 | the walk finds the cell, or shows there is none and ends at the last link |
| IntMap.Symtab.AppendEntry | npr/int-map.c:59-133 | counts the cell and links it, keeping fewer than four cells a bin |
| IntMap.Symtab.LinkNew | npr/int-map.c:66-133 | rehash and link in front at four cells a bin, link at the end otherwise |
| IntMap.Symtab.Rehash | npr/int-map.c:68-95 | every cell moves, none is lost or copied, the table grows |
| IntMap.Relink | npr/int-map.c:79-91 | all old chains are re-linked into the new table |
| IntMap.RelinkNext | npr/int-map.c:79-91 | re-linking one chain leaves the later ones alone |
| IntMap.RelinkBin | npr/int-map.c:80-90 | the inner loop moves each cell of one chain |
| IntMap.PushFront | npr/int-map.c:83-87 | a cell in front of its new chain |
| IntMap.PushBack | npr/int-map.c:130-133 | a cell at the end of its chain |
| IntMap.Symtab.SetData | anytrace/atr-language-module.c:50 | writing through a handed-out cell keeps the table valid |
| IntMap.Ratio | npr/int-map.c:64-66 | the truncated ratio exceeds three exactly from four cells a bin on |
| LanguageModule.LastIndex | anytrace/atr-language-module.c:41-51 | the last place of a symbol in a list of names, if any |
| LanguageModule.LastNaming | anytrace/atr-language-module.c:41-51 | the latest (module, index) pair naming a symbol, if any |
| LanguageModule.NamingOneMore | anytrace/atr-language-module.c:42-51 | naming one more symbol changes the last naming of that symbol alone |
| LanguageModule.Registry.constructor | anytrace/atr.c:18-21 | no language registered, table and array new |
| LanguageModule.Registry.RegisterLanguage | anytrace/atr-language-module.c:22-57 | the hook table holds each named symbol's last naming, the array holds every module registered so far as it was registered, and the table grows by at most the names given |
| LanguageModule.Registry.AddLanguage | anytrace/atr-language-module.c:26-39 | the array grows by doubling and keeps every earlier language |
| LanguageModule.Registry.HookNames | anytrace/atr-language-module.c:41-51 | the loop over a module's names |
| LanguageModule.Registry.HookOne | anytrace/atr-language-module.c:43-50 | one round of it, through a possible rehash |
| LanguageModule.Registry.PutPair | anytrace/atr-language-module.c:43-50 | the symbol's cell gets the pair, no other cell's data changes |
| LanguageModule.Registry.FoundIsLastNaming | anytrace/atr-language-module.c:126-135 | a found pair is the last naming and indexes a registered module and one of its names; no cell means never named |
| LanguageModule.HookIsLastRegistered | anytrace/atr-language-module.c:123-135 | what is selected is nothing when no module names the function, and otherwise the module and the argument at the very place of the last naming |
| LanguageModule.Registry.FindHook | anytrace/atr-language-module.c:123-135 | the module and the registered argument of the last registration naming the symbol, or nothing if none did |
| LanguageModule.Registry.RegisterAll | anytrace/atr-language-module.c:22-57 | any sequence of registrations, through array growth and rehashes |
| LanguageModule.RegisterAndFind | anytrace/atr-language-module.c:22-135 | from an empty registry, after any registrations, every lookup gives nothing when no module names the function, and otherwise module and argument at the place of the last naming |

## Left out

- FrameLoop.GetFrame: the unwinding step is an arbitrary deterministic function, since the process is suspended; symbol lookup, object paths and the language hooks of a frame are not modelled, and hooks are taken to leave the frame list alone.
- CfaInterp.ExecCfa: column numbers are mathematical, so the overflow of `column + 1` at 2^31 - 1 and of the buffer's byte size, and a failing `realloc`, are not modelled; the section is shorter than 2^32 bytes.
- CfaMachine.Fetch: opcodes and words are read as on x86-64 (little-endian); bit masks are written as `/` and `%`, and `|` of numbers without a common bit as `+`.
- EhFrame.WalkFindsFirst: is about sections that are complete records with a length whose + 4 does not wrap; on others the code may read outside the section or not terminate.
- EhFrameEncoding.WalkIsMeaning: the factors and the return column are encoded as signed numbers, the way the code reads them; sections are shorter than 2^32 bytes.
- Backtrace.BacktraceUp: what happens after an index outside the 18 registers (result -2) is not followed; `exec_env`, a stack variable, is kept in the same ledger as the allocated environments; memory reads, map lookup and file opening are functions given to it, and files are not tracked as open or closed.
- Backtrace.DoCie: the fields of `exec_env` that C leaves uninitialised may hold anything at the first CIE; C gives reading them no meaning, and `StartState` says when their content matters.
- CfaInterp.EditEnv: the product `off * data_align` wraps in 32 bits, as compiled code does; its overflow, which C leaves undefined, is not an outcome of its own.
- RedBlackTree.InsertNode: nodes come from `new` and not from the slab allocator; the same holds for the cells of `IntMap`. `Dlist` is the module where recycled cells are followed.
- Mempool.Pool.AllocAlign: entry sizes and alignments below 2^30 are required so that no 32-bit computation wraps; the alignment mask is stated as a multiple. Large blocks are as `malloc` gives them, as in the code, which ignores their alignment.
- SymbolTable.InternTable.InternWithHash: chains are immutable lists, since links are written once; a symbol is its bytes and hash, without keyword and value slots; string lengths of 2^31 and more, and the mutex (held on return when the symbol is found), are left out.
- IntMap.Symtab.Lookup: `num_entry` must not overflow `int`; the call of `abort` from 2^30 on is result None of `NewSize`.
- IntMap.Symtab.constructor: only for the size hints `new_size` answers.
- LanguageModule.Registry.RegisterLanguage: language names, hook functions and the leak of overwritten index pairs are not modelled; the names array, which the code shares with its caller, is a value.
- LanguageModule.Registry.FindHook: what a hook does, and the path that gives it a stack of its own, are left out.
- `npr/heap.c`: not built, and its boundary tags are not maintained.
- ptrace, `/proc`, ELF and library loading, printing and error strings: input and output.
- `dfdX`: an unfinished decoder generator.
- `npr/varray.c`, `npr/strbuf.c`, `npr/free-chain.c`, `npr/coro.c`, the singly linked list, the population counts and scans of `npr/bits.*`, and the `fini` functions other than the pool's: only easy or platform-bound claims.
- Conformance to DWARF 4 of advance scaling, the row at an exact boundary, `DW_CFA_restore`, `DW_CFA_undefined` and `DW_CFA_register`: the code differs there.
