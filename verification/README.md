# PearPC liveness analysis and instruction semantics: a verified model

PearPC translates PowerPC code one 4 KiB page at a time. The translator wants to
know which registers and condition fields nobody will read again, so that it can
skip writing them. The answer comes from running each instruction's template, the
same C++ code that defines what the instruction does, on a second backend that
records what is read and written. This project models that machinery and proves
that the answers can be trusted, and where they cannot.

Four smaller algorithms of the repository are modelled as well: the GIF code reader
and LZW decoder, the path flattener, and three integer loops of the debugger.

## How the model is laid out

| file | models |
|---|---|
| `Words`, `Arithmetic` | 32-bit words as numbers below 2^32, their bits, shifts, carries, masks |
| `Templates` | the instruction templates as lists of backend calls, and the opcode dispatch |
| `LiveSets`, `Effects` | the bit masks of the analysis, and the backend object that records effects |
| `Machine`, `Backend` | the processor state, one interpreter step, and the backend object that executes |
| `Soundness`, `Frame` | what an effect says about a step |
| `Opcodes` | instruction words of every form, and that decoding finds their fields |
| `Results`, `Instructions`, `Carrying`, `Rotating`, `Comparing`, `Storage` | what every instruction leaves in registers, condition bits and memory, and what is recorded for it |
| `DeadWrites` | the backward pass over a straight-line block |
| `Dataflow` | liveness equations over a graph, independent of pages |
| `Page`, `Worklist`, `PageCfg` | block scanning, discovery, edges and the in-place solver |
| `PageLiveness`, `CrScan` | what the solved graph and the on-demand scan mean for runs |
| `Branching` | where branches go, from their fields, and that discovery and edges agree with it |
| `LiveInGaps` | exactly where live_in of a block is not enough to know |
| `GifBits`, `Lzw`, `LzwCoding` | the GIF bit reader, the decoding loop, and an encoder as its inverse |
| `Paths` | `flatten_path` and `sys_common_canonicalize` |
| `StdFuncs` | power, binomial coefficient, greatest common divisor |

`LivenessSemantics`, `ConcreteSemantics`, `Cfg`, `BitReader` and `LzwDecoder` are
classes, since the source updates these objects, or the local variables of the loop
they stand for, in place. The templates are data: both backends interpret the same
list of calls, as both instantiate the same C++ template. The 69 tracked resources
(32 GPRs, 32 CR bits, SO, OV and CA, LR, CTR) are numbered, and a `LiveSet` of masks
stands for the set of its numbers.

## Reading the main results

* A recorded effect is sound for an opcode if and only if the opcode is not a
  linking branch that may fall through (`EffectSoundUnlessMayKeepLr`).
  `ppc_semantics_branch.h` records that such a branch writes LR; the interpreter
  writes LR only when the branch is taken. The page theorems therefore either
  compare LR throughout (`pin = {LR}`) or ask that no block that may keep LR falls
  through to where LR is live, or to an unknown place (`LinksSafe`). At a block that is a
  single instruction, followed by the page end or another block, and with the other
  blocks safe, live_in alone suffices for all runs if and only if that is so
  (`LiveInSufficesExactly`). Whether a longer block reaches the states that tell LR
  apart depends on its data. The straight-line pass does not track LR and needs nothing.
* `ppc_decode_branch_target` takes an absolute target below 4096 for an offset into
  the page, and an absolute target on the page for one off it. It is right about every
  target if and only if the branch is relative, or the page is at 0, or the absolute
  target is neither (`DecodingIsExact`). The second mistake is harmless; of the first,
  `DecodedTargetIsTaken` says exactly when it happens and `SomeTargetIsMisread` that it
  does. `TargetsSafe` asks that no block ends in such a branch unless everything is in its
  live_out. At a block that is just a misread jump, states that agree on live_in leave the
  page equal if and only if live_in is everything (`MisreadJumpExactly`), up to an LR that
  the jump itself sets.
* The pushes and the known successors of a block that ends in `b` or `bc` are exactly the
  places its last instruction can step to (`PushesAreSteps`, `EdgesAreSteps`). For `bclr` and
  `bcctr` they are where it can fall through, except that `bcctr` with a CTR test, which the
  machine does not make, counts as conditional (`RegisterPushes`).
* The instruction lemmas name no template: every opcode of the dispatch has its result stated
  on register values and bits, with the sets recorded for it (`Computes`, `ComputesCarry`,
  `Records`), and `UnmodelledExactly` lists the opcodes. The fields they speak of are those
  that the words of `Opcodes` are built from.
* The DFS stack never holds more than one entry per block plus one, that is 513
  (`StackBound`). The source declares 512. It overflows if and only if the first 512
  blocks that fall through into each other, from the start on, all end in a branch with
  both successors on the page (`StackOverflowsExactly`), and there is such a page
  (`StackOverflows`). The model's stack has no fixed size.
* When discovery stops because 512 blocks exist, on-page targets without a block are
  edges to an unknown place, and every theorem about the solved graph still holds.
* After a yes of the fast scan for a dead CR field, states that differ in the field meet
  at the instruction that overwrites it, while control still runs straight on
  (`KillMakesEqual`, `ScannedStatesMeet`).
* The scan and the page solver can differ: where the scan
  says dead, the solver says dead if and only if the block holds no unmodelled
  instruction (`ScanAgainstSolver`), and on some page they differ (`ScanAndSolverDiffer`).
  Either answer is safe to act on.
* GIF decoding is exact on streams in which no code is beyond the next free one, as long
  as no code but a clear or an end code arrives once the 4096 table entries are in use.
  This condition counts the codes since the last clear code (`CodesFit`), and the abstract
  decoder is undefined exactly where it fails (`DefinedExactly`). GIF89a lets an encoder
  put off the clear code, which breaks the second half (`DeferredClearFillsTable`); the
  source would then write past its tables. A stream that does not open with a clear code
  is decoded as if the last string were colour 0.
* A path goes where its working directory goes, and on from there by its components
  (`JoinedPath`, `OneMoreComponent`); "/" has to be a delimiter for that.
* Path flattening ignores the first character of every component, which is a
  delimiter except at the start of a relative name; the model keeps this.
* The binomial loops are right if and only if the falling factorial fits 64 bits,
  and for k > n if and only if k is not 1 (one out of none gives 1, not 0). The gcd loop
  leaves sint64 on exactly five kinds of arguments (`LoopOverflowsExactly`).

The comment above `ppc_scan_block` says that a block stops at the start of another
one. The code does not do this, blocks may overlap, and the model follows the code.
The note at `ppc_liveness.h:84-86` about wrong results and the section "Step 2 status"
of `doc/ABSTRACT_SEMANTICS.md`, which calls the problem fixed, contradict each other.
The results below are about the code as it stands.

## Assumptions

* No instruction faults and no interrupt arrives. The bytes of the page do not change
  while it runs. Entry offsets and the page base are aligned.
* Outside the model, as parameters of type `Env`: the floating-point unit, quotients
  that C++ leaves undefined, instructions for which the dispatch records
  "everything", and all code that is not on the page. They are arbitrary functions
  of the state they may see.
* A floating-point instruction of main opcodes 59 and 63 touches FPRs, FPSCR and, in
  its record form, CR field 1, or the field of a compare. mcrfs, whose recorded effect
  lacks the CR field it would write, is unimplemented in the interpreter
  (`src/cpu/cpu_generic/ppc_opc.cc:250-253`), and the model lets it touch no CR field.
* A rotation by 0 is the identity, although the C++ shift by 32 in it is undefined.
  A mask with MB = ME + 1, which shifts by 32, is excluded where bits are claimed.
* XER masks have three bits, SO, OV and CA. Only these XER bits are tracked.
* Templates read all their operands before the first write. In the source this holds
  for every template, except that compare results copy SO when the field is written,
  which the model does at that point too.

## Model

| member | source | states |
|---|---|---|
| LiveSets.UnionMembers | src/cpu/ppc_liveness.h:119-122 | `\|` of two masks is the union of the resources they stand for |
| LiveSets.IntersectMembers | src/cpu/ppc_liveness.h:124-127 | `&` is the intersection |
| LiveSets.ComplementMembers | src/cpu/ppc_liveness.h:129-132 | `~` is the complement within the 69 resources, XER masked to its three bits |
| LiveSets.SameMembers | src/cpu/ppc_liveness.h:112-116 | two masks are equal exactly when they stand for the same resources |
| LiveSets.DeadFieldMembers | src/cpu/ppc_liveness.h:98-102 | `is_cr_field_dead` holds exactly when none of the field's four bits is in the set |
| Arithmetic.Sraw | src/cpu/ppc_concrete_sem.h:286-303 | the shift loop yields the floor of the signed value over 2^s for every count 0 to 63, and the carry says that a negative value was rounded |
| Arithmetic.Cntlzw | src/cpu/ppc_concrete_sem.h:334-346 | the loop finds the first one bit from the top: that bit is set and all above are clear, or the result is 32 |
| Arithmetic.LeadingZeros | src/cpu/ppc_concrete_sem.h:334-346 | the count is pinned down by the bits: zeros above it, a one at it |
| Arithmetic.CarriesAreExact | src/cpu/ppc_concrete_sem.h:348-362 | the comparisons `carry_add` and `carry_3` hold exactly when the unbounded sum needs a 33rd bit |
| Arithmetic.RotateBit | src/cpu/ppc_concrete_sem.h:305-309 | bit i of a rotated word is bit i - n, cyclically, of the word |
| Arithmetic.MaskBits | src/cpu/ppc_concrete_sem.h:311-322 | the mask has exactly the bits of the cyclic range MB..ME, for all MB and ME but MB = ME + 1 |
| Arithmetic.MultiwordAdd | src/cpu/ppc_semantics_alu.h:43-70 | limb-wise addc and adde give the exact sum of numbers of any length, CA being the bit on top |
| Arithmetic.MultiwordSubtract | src/cpu/ppc_semantics_alu.h:342-371 | limb-wise subfc and subfe give the difference modulo the radix, and CA exactly when nothing is borrowed |
| Carrying.CarryingIsExact | src/cpu/ppc_semantics_alu.h:43-141 | every add form with a carry (addc, adde, addic, addic., addme, addze) and every such subtract form leaves in rD and CA exactly the sum of its two terms and carry, also where the source tests the carry by a shortcut |
| Carrying.CarryingComputes | src/cpu/ppc_semantics_alu.h:43-141 | the whole state after every carrying form, CA and CR0 included, and the sets recorded for it: rB and CA are read only where they are added |
| Carrying.ShortCarries | src/cpu/ppc_semantics_alu.h:384-412 | the shortcut carry tests of the forms with 0 and -1 agree with the 33rd bit of the sum |
| Carrying.MultiwordAddProgram | src/cpu/ppc_semantics_alu.h:43-70 | running addc and then adde instructions on distinct registers computes the exact multiword sum |
| Carrying.MultiwordSubtractProgram | src/cpu/ppc_semantics_alu.h:342-371 | running subfc and then subfe instructions computes the multiword difference, CA meaning no borrow |
| Rotating.SrawDivides | src/cpu/ppc_semantics_alu.h:519-544 | srawx and srawix divide by a power of two rounding down, set CA exactly when a negative value was rounded, and change no other GPR |
| Rotating.SrawComputes | src/cpu/ppc_semantics_alu.h:519-544 | the whole state after srawx and srawix, CR0 included, and the sets recorded for them |
| Rotating.RlwimiBits | src/cpu/ppc_semantics_alu.h:574-585 | rlwimi takes the bits in MB..ME from the rotated source, all others from the old target, and changes no other GPR |
| Rotating.RotateAndMaskBits | src/cpu/ppc_semantics_alu.h:548-572 | rlwinm and rlwnm keep the bits in MB..ME of the rotated source, clear all others, and change no other GPR |
| Rotating.MtcrfNibbles | src/cpu/ppc_semantics_spr.h:90-106 | mtcrf replaces exactly the CR fields selected by CRM and nothing else of GPRs and XER |
| Opcodes.XFormDecodes | src/cpu/ppc_semantics_dispatch.h:45-50 | from a word of register form the decoding macros take main opcode, three registers, extended opcode and record bit as they were put in |
| Opcodes.DFormDecodes | src/cpu/ppc_semantics_alu.h:72-80 | the 16-bit immediate is read signed, unsigned or shifted as it was put in, for every value |
| Opcodes.MFormDecodes | src/cpu/ppc_semantics_alu.h:548-552 | rotate forms: shift, MB and ME as put in |
| Opcodes.XfxFormDecodes | src/cpu/ppc_semantics_spr.h:90-94 | mtcrf form: the 8-bit CRM as put in |
| Instructions.AddIsSum | src/cpu/ppc_semantics_alu.h:32-41 | add leaves (rA + rB) modulo 2^32 in rD, compares it in CR0 in record form, changes nothing else, and is recorded to read and write just that |
| Instructions.SubtractIsDifference | src/cpu/ppc_semantics_alu.h:331-340 | subf: rB - rA modulo 2^32, likewise with state and recorded sets |
| Instructions.NegateIsOpposite | src/cpu/ppc_semantics_alu.h:416-425 | neg: the opposite modulo 2^32, likewise |
| Instructions.MultiplyLow | src/cpu/ppc_semantics_alu.h:429-447 | mulli and mullw: the signed product modulo 2^32, likewise |
| Instructions.MultiplyHigh | src/cpu/ppc_semantics_alu.h:449-469 | mulhw and mulhwu: the word that leaves less than 2^32 of the signed or unsigned product, likewise |
| Instructions.DivideSigned | src/cpu/ppc_semantics_alu.h:473-482 | divw, where C++ defines it: the remainder is smaller than the divisor and has the sign of the dividend, likewise |
| Instructions.DivideUnsigned | src/cpu/ppc_semantics_alu.h:484-493 | divwu: the quotient that leaves a remainder below the divisor, likewise |
| Instructions.LogicIsBitwise | src/cpu/ppc_semantics_alu.h:145-287 | and, andc, nor, eqv, xor, orc, or and nand of rS and rB into rA, bit by bit, likewise |
| Instructions.LogicImmediate | src/cpu/ppc_semantics_alu.h:167-254 | ori, oris, xori, xoris, andi. and andis., bit by bit from the opcode, the last two recording, likewise |
| Instructions.AddImmediate | src/cpu/ppc_semantics_alu.h:72-112 | addi and addis: rA, or zero for r0, plus the signed or shifted immediate, likewise |
| Instructions.ShiftsScale | src/cpu/ppc_semantics_alu.h:497-517 | slw and srw multiply and divide by 2^n for every count modulo 64, so that 32 and more leave nothing, likewise |
| Instructions.ExtendsSign | src/cpu/ppc_semantics_alu.h:589-609 | extsb and extsh keep the signed value of the low part, likewise |
| Instructions.CountsLeadingZeros | src/cpu/ppc_semantics_alu.h:613-622 | cntlzw: where the first one bit is, or 32, likewise |
| Instructions.RotateComputes | src/cpu/ppc_semantics_alu.h:548-585 | the rotate forms change rA alone, and CR0 in record form, and are recorded so |
| Instructions.MoveFromSpr | src/cpu/ppc_semantics_spr.h:37-53 | mfspr from XER, LR and CTR, with state and recorded sets |
| Instructions.MoveToSpr | src/cpu/ppc_semantics_spr.h:59-75 | mtspr to XER, LR and CTR, with state and recorded sets |
| Instructions.MoveFromCr | src/cpu/ppc_semantics_spr.h:79-84 | mfcr, with state and recorded sets |
| Instructions.UnmodelledExactly | src/cpu/ppc_semantics_dispatch.h:36-264 | the opcodes that are recorded as everything are exactly those outside the list of the dispatch |
| Comparing.CompareBits | src/cpu/ppc_semantics_alu.h:291-327 | cmp, cmpi, cmpl and cmpli set LT, GT, EQ and SO of one field, signed or unsigned by opcode, from rA and rB or the immediate in this order, and change nothing else |
| Comparing.CompareRecords | src/cpu/ppc_semantics_alu.h:291-327 | what the compares are recorded to read and write |
| Comparing.CrLogicBits | src/cpu/ppc_semantics_alu.h:626-696 | the eight CR logic instructions set one bit from two, change nothing else, and are recorded so |
| Comparing.McrfBits | src/cpu/ppc_semantics_spr.h:112-119 | mcrf copies one field, changes nothing else, and is recorded so |
| Comparing.MtcrfRecords | src/cpu/ppc_semantics_spr.h:90-106 | mtcrf is recorded to write exactly the bits of the selected fields |
| Storage.AccessSteps | src/cpu/ppc_semantics_mem.h:32-335 | every load and store, immediate or indexed, with or without update: address, bytes moved, sign extension, the order of the two register writes, and nothing else changed |
| Storage.AccessRecords | src/cpu/ppc_semantics_mem.h:32-335 | what they are recorded to read and write, and that the memory flags tell loads from stores |
| Storage.StoreThenLoad | src/cpu/ppc_semantics_mem.h:32-335 | loading at the address and size of a store gives the stored value back, truncated |
| Storage.MultipleSteps | src/cpu/ppc_semantics_mem.h:338-362 | lmw and stmw move the registers from rD on, word by word, big-endian, and nothing else |
| Storage.MultipleRecords | src/cpu/ppc_semantics_mem.h:338-362 | what lmw and stmw are recorded to read and write |
| Storage.FloatRecords | src/cpu/ppc_semantics_fpu.h:35-66 | fcmpu and fcmpo are recorded to write their field and read SO, record forms to write CR field 1, and nothing else |
| Templates.ExpandCrm | src/cpu/ppc_semantics_spr.h:90-106 | the loop of mtcrf computes the widened mask |
| Templates.CrmMaskBits | src/cpu/ppc_semantics_spr.h:90-106 | a bit of that mask is set exactly when the CRM bit of its field is |
| Effects.Analyze | src/cpu/ppc_semantics_dispatch.h:243-264 | running an opcode's template on the recording object yields the effect used everywhere below; module Instructions and its neighbours say what it is, opcode by opcode |
| Effects.LivenessSemantics.Record | src/cpu/ppc_liveness_sem.h:103-392 | the in-place recording of a whole template is the fold of its calls over the old effect |
| Effects.NoteSets | src/cpu/ppc_liveness_sem.h:103-392 | one call adds to the recorded sets exactly the resources it reads and writes, SO included for compares |
| Effects.EffectSets | src/cpu/ppc_liveness_sem.h:103-392 | the recorded masks of a template are the unions of its calls' reads and writes |
| Effects.AnalyzeSets | src/cpu/ppc_semantics_dispatch.h:36-264 | for every opcode: "everything", or exactly the read and write sets of its template, and the branch flag exactly for branches |
| Effects.AnalyzeFlags | src/cpu/ppc_liveness_sem.h:103-392 | the memory flags are set exactly when the template loads or stores |
| Backend.ConcreteSemantics.WriteCr0 | src/cpu/ppc_concrete_sem.h:127-140 | LT, GT and EQ of field 0 compare the signed result with zero, its last bit copies SO, and no other CR bit changes |
| Backend.ConcreteSemantics.WriteCrFieldSigned | src/cpu/ppc_concrete_sem.h:142-159 | LT, GT and EQ of the field compare the signed operands, its last bit copies SO, and no other CR bit changes |
| Backend.ConcreteSemantics.WriteCrFieldUnsigned | src/cpu/ppc_concrete_sem.h:161-176 | the same for unsigned operands |
| Backend.ConcreteSemantics.WriteXerCa | src/cpu/ppc_concrete_sem.h:113-120 | bit 29 of XER is as told and every other bit is as it was; nothing else changes |
| Backend.ConcreteSemantics.Execute | src/cpu/ppc_concrete_sem.h:31-191 | executing a template in place on the registers yields the state of the step function |
| Frame.StepFrame | src/cpu/ppc_liveness_sem.h:103-392 | a step changes only tracked resources of the recorded write set, memory only through stores and FPU forms, and the pc of a non-branch moves on by 4 |
| Soundness.StepKeepsAgreement | src/cpu/ppc_liveness_sem.h:103-392 | two states that agree on what must be live before an instruction agree after it on what is live there, for every opcode and live set |
| Soundness.EffectSoundUnlessMayKeepLr | src/cpu/ppc_semantics_branch.h:49-85 | the recorded effect of an opcode is sound if and only if it is not a linking branch that may fall through |
| Soundness.UnsoundWhenLrIsKept | src/cpu/ppc_semantics_branch.h:49-85 | for each such branch there are states the effect cannot tell apart whose LR differs afterwards |
| DeadWrites.ComputeLiveness | src/cpu/ppc_liveness.h:54-79 | the backward loop fills the array with the dead masks of every instruction |
| DeadWrites.DeadExactly | src/cpu/ppc_liveness.h:54-79 | a resource is flagged dead at an instruction exactly when the instruction writes it and a later one writes it again before any reads it |
| DeadWrites.DeadFieldExactly | src/cpu/ppc_liveness.h:46-50 | a CR field is reported dead exactly when all its four bits are |
| DeadWrites.DeadGprExactly | src/cpu/ppc_liveness.h:45 | a GPR is reported dead exactly when it is in the dead set |
| DeadWrites.DeadXerCaExactly | src/cpu/ppc_liveness.h:51 | CA is reported dead exactly when it is in the dead set |
| DeadWrites.DeadWriteElimination | src/cpu/ppc_liveness.h:54-79 | a run in which all flagged writes leave arbitrary values, all at once, ends in the same state as the original run |
| PageLiveness.DecodingIsExact | src/cpu/ppc_liveness.h:164-184 | the decoded target is the taken target's page offset, or -1 off the page, if and only if no absolute target is on the page or below 4096 while the page is not at 0 |
| Branching.JumpRoundTrip | src/cpu/ppc_liveness.h:167-173 | for every displacement: `b` to d at an offset decodes to the offset plus d, or -1 off the page, `ba` to d itself, and the machine goes there, linking if told |
| Branching.ConditionalRoundTrip | src/cpu/ppc_liveness.h:174-180 | the same for `bc` and its forms, taken on the CTR and CR tests of its option field, with CTR counted down |
| Branching.ReturnStep | src/cpu/cpu_generic/ppc_opc.cc:127-145 | bclr goes to LR as it was, on both tests |
| Branching.CountStep | src/cpu/cpu_generic/ppc_opc.cc:108-122 | bcctr goes to CTR, on the CR test alone |
| Branching.JumpRecords | src/cpu/ppc_semantics_branch.h:36-42 | `b` is recorded to write LR when it links, and nothing else |
| Branching.ConditionalRecords | src/cpu/ppc_semantics_branch.h:49-65 | `bc` is recorded to read and write CTR when it tests it, to read its CR bit when it tests it, and to write LR when it links |
| Branching.ReturnRecords | src/cpu/ppc_semantics_branch.h:92-109 | the same for bclr, which reads LR |
| Branching.CountRecords | src/cpu/ppc_semantics_branch.h:72-85 | the same for bcctr, which reads CTR and never writes it |
| PageLiveness.SomeTargetIsMisread | src/cpu/ppc_liveness.h:172-173 | `ba 0x100` is decoded as offset 0x100 on every page but the first |
| Page.TargetAligned | src/cpu/ppc_liveness.h:164-184 | a decoded target of an aligned branch is an instruction slot |
| Page.ScanEndIsFirst | src/cpu/ppc_liveness.h:241-273 | a block ends after the first branch or unmodelled instruction, or at the page end |
| PageLiveness.DecodedTargetIsTaken | src/cpu/ppc_liveness.h:164-184 | a decoded target is where the taken branch goes if and only if no absolute address is mistaken for a page offset |
| PageCfg.WalkBlock | src/cpu/ppc_liveness.h:241-273 | the forward loop returns the block's end and its gen and kill masks |
| PageCfg.Cfg.ScanBlock | src/cpu/ppc_liveness.h:225-274 | one block and one index entry are written, no others |
| PageCfg.PushSuccessors | src/cpu/ppc_liveness.h:319-347 | the worklist grows by the block's on-page target and fall-through |
| Branching.PushesAreSteps | src/cpu/ppc_liveness.h:326-339 | the pushes of a block that ends in `b` or `bc`, rightly decoded, are exactly the page offsets to which some state steps from its last instruction |
| Branching.RegisterPushes | src/cpu/ppc_liveness.h:326-339 | after bclr and bcctr the fall-through is pushed exactly when some state falls through, or bcctr has a CTR test |
| Branching.OtherPushes | src/cpu/ppc_liveness.h:340-347 | after an unmodelled instruction the next offset is pushed, at the page end nothing |
| PageCfg.Cfg.Discover | src/cpu/ppc_liveness.h:294-348 | the loop ends, blocks are distinct aligned slots with the index as inverse, and when the worklist drains they are exactly the reachable offsets |
| PageCfg.DrainedIsExact | src/cpu/ppc_liveness.h:294-348 | with an empty worklist an offset has a block if and only if a route of on-page targets and fall-throughs leads there |
| Worklist.StackBound | src/cpu/ppc_liveness.h:303-348 | at every turn the stack holds at most one entry per discovered block, plus one; more than 512 entries are exactly 513, with a full block table |
| Worklist.StackOverflowsExactly | src/cpu/ppc_liveness.h:303-348 | for every page, analyser and start: the 512 entries are exceeded at some turn if and only if the first 512 blocks that fall through into each other all fork |
| Worklist.StackOverflows | src/cpu/ppc_liveness.h:303-348 | a page of conditional branches over one instruction reaches 513 entries |
| PageCfg.WithEdges | src/cpu/ppc_liveness.h:352-399 | the successors of a block are the indexed targets, or unknown where there is no block |
| Branching.EdgesAreSteps | src/cpu/ppc_liveness.h:358-385 | the known successors of a block that ends in `b` or `bc` are exactly the blocks to whose heads some state steps |
| Branching.UnknownEdgeIsStep | src/cpu/ppc_liveness.h:358-385 | such a block has an unknown successor if and only if some state steps to where no block starts |
| Branching.RegisterEdges | src/cpu/ppc_liveness.h:358-385 | after bclr and bcctr there is an unknown successor, and another exactly where they can fall through, or bcctr has a CTR test |
| PageCfg.Cfg.BuildEdges | src/cpu/ppc_liveness.h:352-399 | every block is linked and its scan results stay |
| PageCfg.LiveOutOf | src/cpu/ppc_liveness.h:426-442 | the successor loop computes the union of successors' live_in, or all-live for an unknown or missing successor |
| PageCfg.Cfg.Recompute | src/cpu/ppc_liveness.h:424-452 | one in-place update keeps live_in below its recomputed value and below the all-paths solution, and a reported change leaves strictly fewer bits missing |
| PageCfg.RecomputeKeepsSolving | src/cpu/ppc_liveness.h:424-452 | that invariant survives replacing a block's sets by the recomputed ones |
| PageCfg.ChangedMakesProgress | src/cpu/ppc_liveness.h:448-451 | a changed live_in adds at least one of the 69 bits of its block |
| PageCfg.Cfg.Solve | src/cpu/ppc_liveness.h:413-454 | the solver ends after at most 69 * numBlocks + 1 passes with every live_in and live_out current |
| PageCfg.Cfg.Build | src/cpu/ppc_liveness.h:294-455 | the whole construction: discovered, linked and solved |
| PageCfg.LiveInIsAllPaths | src/cpu/ppc_liveness.h:401-454 | a resource is in live_in if and only if some path reads it, or leaves for an unknown place, before writing it |
| PageCfg.LiveInIsLeast | src/cpu/ppc_liveness.h:401-454 | no assignment that satisfies the equations, even as inequalities, is smaller anywhere |
| Dataflow.SolutionIsAllPaths | src/cpu/ppc_liveness.h:401-454 | on any graph, a solution that stays below the paths is the all-paths solution |
| Dataflow.UpdateKeepsPreSolution | src/cpu/ppc_liveness.h:401-454 | updating one node in place keeps every node below its recomputed value |
| PageLiveness.SummaryIsTransfer | src/cpu/ppc_liveness.h:225-274 | gen and kill of a block act on any live-out set as the backward composition of its instructions; everything is live when one is unmodelled |
| PageLiveness.LiveInIsTransfer | src/cpu/ppc_liveness.h:401-454 | live_in in the finished graph is that composition applied to live_out |
| PageLiveness.EdgeSoundness | src/cpu/ppc_liveness.h:350-444 | wherever control really goes after a block is the head of a listed successor, or live_out is everything, also with a full block table; the last branch must not be misread unless live_out is everything, and an unmodelled instruction is followed where it falls through |
| PageLiveness.HeadAgreement | src/cpu/ppc_liveness.h:401-454 | states in step agree on live_in of whatever block they are at the head of, overlapping blocks included |
| PageLiveness.PageNoninterference | src/cpu/ppc_liveness.h:294-455 | states that agree on live_in of a block stay indistinct for any number of steps: same path, same memory and FPU state, agreement on live_in at every block head reached, and equality off the page and at every "everything" instruction; LR is compared too, or no block falls through with a kept LR to where it is wanted |
| LiveInGaps.KeptLrIsNoticed | src/cpu/ppc_semantics_branch.h:49-85 | at a block that is just a linking branch that may fall through to where LR is live, states that agree on live_in can be told apart after one step |
| LiveInGaps.LiveInSufficesExactly | src/cpu/ppc_semantics_branch.h:49-85 | at a single-instruction block, agreement on live_in is enough for every run if and only if the instruction does not keep an LR that is wanted next |
| LiveInGaps.MisreadJumpExactly | src/cpu/ppc_liveness.h:172-173 | at a block that is just a jump with a misread absolute target, states that agree on live_in leave the page equal if and only if live_in is everything but an LR the jump sets |
| PageLiveness.DeadFieldIsUnobservable | src/cpu/ppc_liveness.h:98-103 | a CR field that live_in of a block reports dead can hold any value there without any observable difference in any run |
| CrScan.IsCrFieldDeadAt | src/cpu/ppc_semantics_dispatch.h:267-279 | the loop's answer from any aligned offset, no beyond the page |
| CrScan.ScanIsExact | src/cpu/ppc_semantics_dispatch.h:267-279 | yes exactly when an instruction on the page overwrites the field before any reads it, branches or gives up |
| CrScan.ScannedFieldIsUnobservable | src/cpu/ppc_semantics_dispatch.h:267-279 | after a yes the field can hold any value without any observable difference in any run |
| CrScan.KillMakesEqual | src/cpu/ppc_semantics_dispatch.h:267-279 | the instruction at which the scan says yes makes states equal that differed in the field alone |
| CrScan.ScannedStatesMeet | src/cpu/ppc_semantics_dispatch.h:267-279 | after a yes such states become equal along the straight line, before any branch and before the page ends |
| CrScan.BackwardPassAgrees | src/cpu/ppc_liveness.h:54-79 | the backward pass over any run that includes that instruction has no bit of the field live at the start |
| CrScan.ScanAgainstSolver | src/cpu/ppc_semantics_dispatch.h:267-279 | where the scan says dead at a block head, the solver does if and only if the block is fully modelled |
| CrScan.ScanAndSolverDiffer | src/cpu/ppc_semantics_dispatch.h:267-279 | on a page with a compare and then an unmodelled instruction, the scan says dead and the solver does not |
| GifBits.BitReader.Refill | src/system/gif.cc:66-72 | the next sub-block replaces the empty buffer without losing payload, or there is none and the reason is told |
| GifBits.BitReader.NextByte | src/system/gif.cc:66-74 | the next payload byte, refilled across a sub-block boundary, or the reason why there is none |
| GifBits.BitReader.FetchBits | src/system/gif.cc:65-84 | the loop completes a code of any width from whole bytes |
| GifBits.BitReader.GetCode | src/system/gif.cc:57-86 | returns and consumes the next width bits, least significant first, of the concatenated sub-blocks, if and only if that many are left |
| GifBits.TakeBits | src/system/gif.cc:77-83 | or-ing the low bits of a byte above the bits so far yields the value of the longer field |
| GifBits.PayloadOfBlocks | src/system/gif.cc:65-72 | data cut anywhere into sub-blocks of 1 to 255 bytes is the payload again, up to an empty or incomplete one |
| Lzw.LzwDecoder.Unwind | src/system/gif.cc:184-190 | following prefixes stacks the string of a code in reverse, within the stack, and stops at once on an unset entry |
| Lzw.LzwDecoder.Draw | src/system/gif.cc:192-195 | popping the stack appends the string to the picture |
| Lzw.LzwDecoder.Record | src/system/gif.cc:196-205 | the new entry, width and free code represent the longer dictionary |
| Lzw.LzwDecoder.Turn | src/system/gif.cc:177-205 | one pass draws the string of the code, the code equal to the next free one included, and moves to the next dictionary |
| Lzw.DecodeImage | src/system/gif.cc:145-206 | on well-formed streams, with or without a leading clear code, the tables and the stack draw exactly the pixels of the abstract dictionary decoder and stop for the same reason |
| Lzw.DefinedExactly | src/system/gif.cc:160-206 | the abstract decoder is undefined if and only if some code is beyond the next free one, or comes with a full table, counting codes since the last clear code |
| LzwCoding.DeferredClearFillsTable | src/system/gif.cc:196-199 | a stream of one clear code and then colours, for every code size, fills the tables |
| Lzw.EntryLength | src/system/gif.cc:184-197 | prefix chains strictly decrease, and string k has between 2 and k + 2 colours |
| Lzw.NextWidth | src/system/gif.cc:199-205 | widening by one bit when the free code exceeds the mask gives the least width that fits, up to 12, in every state |
| Lzw.WidthIsLeast | src/system/gif.cc:199-205 | with a dictionary the code width is the least in which the next free code can be written, up to 12 |
| LzwCoding.RoundTrip | src/system/gif.cc:145-206 | decoding what a greedy GIF encoder writes, from any state and before any padding, gives back every picture |
| LzwCoding.ExampleRow | src/system/gif.cc:145-206 | a concrete stream of eight codes, new strings and a wider code among them, is ten pixels |
| Paths.NextDelim | src/system/file.cc:218-225 | the pointer loop stops at the first delimiter past the first character, or reports none |
| Paths.Remove | src/system/file.cc:232-241 | moving the rest of the string over a component leaves exactly the rest, and nothing in front changes |
| Paths.FlattenPath | src/system/file.cc:227-244 | in the buffer: the string becomes the flattened one, the result is the number of unmatched "..", and nothing in front changes |
| Paths.RightIsLeft | src/system/file.cc:227-244 | the right-to-left pending counter keeps exactly the components, and leaves the "..", of a left-to-right walk with a stack |
| Paths.OnlyNames | src/system/file.cc:227-244 | what is kept are components of the path, none of them "." or ".." |
| Paths.Idempotent | src/system/file.cc:227-244 | flattening its own output changes nothing and leaves no ".." |
| Paths.OneMoreComponent | src/system/file.cc:227-244 | a path with one more component: ".." takes back the last name or is left over, "." does nothing, another name is added |
| Paths.AbsoluteExactly | src/system/file.cc:246-249 | a name is taken as it stands exactly when it starts with a delimiter, or with an ASCII letter and a colon |
| Paths.JoinedPath | src/system/file.cc:251-262 | the joined path leads from where the working directory leads, less a trailing delimiter, on through the components of the name |
| Paths.TrailingSlash | src/system/file.cc:251-262 | a working directory with and without a trailing "/" leads to the same place |
| Paths.Canonicalize | src/system/file.cc:251-265 | success if and only if going on from the working directory by the components of the name leaves no "..", with the names reached in the buffer; failure without a working directory changes nothing |
| StdFuncs.PowFuncInt | src/debug/stdfuncs.cc:137-155 | b^e modulo 2^64 as a signed number, e read as unsigned and not 0 |
| StdFuncs.ReadingsAgree | src/debug/stdfuncs.cc:137-155 | the signed and unsigned readings differ from a number by a multiple of 2^64 |
| StdFuncs.GcdFuncInt | src/debug/stdfuncs.cc:169-176 | a non-negative common divisor that every common divisor divides; 0 for two zeros |
| StdFuncs.LoopOverflowsExactly | src/debug/stdfuncs.cc:169-176 | some turn takes the remainder of the minimum by -1, or the result is 2^63, if and only if the arguments are the minimum and 0 or -1, either way round, or the minimum twice |
| StdFuncs.BinCoeffFuncInt | src/debug/stdfuncs.cc:178-190 | the binomial coefficient if and only if the falling factorial fits 64 bits, and for k > n if and only if k is not 1 |
| StdFuncs.FallingIsBinomial | src/debug/stdfuncs.cc:178-190 | every division of the second loop is exact: n(n-1)...(n-k+1) is the coefficient of Pascal's triangle times k! |

## Left out

- Memory faults, interrupts, privileged registers and AltiVec: they fall under "everything", or outside the model.
- Floating-point arithmetic: one arbitrary function of the instruction word, an address and the untracked state.
- Opcode 63 form mcrfs: its write of a CR field is not modelled, as the interpreter does not implement it.
- Division: the quotient of a zero divisor, or of the minimum by -1, is an arbitrary function of the operands.
- Effects.LivenessSemantics.Record: the separate `gpr_read`, `cr_read`, ... fields of `InsnEffect` are grouped as one `LiveSet` for reads and one for writes; `sraw` of that backend records CA itself, which the model leaves to the CA write that follows it in both templates.
- PageCfg.Cfg.Discover: the guard against an empty block is not repeated, since a scanned block is never empty; the stack is a sequence without the declared size, and the needed size is proved instead.
- PageCfg.PageBlock: offsets and indices are unbounded numbers; all stay within the 16 bits of the source.
- Page bytes: the page is 1024 big-endian words that are already decoded.
- StdFuncs.PowFuncInt: does not cover e = 0, where the source shifts by -1.
- StdFuncs.GcdFuncInt: does not cover the five kinds of arguments on which C++ overflows.
- StdFuncs.BinCoeffFuncInt: does not cover k = 2^64 - 1, where the last loop cannot end.
- StdFuncs: products are taken modulo 2^64, which signed overflow in C++ does not promise; the factorial and the one-expression operators would add easy members.
- Lzw.DecodeImage: ill-formed streams are excluded, as the source then reads unset entries, may follow a cycle of prefixes, or writes past its tables; code sizes are 1 to 8, the picture has room for the pixels, and the locals of the function are fields of an object.
- Lzw.DecodeImage: GIF header, palette, extension blocks and the trailer after the image are not modelled; a read error and the end of the blocks are one outcome here and told apart by `GetCode`.
- Paths.FlattenPath: the null-pointer check of the outermost call is the `None` pointer; the buffer is large enough for the joined path, as the source assumes of its callers.
- File-system calls, the disassemblers, the terminal, the configuration parser, display and input: I/O, tables or user interface.
