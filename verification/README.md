# A verified model of the guest-program pipeline

This project models how the emulator turns the bytes of an ELF file into a running RISC-V program, and
proves what that pipeline promises:

    file bytes -> program headers -> sorted, checked segments -> data image and code image
               -> instructions -> the run loop

Machine integers are mathematical integers with the wrapping written out; the bitwise operators are
defined bit by bit, and what masks and shifts compute is proved. Code that changes state in the source
(`Thread`, `RegisterFile`, `Arena`, `Emulator`, `ElfHeader`, the instruction being decoded, the header
vectors) is a class whose methods are proved against functions on values; the results about whole runs,
whole programs and whole files are lemmas about those functions.

| file | what it holds |
|---|---|
| `Bits.dfy`, `Memory.dfy` | bit utilities; little-endian loads and stores |
| `Encoding.dfy` | the fields and immediates of a 32-bit encoding |
| `Instructions.dfy`, `Codec.dfy` | instruction types, the table of their encodings, the encoder, what decoding forgets |
| `Listing.dfy` | the listings of chapter 24, and exactly where the decoder departs from them |
| `Decoder.dfy`, `Program.dfy` | the decoder as coded, proved against the table; whole programs |
| `Machine.dfy`, `Isa.dfy`, `Runs.dfy` | the run loop as a state machine; the ISA's control transfers; whole-run results |
| `Base.dfy`, `Arena.dfy`, `Emulator.dfy` | the hart, the memory arena, the emulator and its loop |
| `Segments.dfy`, `Images.dfy` | what the checks of neighbours mean for all segments; copies and memory images |
| `Layout.dfy`, `CodedPlan.dfy` | the order-free plan for a program header table; what the checks and copies as coded do to it |
| `ElfFile.dfy`, `FilePlan.dfy`, `Loader.dfy` | the bytes of a file; plans and promises for whole files; the loader as coded |
| `ElfWriter.dfy`, `LoadableFiles.dfy` | writing files; the files that load given contents, and those that mislead the loader |
| `Rejections.dfy` | what is loaded and why a file is rejected, said of the table's entries |
| `Results.dfy` | optional values and results |

## Main results

- Decoding, exactly: a word decodes to `i` if and only if `i` is well formed and its encoding equals the
  word up to bits 14:12 of a JALR and bits 31:20 of a CSR instruction (`Codec.DecodeExactly`). The kernel,
  both round trips and their lifting to programs follow. The encoder is this project's own.
- The decoder against chapter 24 of the Unprivileged ISA (20191213; FENCE.TSO and PAUSE as later editions list
  them): on every word the two give the same instruction, type and operands, or both reject, if and only if the
  word is not among the departures, which are listed by their fields (`Listings.DecodesAsListedExactly`); what
  each side makes of a departing word follows (`Listings.DeparturesInFull`). The listings are written out with
  their own numbers and share none with the decoder or its table.
- The run loop runs in lockstep with section 2.5 of the Unprivileged ISA on the program with 4 added to its
  jump offsets, for every state and number of steps, if and only if no addressable JALR links through the
  register it jumps through (`Isa.LockstepExactly`).
- For every file, the loader does what its checks and copies, as coded, prescribe for the sorted segments
  (`Loader.LoadElf`, `CodedPlans.CodedPlan`). That is what the plan, which does not look at the order of the
  program headers, says (`Layout.PlanFor`) if and only if no wrapped sum misleads a check
  (`FilePlans.FileFollowsPlanExactly`); and it leaves the file, the arena's storage or the code vector if and
  only if the headers meet an explicit condition (`FilePlans.EscapesExactly`, and a clause of `LoadElf`).
- The plan rejects a file exactly for the first reason that applies to the entries of its table, PT_LOAD entries
  that are not empty; all others count for nothing (`Rejections.RejectsExactly`, `Rejections.LoadedExactly`,
  `Rejections.OtherEntriesAreSkipped`).
- Every nonempty list of well-formed instructions, with every data image that fits, is what some file loads,
  exactly (`LoadableFiles.FileRoundTrip`); every program header table is that of some accepted file
  (`ElfWriters.TableRoundTrip`). The writer is this project's own.
- For any bytes that decode, every state of every run on a fresh thread has an even program counter and
  x0 = 0, and every register index is below 32. Programs without JALR stop whenever their jump offsets are
  bounded from below by more than -4, and not otherwise (`Runs.ThresholdExactly`).

## Where the code departs from its documentation or the standard

The model follows the code.

- `continue` in the run loop still runs the loop's update, so taken jumps land 4 bytes past their target
  (`Isa.StepMissesByFour` states exactly when a step is the ISA's step).
- JALR writes rd before it reads rs1.
- The cycle counter is documented to rise after an instruction is executed; it rises before, so a faulting
  instruction is counted (`Machine.ThrowIsCounted`; `Machine.CyclesAreExecutedExactly` states exactly when the
  documentation is right).
- The arena documents its free offset as that of the first free byte, but allocation subtracts only the
  alignment padding, never the size: two 8-byte objects share a block (`Arenas.TwoObjectsShareABlock`). The
  documented meaning holds after a request exactly when it was empty (`Arenas.FreeOffsetIsPastBlockExactly`);
  two blocks in a row are disjoint exactly when the padding of the second covers the first
  (`Arenas.BlocksApartExactly`).
- Against the listings of chapter 24, the decoder rejects FSQRT and FCVT.D.S as they are listed; takes a
  division by register 0 for FSQRT, and an FCVT.D.S with rs2 = 1; ignores funct3 of JALR, rd and rs1 of ECALL,
  EBREAK, FENCE.TSO and PAUSE, and rs2 of LR, FMV and FCLASS; accepts the reserved rounding modes 5 and 6; and
  accepts any reserved bits above a shift amount, of which only bit 10 of a right shift's immediate matters.
  `Listings.Departs` has them all, and no other encoding departs. CSR numbers are not kept.
- The loader's sums can wrap, and every check of a wrapped sum can be misled. There are files whose header table
  is read outside the file (`LoadableFiles.WrappedTableEscapes`); whose data segment is allocated 8 bytes and
  copied outside memory (`LoadableFiles.WrappedEndEscapes`), or from outside the file
  (`LoadableFiles.WrappedSourceEscapes`); whose data runs over the bytes behind its block
  (`LoadableFiles.WrappedEndOverruns`); and whose code no vector can hold (`LoadableFiles.WrappedCodeIsTooLarge`).
  Overlapping segments are accepted (`Segments.WrappedEndIsAccepted`), or accepted in one order of a tie and
  rejected in the other (`Layout.WrappedTiesMatter`). The exact conditions are `FilePlans.EscapesExactly`, for
  accesses outside, `Images.CopiesFitExactly`, for copies that leave their block, and
  `CodedPlans.FollowsPlanExactly`, for any departure from the plan.

## Model

| member | source | states |
|---|---|---|
| Bits.AndBit | src/riscv/utils/bits.hpp:16-47 | the model's bitwise and acts on every bit separately |
| Bits.OrBit | src/riscv/utils/bits.hpp:22-26 | the model's bitwise or acts on every bit separately |
| Bits.NotBit | src/riscv/utils/bits.hpp:28-32 | the complement flips exactly the bits of the type's width |
| Bits.SameBits | src/riscv/utils/bits.hpp:16-63 | values with the same bits are equal, so the three laws above determine the operators |
| Bits.HasBitIsBit | src/riscv/utils/bits.hpp:16-20 | the mask test is true exactly when that bit is one |
| Bits.SetBitBits | src/riscv/utils/bits.hpp:22-26 | setting a bit makes it one and changes no other |
| Bits.ClearBitBits | src/riscv/utils/bits.hpp:28-32 | clearing a bit makes it zero and changes no other bit of the width |
| Bits.AndOneBits | src/riscv/utils/bits.hpp:36-47 | masking with n one bits takes the remainder modulo 2^n |
| Bits.GetBitsOf | src/riscv/utils/bits.hpp:42-47 | a bitfield read returns the field a value was put together from, whatever lies below and above |
| Bits.SignExtendIsSigned | src/riscv/utils/bits.hpp:49-63 | for every width, sign bit and value, shifting left and arithmetically right gives the two's-complement value of the low bits |
| Memory.LoadU16 | src/riscv/utils/memory.hpp:16-30 | the shift-and-or form is the little-endian value of the two bytes |
| Memory.LoadU32 | src/riscv/utils/memory.hpp:32-45 | the shift-and-or form is the little-endian value of the four bytes |
| Memory.LoadU64 | src/riscv/utils/memory.hpp:47-62 | the shift-and-or form is the little-endian value of the eight bytes |
| Memory.StoreU16 | src/riscv/utils/memory.hpp:64-75 | replaces two bytes by the value's base-256 digits and nothing else |
| Memory.StoreU32 | src/riscv/utils/memory.hpp:77-90 | replaces four bytes by the value's base-256 digits and nothing else |
| Memory.StoreU64 | src/riscv/utils/memory.hpp:92-109 | replaces eight bytes by the value's base-256 digits and nothing else |
| Memory.LoadAfterStore | src/riscv/utils/memory.hpp:16-109 | a load returns what was stored at the same place, at each width wherever it fits |
| Memory.StoreAfterLoad | src/riscv/utils/memory.hpp:16-109 | storing back what was loaded changes nothing, at each width wherever it fits |
| Encoding.Bitfields | src/riscv/instruction.cpp:60-90 | the getters' bitfields are the fields of section 2.2 that the word is composed of |
| Encoding.SplitUnique | src/riscv/instruction.cpp:60-90 | a word has exactly one split into fields |
| Encoding.ImmediateISum | src/riscv/instruction.cpp:92-96 | the I immediate is its section 2.3 sum and in [-2048, 2047] |
| Encoding.ImmediateSSum | src/riscv/instruction.cpp:98-102 | the S immediate is its section 2.3 sum and in [-2048, 2047] |
| Encoding.ImmediateBSum | src/riscv/instruction.cpp:104-112 | the B immediate is its section 2.3 sum, even, and in [-4096, 4094] |
| Encoding.ImmediateUSum | src/riscv/instruction.cpp:114-118 | the U immediate is its section 2.3 sum, a multiple of 4096 and a 32-bit integer |
| Encoding.ImmediateJSum | src/riscv/instruction.cpp:120-128 | the J immediate is its section 2.3 sum, even, and in [-2^20, 2^20 - 2] |
| Instructions.MatchUnique | src/riscv/instruction.cpp:182-1064 | no encoding belongs to two instruction types |
| Decoder.ReadFieldsR | src/riscv/instruction.cpp:130-138 | sets the three registers to the word's fields and no other member; returns funct3 and funct7 |
| Decoder.ReadFieldsI | src/riscv/instruction.cpp:140-147 | sets rd, rs1 and the sign-extended I immediate and no other member |
| Decoder.ReadFieldsS | src/riscv/instruction.cpp:149-156 | sets rs1, rs2 and the sign-extended S immediate and no other member |
| Decoder.ReadFieldsB | src/riscv/instruction.cpp:158-165 | sets rs1, rs2 and the sign-extended B immediate and no other member |
| Decoder.ReadFieldsU | src/riscv/instruction.cpp:167-172 | sets rd and the U immediate and no other member |
| Decoder.ReadFieldsJ | src/riscv/instruction.cpp:174-179 | sets rd and the sign-extended J immediate and no other member |
| Decoder.DecodeBranch | src/riscv/instruction.cpp:182-211 | succeeds with the type and members of the matching table entry, or fails and no entry matches |
| Decoder.DecodeLoad | src/riscv/instruction.cpp:213-247 | the same for LOAD |
| Decoder.DecodeStore | src/riscv/instruction.cpp:249-274 | the same for STORE |
| Decoder.DecodeOpImm | src/riscv/instruction.cpp:276-318 | the same for OP-IMM, with bit 10 of a right shift's immediate cleared |
| Decoder.DecodeOpImm32 | src/riscv/instruction.cpp:320-350 | the same for OP-IMM-32 |
| Decoder.DecodeOp | src/riscv/instruction.cpp:352-438 | the same for OP |
| Decoder.DecodeOp32 | src/riscv/instruction.cpp:440-509 | the same for OP-32 |
| Decoder.DecodeMiscMem | src/riscv/instruction.cpp:511-545 | the same for MISC-MEM, with the fence immediate unsigned |
| Decoder.DecodeSystem | src/riscv/instruction.cpp:547-595 | the same for SYSTEM, with no immediate kept |
| Decoder.DecodeAMO | src/riscv/instruction.cpp:597-693 | the same for AMO, with the acquire and release bits as immediate |
| Decoder.DecodeLoadFP | src/riscv/instruction.cpp:696-716 | the same for LOAD-FP |
| Decoder.DecodeStoreFP | src/riscv/instruction.cpp:719-739 | the same for STORE-FP |
| Decoder.DecodeFPFusedMultiplyAdd | src/riscv/instruction.cpp:741-804 | the same for the four fused multiply-add opcodes |
| Decoder.DecodeOpFP | src/riscv/instruction.cpp:806-971 | the same for OP-FP, at both precisions |
| Decoder.DecodeInstruction | src/riscv/instruction.cpp:974-1064 | returns what the table says for every 32-bit word, accepted or not |
| Listings.ListingExactly | src/riscv/instruction.cpp:182-1064 | for all fields, the decoder's table has the same types as chapter 24 iff none of the listed departures applies |
| Listings.DecodesAsListedExactly | src/riscv/instruction.cpp:974-1064 | every word decodes to the instruction, operands included, that chapter 24 lists, or is rejected by both, iff its fields are not a departure |
| Listings.DeparturesInFull | src/riscv/instruction.cpp:276-971 | for every departing word, the type the decoder finds or its rejection, and the type chapter 24 lists or none |
| Listings.OperandsAsListed | src/riscv/instruction.cpp:92-179 | for every listed word, registers, rounding mode, aq and rl, shift amount and immediate are the bits that section 2.3 and the word's row name |
| Listings.DecodesToItsBits | src/riscv/instruction.cpp:92-1064 | every word that decodes, departing ones included, decodes to the operands its bits spell out; a shift keeps the whole immediate, a right shift without bit 10 |
| Listings.ListedUnique | src/riscv/instruction.cpp:182-1064 | the listings give no encoding two types |
| Codec.DecodeExactly | src/riscv/instruction.cpp:130-1064 | a word decodes to an instruction iff the instruction is well formed and its encoding is the word up to the forgotten bits |
| Codec.DecodeKernel | src/riscv/instruction.cpp:182-1064 | accepted words decode alike iff equal, or both JALR equal outside bits 14:12, or CSR instructions equal in bits 19:0 |
| Codec.DecodeEncode | src/riscv/instruction.cpp:974-1064 | decoding the encoding of any well-formed instruction returns it |
| Codec.EncodeDecode | src/riscv/instruction.cpp:974-1064 | encoding what an accepted word decodes to returns the word, outside JALR and CSR instructions |
| Program.DecodeInstructions | src/riscv/instruction.cpp:1067-1093 | the loop returns the instructions, or the error, that the word-by-word meaning prescribes |
| Program.CompressedNeverDecodes | src/riscv/instruction.cpp:52-56 | the compression test on the first byte is the test on the word's low bits, and no such word decodes |
| Program.ProgramAccepted | src/riscv/instruction.cpp:1067-1093 | accepted iff the size is a multiple of 4 and every word decodes; then one instruction a word, in order |
| Program.FirstBadWord | src/riscv/instruction.cpp:1078-1087 | the first word that does not decode decides which error is raised |
| Program.DecodeConcat | src/riscv/instruction.cpp:1067-1093 | decoding a concatenation decodes the parts in turn |
| Program.ProgramRoundTrip | src/riscv/instruction.cpp:1067-1093 | decoding the stored encodings of any well-formed instructions returns them |
| Program.EncodeAfterDecodeProgram | src/riscv/instruction.cpp:1067-1093 | decoded instructions are well formed, and encoding them restores every word up to the forgotten bits |
| Program.ProgramKernel | src/riscv/instruction.cpp:1067-1093 | two programs decode alike iff they have the same length and agree word by word up to the forgotten bits |
| Base.RegisterFile.Set | src/riscv/base.hpp:109-115 | writes the value to that register and to no other, and nothing when the index is 0 |
| Base.Thread.SetFloatExceptionFlag | src/riscv/base.cpp:9-15 | makes that flag of fcsr the given value, leaves every other bit alone and keeps fcsr valid |
| Base.Thread.GetFloatExceptionFlag | src/riscv/base.cpp:17-20 | returns that bit of the flags |
| Base.Thread.GetFloatControlStatusRegister | src/riscv/base.cpp:22-26 | the packed value is 32 times the rounding mode plus the flags |
| Base.Thread.SetFloatControlStatusRegister | src/riscv/base.cpp:28-32 | replaces both fields by those of the value and keeps fcsr valid |
| Base.FlagWrite | src/riscv/base.cpp:9-20 | a flag write sets that flag, leaves the others alone and keeps the flags below 32 |
| Base.WriteMeans | src/riscv/base.cpp:9-32 | a flag write makes that flag what is written and changes no other bit of fcsr; a register write leaves the value modulo 256 |
| Base.ValueBits | src/riscv/base.cpp:22-26 | bits 0 to 4 of fcsr are the flags, bits 5 to 7 the rounding mode |
| Base.FieldsNeverOverlap | src/riscv/base.cpp:9-32 | after any sequence of flag and register writes the two fields do not overlap |
| Base.FcsrReadWrite | src/riscv/base.cpp:22-32 | reading after writing v gives v mod 256; writing back what was read changes nothing |
| Emulators.Emulator.constructor | src/riscv/emulator.hpp:117-117 | a fresh emulator has zeroed memory, its free offset at 0, and no program |
| Emulators.Emulator.Execute | src/riscv/emulator.cpp:26-101 | the switch changes registers and program counter as the state machine's execution does, and throws on everything else |
| Emulators.Emulator.Run | src/riscv/emulator.cpp:15-103 | the loop's passes are the state machine's run; float registers, fcsr and the program are not written |
| Machine.RunOn | src/riscv/emulator.cpp:19-102 | running a + b passes is running a, and b more if still running |
| Machine.CyclesAreFetches | src/riscv/emulator.cpp:19-25 | the cycle counter rises by the number of fetched instructions modulo 2^64 |
| Machine.CyclesAreExecutedExactly | src/riscv/emulator.cpp:19-25 | the counter rises by the number of executed instructions, as documented, iff the run does not throw |
| Machine.ThrowIsCounted | src/riscv/emulator.cpp:19-25 | a run that executes nothing and counts one cycle |
| Machine.PassThrowsExactly | src/riscv/emulator.cpp:26-100 | a pass throws iff the instruction is none of LUI, AUIPC, JAL, JALR and the branches |
| Machine.ReturnIsFinal | src/riscv/emulator.cpp:19-20 | running again after a normal return changes nothing |
| Machine.ThrowKeepsState | src/riscv/emulator.cpp:19-102 | a throw leaves the state of the passes before it, on the first unsupported instruction reached, one cycle later |
| Isa.StepExactly | src/riscv/emulator.cpp:19-102 | a step equals the ISA's step iff it does not jump, or is a self-linking JALR whose register held the link address plus 4 up to the cleared bit |
| Isa.StepMissesByFour | src/riscv/emulator.cpp:19-102 | a step is the ISA's step except that jumps land 4 bytes further, for all but a self-linking JALR |
| Isa.StepIsShiftedIsaStep | src/riscv/emulator.cpp:19-102 | a step is the ISA's step of the instruction with 4 added to its jump offset |
| Isa.LockstepExactly | src/riscv/emulator.cpp:19-102 | from all states and for all step counts the loop is the ISA machine on the shifted program, iff no JALR at an address below 2^64 links through itself |
| Runs.DecodedRunsAreSound | src/riscv/emulator.cpp:19-102 | every run of a decoded program on a fresh thread keeps pc even and x0 zero, with register indices below 32 |
| Runs.RunKeepsSound | src/riscv/emulator.cpp:19-102 | the same from any state with an even pc and x0 zero |
| Runs.ForwardTerminates | src/riscv/emulator.cpp:19-102 | without JALR and with all offsets above -4 a run stops within half as many passes as bytes left; pc grows by at least 2 a pass, never wraps and ends below 4n + 2^20 + 4 |
| Runs.NonnegativeTerminates | src/riscv/emulator.cpp:19-102 | without negative offsets it stops within the instructions left, and pc grows by at least 4 a pass |
| Runs.JumpBackSpins | src/riscv/emulator.cpp:36-39 | a JAL by any even offset from -4 down, with enough instructions before it, runs forever from every start |
| Runs.ThresholdExactly | src/riscv/emulator.cpp:19-102 | a lower bound on the offsets of JALR-free programs makes all runs stop iff it is above -4 |
| Arenas.Arena.AllocateRaw | src/riscv/utils/arena.hpp:98-106 | the block and the new state are those of one aligned request |
| Arenas.Arena.AllocateBytes | src/riscv/utils/arena.hpp:71-92 | a byte array lies at the free offset and is zeroed; nothing else in storage changes |
| Arenas.GrantedExactly | src/riscv/utils/arena.hpp:98-106 | a request is granted iff some aligned block of its size lies in storage from the free offset on, and is granted the least one |
| Arenas.BlockIsAligned | src/riscv/utils/arena.hpp:98-106 | every block is aligned and inside storage, a failure changes nothing, the free offset never decreases |
| Arenas.OffsetLaw | src/riscv/utils/arena.hpp:29-39 | after any requests the free offset is the least one aligned to the largest alignment granted |
| Arenas.OrderIrrelevant | src/riscv/utils/arena.hpp:98-106 | the state depends on the requests only through the largest alignment granted |
| Arenas.FreeOffsetIsPastBlockExactly | src/riscv/utils/arena.hpp:34-39 | after a granted request the free offset is past the block, as documented, iff the block is empty |
| Arenas.BlocksApartExactly | src/riscv/utils/arena.hpp:98-106 | two nonempty blocks in a row are disjoint iff the second one's padding covers the first |
| Arenas.RepeatedRequest | src/riscv/utils/arena.hpp:98-106 | repeating a granted request grants the same block and changes nothing |
| Arenas.TwoObjectsShareABlock | src/riscv/utils/arena.hpp:98-106 | two 8-byte objects in a fresh arena lie at the same offset |
| Arenas.Arena.GetFreeOffsetAlignedTo | src/riscv/utils/arena.hpp:43-57 | returns the offset that allocating would grant, and the storage size iff allocating would throw |
| Loader.ElfHeader.Read | src/riscv/elf.cpp:29-48 | reads the header, and accepts exactly the files whose header bytes are the expected ones and whose table bound, wrapped, is in the file; names the first failing check |
| Loader.ElfHeader.Validate | src/riscv/elf.cpp:63-84 | the comparisons of the members reach the verdict on the file's literal bytes |
| ElfFiles.MeansBytes | src/riscv/elf.cpp:51-72 | the compared numbers are the literal header bytes |
| ElfFiles.EntryRoundTrip | src/riscv/elf.cpp:110-120 | reading an entry laid out as chapter 5 of the gABI prescribes returns its segment |
| ElfFiles.TableBoundExactly | src/riscv/elf.cpp:79-83 | an accepted header table lies in the file iff its bound does not wrap, iff its first entry is read inside the file |
| Loader.ReadSegmentHeaders | src/riscv/elf.cpp:127-155 | for every accepted header: collects the loadable segments in table order, rejects iff a wrapped source end is outside the file, or reads outside iff the table does |
| Loader.SortHeadersBySegmentAddresses | src/riscv/elf.cpp:157-161 | leaves a sorted permutation, with nothing promised about ties |
| Loader.ValidateDataHeaders | src/riscv/elf.cpp:163-178 | reports truncation before overlap, each iff some segment, or some neighbours, fail |
| Loader.ValidateCodeHeaders | src/riscv/elf.cpp:180-203 | reports the first of its four checks that fails |
| Loader.MapDataSegments | src/riscv/elf.cpp:221-241 | for every list: reports that the last end does not fit, or accesses out of bounds iff a copy leaves the file or the storage, or leaves the copies over the zeroed block and whatever lies behind it |
| Loader.MapCodeSegments | src/riscv/elf.cpp:244-255 | for every list: throws if no vector holds the last end, accesses out of bounds iff a copy leaves the file or the vector, or sets the program that the copies decode to, or reports the decoding error |
| Loader.LoadElf | src/riscv/elf.cpp:258-275 | for every file: follows the coded plan of the sorted segments and changes nothing else; accesses out of bounds iff the headers escape; follows the order-free plan when no sum wraps |
| CodedPlans.UndefinedExactly | src/riscv/elf.cpp:127-255 | the coded checks and copies access bytes outside iff every check accepts, and the data does not stay inside file and storage or the code, if a vector can hold it, inside file and vector |
| CodedPlans.FollowsPlanExactly | src/riscv/elf.cpp:127-255 | for every table and every arrangement sorting may leave, the coded checks and copies do what the order-free plan says iff no wrapped sum misleads a check |
| CodedPlans.NothingMisleads | src/riscv/elf.cpp:88-255 | sums that do not wrap mislead no check; below 2^48 bytes nothing is asked of the code segments' ends |
| CodedPlans.CodeStaysInside | src/riscv/elf.cpp:206-255 | accepted code segments stay inside file and code size iff none of their sums wraps |
| FilePlans.EscapesExactly | src/riscv/elf.cpp:258-275 | loading a file accesses bytes outside iff its table's bound wraps, or every check accepts and the data does not stay inside the storage, or code that a vector can hold inside it |
| FilePlans.FileFollowsPlanExactly | src/riscv/elf.cpp:258-275 | loading a file does what its plan says iff no wrapped sum misleads a check |
| FilePlans.UnwrappedFollowsPlan | src/riscv/elf.cpp:258-275 | when no sum of the file wraps, loading does what its plan says and accesses nothing outside |
| FilePlans.FilesLoadAlike | src/riscv/elf.cpp:127-275 | two files with permuted header tables and the same segment contents load alike, whatever sorting leaves of ties |
| FilePlans.FreshMemoryIsExact | src/riscv/elf.cpp:206-241 | loaded into a fresh emulator, every byte of guest memory is the file's byte of its segment, or zero |
| FilePlans.FileRunsAreSound | src/riscv/elf.cpp:244-275 | whatever program a file loads, as coded or as planned, its runs from a fresh thread or any sound state keep pc even and x0 zero |
| Rejections.LoadedExactly | src/riscv/elf.cpp:141-154 | the sorted lists hold exactly the nonempty PT_LOAD entries, by their executable flag, each as often as the table does |
| Rejections.OtherEntriesAreSkipped | src/riscv/elf.cpp:141-142 | inserting an entry of any other type anywhere in a table changes neither the plan nor what is coded |
| Rejections.FileSkipsOtherEntries | src/riscv/elf.cpp:141-142 | the same for the table of a whole file |
| Rejections.RejectsExactly | src/riscv/elf.cpp:147-234 | the plan gives each error exactly when it is the first that applies to the entries of the table, in numbers |
| Rejections.TooLargeExactly | src/riscv/elf.cpp:248-250 | the plan finds no vector for the code iff some code entry ends at 2^63 or later |
| Rejections.FileRejectsExactly | src/riscv/elf.cpp:258-275 | a file's plan rejects it exactly for its header or for that first reason |
| ElfWriters.HeaderVerdictExactly | src/riscv/elf.cpp:64-84 | a header is accepted iff each constrained byte is the one of a written header and the bound, wrapped, is in the file; and the two other errors, likewise |
| ElfWriters.TableRoundTrip | src/riscv/elf.cpp:29-155 | every program header table is read back from the file written for it, whose header is accepted |
| LoadableFiles.FileRoundTrip | src/riscv/elf.cpp:258-275 | for every nonempty program of well-formed instructions and every data that fits, the file written for them loads exactly them |
| LoadableFiles.SwappedHeadersLoad | src/riscv/elf.cpp:127-275 | so does the file with its two program headers swapped |
| LoadableFiles.PermutedFilesLoadAlike | src/riscv/elf.cpp:127-275 | writing a table in another order makes a file that loads alike |
| LoadableFiles.WrappedTableEscapes | src/riscv/elf.cpp:79-83 | a file whose header is accepted and whose table's bound wraps, so that loading reads outside it |
| LoadableFiles.WrappedEndEscapes | src/riscv/elf.cpp:221-241 | a file whose data segment's wrapping end passes every check and whose copy leaves memory |
| LoadableFiles.WrappedSourceEscapes | src/riscv/elf.cpp:147-148 | a file whose data segment's wrapping source end passes every check and whose copy reads outside the file |
| LoadableFiles.WrappedEndOverruns | src/riscv/elf.cpp:221-241 | a file whose data is copied past its block, inside the storage iff that goes on far enough |
| LoadableFiles.WrappedCodeIsTooLarge | src/riscv/elf.cpp:244-250 | a file that passes every check with more code than a vector holds, so that loading throws after the data is mapped |
| Images.CopiesFitExactly | src/riscv/elf.cpp:206-255 | for every sorted list that passed the checks and any memory up to its last end or beyond, all copies fit iff no source end wraps and, where an end or the last end wraps, the file part ends inside |
| Images.CopySegments | src/riscv/elf.cpp:206-218 | copies the segments in list order, iff all of them fit |
| Images.CopyAllIsImage | src/riscv/elf.cpp:206-218 | copying disjoint segments into zeroed memory gives the same image in any order |
| Segments.AllApartExactly | src/riscv/elf.cpp:173-177 | sorted nonempty segments are pairwise disjoint iff the check of neighbours accepts them and no segment but the last wraps |
| Segments.WrappedEndIsAccepted | src/riscv/elf.cpp:173-177 | two overlapping segments that the check accepts because an end wraps |
| Segments.LastEndIsLargest | src/riscv/elf.cpp:228-228 | the last segment's end is the largest |
| Segments.NeighboursJoinExactly | src/riscv/elf.cpp:193-202 | sorted nonempty segments partition [0, n) for some n of at least 1 iff the contiguity check accepts them and no segment but the last wraps |
| Segments.SmallFileJoinsExactly | src/riscv/elf.cpp:180-203 | for a file below 2^48 bytes the same holds without a premise on wrapping |
| Segments.CodeSizes | src/riscv/elf.cpp:180-248 | for such a file accepted code segments do not wrap, and their total is the sum of the file sizes, at most count times file size |
| Segments.OrderedIsUnique | src/riscv/elf.cpp:157-178 | disjoint segments have only one sorted arrangement |
| Layout.ExecutableIsLowBit | src/riscv/elf.cpp:150-153 | a segment is code iff bit 0 of its flags is set |
| Layout.DataVerdictExactly | src/riscv/elf.cpp:163-178 | the checks on any sorted arrangement reach the verdict on the segments as such (not truncated, pairwise disjoint) iff they do not accept a list that wraps before its last segment |
| Layout.CodeVerdictExactly | src/riscv/elf.cpp:180-203 | the same for code: present, not resized, starting at 0 and tiling |
| Layout.TiesDoNotMatter | src/riscv/elf.cpp:157-203 | two sorted arrangements of segments that do not wrap get the same verdicts, and are equal if accepted |
| Layout.WrappedTiesMatter | src/riscv/elf.cpp:157-178 | a tie of wrapping segments that the check accepts in one order and rejects in the other |
| Layout.HeaderOrderIrrelevant | src/riscv/elf.cpp:127-275 | permuting the program header table changes neither the rejection nor the images |
| Layout.DataImageIsExact | src/riscv/elf.cpp:206-241 | each address in a segment's file part holds its file byte, every other address below the largest end is zero, and the rest is unchanged |
| Layout.CodeImageIsExact | src/riscv/elf.cpp:244-255 | every byte of the code image comes from exactly one segment at the matching file offset |

## Left out

- Loader.LoadElf: takes files below 2^63 bytes, the most an object of a C++ program can have; after an access outside the file, the arena's storage or the code vector, which C++ leaves undefined, it promises nothing about memory.
- A copy of no bytes whose addresses lie outside the memory counts as outside, as forming them does in C++.
- Emulators.Emulator.Run: cut off after a given number of passes, because the loop need not end; every statement holds for every number of passes.
- Loader.SortHeadersBySegmentAddresses: `std::sort` is modelled by an insertion sort of which callers know only that it leaves a sorted permutation.
- Base.Thread.SetFloatExceptionFlag: flags are the five of the enumeration.
- The flat enumeration of instruction types is grouped by opcode; the switches that the source repeats for each width or precision are written once.
- The class named in an unknown-instruction exception, that one branch throws a pointer to it (src/riscv/instruction.cpp:913), and all other exception texts; every check of the loader has an error of its own instead.
- Misaligned-target exceptions of the ISA: the emulator does not raise them, and the reference machine has none.
- Execution of loads, stores, arithmetic, atomic and floating-point instructions: the loop throws on them.
- Host memory exhaustion, for the code image or for guest memory; guest memory of 2^63 bytes or more, which no vector holds.
- Construction of objects other than bytes in the arena, `raw()`, and the wrapping of an array's size in bytes for items larger than a byte.
- The `memcpy` form of the loads and stores, which has the meaning of the byte-shift form on little-endian hosts.
- Floating-point values (kept as bit patterns, never computed on) and wall-clock time.
- Syscalls, custom syscall handlers, the application, its options and the renderer.
