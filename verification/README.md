# A verified model of the RV64IMF simulator

The repository is an instruction-set simulator for RV64 with the M and F extensions and machine mode. This project
models three parts of it and proves what they are for:

1. the soft-float unit (`src/fpu.cpp`), a binary32 unit made of 64-bit integers, shifts with a sticky bit and loops.
   Every operation is proved to deliver the exact real result rounded once in the requested mode, with its flags;
2. the RV64M unit (`src/mul_div.cpp`): high products from 32-bit limbs, and division with its total edge cases;
3. the step machine (`src/execute.cpp`, `src/cpu.cpp`, `src/ram.cpp`): instructions compute effects, the executor
   rewrites and applies them through canonicalising setters and returns a commit log. The theorems are about the log
   and about whole runs.

## How it is organised

| files | contents |
|---|---|
| `words.dfy`, `scale.dfy` | machine words as ranges of integers, shifts and bit tests; real numbers times powers of two |
| `ieee.dfy` | the reference: the real value of a word, and rounding a real number once (section 4.3 of IEEE 754-2019) |
| `jam.dfy`, `align.dfy`, `pack.dfy`, `unpack.dfy` | sticky shifts as rounding to odd, operand alignment, `round_and_pack`, operands |
| `add.dfy`, `mul.dfy`, `div.dfy`, `sqrt.dfy`, `fma.dfy`, `convert.dfy`, `compare.dfy`, `fpu.dfy` | the operations |
| `theorems.dfy`, `flags.dfy`, `specials.dfy` | laws between operations; the flags against the standard; every operand that is not a number, and every variant |
| `muldiv.dfy` | the RV64M unit |
| `fields.dfy`, `csr.dfy`, `cpu.dfy`, `ram.dfy` | control and status registers, the core, memory |
| `insn.dfy`, `execute.dfy`, `step.dfy` | decoded instructions, their effects, one step |
| `commitlog.dfy`, `runs.dfy`, `accrual.dfy` | the commit log; runs, traps and returns; floating-point flags over runs |
| `roundtrips.dfy` | pairs of instructions that undo or refine one another |
| `isa.dfy`, `isasystem.dfy` | what each instruction does, from the states alone: targets, values, causes, and when a step commits |

The reference in `ieee.dfy` knows nothing of significand alignment, guard bits or loops. `MagValue` gives the real number
of a word; `Below` is the greatest representable number not above a real one; `Rounded` picks one of the two neighbours by
mode. The code is written as methods with the loops of the source, and each method's postcondition is that its result
equals the reference on the exact real result. The argument in the middle is rounding to odd: `shift_right_jam` composes
with itself, commutes with adding an even number, survives one left shift, and leaves what `round_and_pack` needs to choose
the right neighbour. `round_and_pack` and the datapaths carry the exact real number as a ghost parameter.

Nothing constructs real square roots: `RoundedRoot` decides everything by comparing squares. `RootNeighbours` says of its
result, against every representable number, what rounding the root means, and `RootIsRoot` that it rounds any real number
whose square is the operand.

Integer words are ranges of the unbounded integers; wrap-around, truncation and masks are written out as remainders and
quotients. Register values that are bit sets (mstatus, the logical instructions, the flags) are 64-bit vectors.

## Where the code and the standards differ

- Underflow: the unit decides UF from the delivered result (src/fpu.cpp:133-139), not from the result rounded with
  unbounded exponent as section 7.5 of IEEE 754-2019 asks. `ExceptionFlags.UnderflowIsStandardUnlessMissed` says on exactly
  which exact results the two differ; `ExceptionFlags.UnderflowIsMissed` exhibits one product.
- Division by zero: infinity divided by zero raises DZ because that test comes first (src/fpu.cpp:449-454).
  `ExceptionFlags.DivideByZeroIsStandardUnlessInfinite` says this is the only difference from section 7.3, and
  `ExceptionFlags.InfinityOverZero` gives its result.
- csrrci: the code complements the immediate as a 32-bit word (src/execute.cpp:606, include/decode.h:179), so the value it
  hands to the setter has lost its high half. mstatus does not notice, since its writable bits are all in the low half;
  every other register does. `RoundTrips.ClearImmediate`: a committed csrrci leaves what it should if and only if the
  register is mstatus or its old value is below 2^32. `RoundTrips.ClearImmediateClearsHigh` is a step on mscratch where it
  does not.
- Misaligned pc: the architecture raises an exception for a misaligned jump target or fetch, and the code has none. A trap
  stores pc with its two low bits cleared, as the architecture asks, so a step called with a misaligned pc loses it:
  `Runs.TrapAndReturn` restores pc exactly when it was aligned, and `Runs.MisalignedPcIsLost` is an input. The main loop of
  the simulator stops at such a pc, at an assertion of its fetch.

## Model

| member | source | states |
|---|---|---|
| Jam.JamComposes | src/fpu.cpp:37-50 | jamming by a and then by b is jamming by a + b, for every 64-bit value and distance, 64 and more included |
| Jam.JamToOdd | src/fpu.cpp:37-50 | jamming a number rounded to odd (or one left shift coarser) by any distance is that number scaled down and rounded to odd |
| Jam.SumToOdd | src/fpu.cpp:256-263 | adding an even significand to one rounded to odd gives the exact sum rounded to odd |
| Jam.DifferenceToOdd | src/fpu.cpp:265-280 | subtracting one rounded to odd from a larger even significand gives the exact positive difference rounded to odd |
| Pack.Chooses | src/fpu.cpp:52-75 | the three round bits of a normalised significand decide as the exact number behind it compares with the midpoint of its neighbours |
| Pack.RoundAndPack | src/fpu.cpp:77-155 | any significand below 2^28 that is exact, or is a number rounded to odd and at least 2^25, is delivered as that number rounded once, value and flags, through normalisation, gradual underflow, carry-out and overflow; both loops terminate |
| Operands.Unpack | src/fpu.cpp:894-1029 | unpacking a word gives its sign and class, a zero its own form, and a finite nonzero word a significand in [2^23, 2^24) of the same real value; packing gives back the word for every bit pattern |
| Operands.NormalizeSubnormal | src/fpu.cpp:934-940 | the loop brings a subnormal significand to bit 23 without changing the real value, and the shift can be undone |
| FpuUnit.Repack | src/fpu.cpp:77-155 | rounding and packing an unpacked finite word gives back the word without flags in every mode |
| Add.AlignedSum | src/fpu.cpp:237-270 | with three guard bits and a jammed smaller operand, sum and difference stay exact or rounded to odd with enough leading bits, the significands compare as the operands do, and equality means an exact zero |
| Add.AddOrSub | src/fpu.cpp:180-281 | every sum and difference of two words is the exact sum rounded once, with the signed zeros, infinities and NaNs of the standard |
| Mul.Multiply | src/fpu.cpp:283-330 | every product of two words is the exact product rounded once, specials included |
| Fma.NormalizeWide | src/fpu.cpp:394-399 | the normalisation loop reaches bit 62 and keeps the real number behind the significand |
| Fma.AlignWide | src/fpu.cpp:345-370 | aligning product and addend in 64 bits with a sticky bit leaves a sum and difference exact or rounded to odd |
| Fma.ComputeFma | src/fpu.cpp:332-406 | the unrounded result represents the exact sum of product and addend, zero exactly when that sum is zero |
| Fma.FusedMultiplyAdd | src/fpu.cpp:1109-1226 | for all operands, the four sign variants and the five modes: the exact value of plus or minus a times b plus or minus c, rounded once |
| Div.DivideUnsigned | src/fpu.cpp:413-426 | the restoring loop gives dividend == quotient * divisor + remainder with remainder below divisor, for 1 <= divisor <= 2^63 |
| Div.Divide | src/fpu.cpp:428-485 | every quotient of two words is the exact quotient rounded once, specials included |
| Sqrt.SquareRootUnsigned | src/fpu.cpp:833-852 | the bit-pair loop gives root * root + remainder == value with remainder at most twice the root, for every 64-bit value |
| Sqrt.SquareRoot | src/fpu.cpp:854-890 | every square root is the real square root rounded once, specials included |
| Sqrt.RootIsRoot | src/fpu.cpp:854-890 | the reference for square roots, stated with squares, rounds whatever non-negative real number has the operand as its square |
| Sqrt.RootNeighbours | src/fpu.cpp:854-890 | for every operand and every representable number, by squares alone: to nearest, the root is on the delivered side of the halfway point, with the stated ties; otherwise the delivered number is the neighbour on the stated side |
| Compare.ComparesReals | src/fpu.cpp:487-549 | equal, less and less-or-equal on words are those relations on the numbers they encode, zeros equal, infinities outermost, without flags |
| Compare.ComparesNaN | src/fpu.cpp:501-549 | a NaN compares false with everything and raises exactly NV, except that equality is quiet about quiet NaNs |
| Compare.MinOrMaxBounds | src/fpu.cpp:789-831 | of two numbers the result is an operand and bounds both, and prefers the zero of the right sign |
| Compare.MinOrMaxNaN | src/fpu.cpp:789-831 | a NaN loses against a number, two NaNs give the canonical one, and exactly NV is raised when an operand signals |
| Convert.IntegerToFloat | src/fpu.cpp:551-602 | all four integer types convert to the integer rounded once to binary32 |
| Convert.FloatToInteger | src/fpu.cpp:623-787 | a word converts to its value rounded to an integer when that fits the type, NX exactly when inexact, else to the right bound with NV alone |
| Convert.EncodesInteger | src/fpu.cpp:604-621 | sign and magnitude are encoded as the two's complement of the integer, 32-bit results sign-extended |
| FpuUnit.Binary | src/fpu.cpp:1032-1073 | each two-operand operation delivers the reference result of that operation |
| FpuUnit.BinaryOk | src/fpu.cpp:1032-1073 | every result is a 32-bit word with no flags beyond the five |
| Theorems.Nearest | src/fpu.cpp:52-75 | to nearest, no representable number is closer to the exact result, past 2^128 too, and ties go to even or away from zero |
| Theorems.TowardZero | src/fpu.cpp:52-75 | rounding toward zero delivers the greatest representable magnitude not above the exact one, even past 2^128 |
| Theorems.AwayFromZero | src/fpu.cpp:52-75 | rounding away from zero delivers the least representable magnitude not below the exact one, or infinity |
| Theorems.FlagsTellExactness | src/fpu.cpp:84-155 | NX is raised exactly when the delivered word is not the exact result, and no flag is raised without it |
| Theorems.RoundingIsMonotone | src/fpu.cpp:77-155 | rounding preserves order across signs, zero, underflow and overflow, in every mode |
| Theorems.IntegerConversionIsMonotone | src/fpu.cpp:551-602 | for m <= n of any of the four types, the less-or-equal comparison of the two converted words holds |
| Theorems.FmaByOneIsAdd | src/fpu.cpp:1109-1226 | fma(a, 1, c) and add(a, c) agree in value and flags on all words and modes |
| Theorems.FmaWithZeroIsMultiply | src/fpu.cpp:1109-1226 | fma(a, b, zero of the product's sign) and multiply(a, b) agree in value and flags on all words and modes |
| Theorems.AddCommutes | src/fpu.cpp:180-281 | addition commutes, and subtraction is addition of the word with its sign changed, NaNs included |
| Theorems.AddMirrors | src/fpu.cpp:180-281 | adding the negated operands rounding down is the negation of adding them rounding up, flags equal, for every result but a NaN |
| Theorems.FmaMirrors | src/fpu.cpp:1109-1226 | the doubly negated fused form rounding down is the negation of the plain form rounding up, flags equal |
| Theorems.RoundsToInteger | src/fpu.cpp:623-787 | the integer delivered by a conversion is the nearest one with the stated ties, or the neighbour on the stated side |
| Theorems.RegisterHolds | src/fpu.cpp:604-621 | a register written with an integer of a type reads back as that integer |
| Theorems.SmallIntegersSurvive | src/fpu.cpp:551-602 | integers of magnitude at most 2^24 survive the trip to binary32 and back, in any two modes, without flags |
| ExceptionFlags.OverflowIsStandard | src/fpu.cpp:119-131 | for every positive exact result, OF is raised exactly when that result rounded to 24 bits with unbounded exponent is 2^128 or more |
| ExceptionFlags.UnderflowIsStandardUnlessMissed | src/fpu.cpp:133-139 | UF is raised as after-rounding tininess asks, if and only if the exact result is not in the stated gap just below 2^-126 |
| ExceptionFlags.UnderflowIsMissed | src/fpu.cpp:133-139 | one product in that gap: tiny and inexact, delivered with NX alone |
| ExceptionFlags.DivideByZeroIsStandardUnlessInfinite | src/fpu.cpp:445-461 | DZ is raised as the standard asks if and only if the operation is not infinity over zero |
| ExceptionFlags.InfinityOverZero | src/fpu.cpp:449-454 | the exception: infinity over zero delivers infinity with DZ in every mode |
| Specials.ClassByFields | src/fpu.cpp:894-954 | the class and the sign of a word by its exponent and fraction fields |
| Specials.ValueByFields | src/fpu.cpp:894-954 | the real value of a word by its fields |
| Specials.RoundingFlags | src/fpu.cpp:119-139 | the flag word of a rounding: 5 on overflow, 0 when exact, 3 when inexact and delivered below 2^-126, else 1; and its sign bit |
| Specials.Sums | src/fpu.cpp:180-281 | every sum: NaNs and their flag, infinities and their signs, the rounded exact sum, the sign of an exact zero |
| Specials.Products | src/fpu.cpp:283-330 | every product: NaNs, zero times infinity, infinities, the rounded exact product, the sign of zero |
| Specials.Quotients | src/fpu.cpp:428-485 | every quotient of operands one of which is a zero, an infinity or a NaN, with the sign of each result |
| Specials.NumberQuotients | src/fpu.cpp:428-485 | the quotient of nonzero numbers is the exact one rounded once |
| Specials.Roots | src/fpu.cpp:854-890 | every square root: NaNs, zeros with their sign, negative operands invalid, infinity |
| Specials.FusedVariants | src/fpu.cpp:1118-1139 | msub, nmsub and nmadd are madd on operands with the sign of the addend, of a factor, or of both changed |
| Specials.FusedValues | src/fpu.cpp:1118-1139 | for numbers, the four variants deliver vw+x, vw-x, -vw+x and -vw-x rounded once |
| Specials.FusedSpecials | src/fpu.cpp:1140-1226 | madd on NaNs, zero times infinity, opposed infinities, infinities, and the sign of an exact zero |
| Specials.Bounds | src/fpu.cpp:623-684 | the width and the bounds of the four integer formats |
| Specials.IntegerReads | src/fpu.cpp:551-602 | the integer read from a register is the one of the format that agrees with its low bits |
| Specials.IntegersToFloat | src/fpu.cpp:551-602 | an integer converts to its value rounded once, and zero to positive zero |
| Specials.FloatsToInteger | src/fpu.cpp:623-787 | NaNs and values above the range give the upper bound, values below the lower one, with NV alone; all others the rounded value, with NX alone exactly when it differs; 32-bit results sign-extended |
| Specials.SignsInjected | src/fpu.cpp:1046-1063 | the three sign injections, by bits, without flags |
| Specials.ClassBits | src/execute.cpp:903-945 | the bit of fclass for each class and sign |
| Specials.NamedOperations | src/fpu.cpp:1032-1045 | which operation each name is, and the order of its operands |
| Specials.NamedComparisons | src/fpu.cpp:1042-1068 | the same for minimum, maximum and the comparisons |
| MulDiv.MultiplyHighUnsigned | src/mul_div.cpp:9-31 | the four-limb sum is the product divided by 2^64, with every intermediate in 64 bits |
| MulDiv.MulhIsExact | src/mul_div.cpp:49-58 | signed high word times 2^64 plus the low word is exactly the signed product |
| MulDiv.MulhsuIsExact | src/mul_div.cpp:59-65 | mixed-sign high word times 2^64 plus the low word is exactly the mixed product |
| MulDiv.MulhuIsExact | src/mul_div.cpp:66-67 | unsigned high word times 2^64 plus the low word is exactly the product |
| MulDiv.SignedDivision | src/mul_div.cpp:68-99 | quotient and remainder recombine, the remainder is smaller than the divisor and has the dividend's sign, and zero divisor and overflow give the stated values |
| MulDiv.DivisionRecombines | src/mul_div.cpp:68-99 | dividend equals quotient times divisor plus remainder modulo 2^64 on all operands |
| MulDiv.UnsignedDivision | src/mul_div.cpp:82-101 | the unsigned forms divide, and recombine even for a zero divisor |
| MulDiv.WordMul | src/mul_div.cpp:116-117 | the word product is the sign-extended low word of the doubleword product, whatever the high halves |
| MulDiv.WordDivision | src/mul_div.cpp:118-155 | the signed word forms are the sign-extended low words of the doubleword forms on sign-extended operands, edge cases included |
| MulDiv.UnsignedWordDivision | src/mul_div.cpp:134-159 | the unsigned word forms are the sign-extended low words of the doubleword forms on zero-extended operands |
| Csrs.SetKeepsCanonical | src/cpu.cpp:58-130 | every CSR write keeps fcsr in 8 bits, mepc and mtvec aligned, UXL at RV64 and SD equal to FS being dirty |
| Csrs.SetReadsBack | src/cpu.cpp:43-130 | the value a CSR write returns is what a read then finds |
| Csrs.SetReplays | src/cpu.cpp:58-130 | writing the returned value instead of the original leaves the same registers and returns the same value |
| Csrs.SetFrames | src/cpu.cpp:43-130 | a CSR write leaves every register alone that shares no bits with its own |
| Csrs.CsrOf | src/cpu.cpp:254-273 | a number names a supported register exactly when it is one of the thirteen |
| Cpu.Core.SetGpr | src/cpu.cpp:31-34 | writes a register; a write of x0 changes nothing |
| Cpu.Core.SetFpr | src/cpu.cpp:40-42 | writes the low 32 bits of the value |
| Cpu.Core.SetCsr | src/cpu.cpp:58-130 | writes a register through its mask and returns the value kept; writing mhartid fails and changes nothing |
| Cpu.Core.TakeException | src/cpu.cpp:224-252 | stacks MIE and the privilege in mstatus, records cause, value and pc, and enters the handler in machine mode |
| Cpu.Core.constructor | src/cpu.cpp:15-17 | starts in machine mode at the given pc with zero registers and UXL at RV64 |
| Ram.ByteAccess | src/ram.cpp:19-45 | an access of one byte is that byte, at the wrapped distance of the address from the base |
| Ram.LoadStored | src/ram.cpp:19-63 | what is stored is loaded again, up to its width |
| Ram.LoadElsewhere | src/ram.cpp:19-63 | disjoint accesses of any two widths do not see each other |
| Ram.LoadSplits | src/ram.cpp:19-40 | a wide load is its two narrow halves, lowest first |
| Ram.StoreSplits | src/ram.cpp:42-63 | a wide store is its two narrow halves |
| Ram.Memory.Get | src/ram.cpp:19-40 | an aligned access of 1, 2, 4 or 8 bytes reads the little-endian number at the wrapped offset |
| Ram.Memory.Set | src/ram.cpp:42-63 | an aligned access writes those bytes and no others |
| Ram.Memory.LoadSegment | src/ram.cpp:9-12 | copies a segment into place and leaves all other bytes |
| Ram.Memory.Clear | src/ram.cpp:14-17 | zeroes a range and leaves all other bytes |
| Execute.Dispatch | src/execute.cpp:144-1018 | the overload of every instruction, run on the core and memory objects with the floating-point loops, computes the specified effects and changes neither object |
| Execute.ExecuteOpFp | src/execute.cpp:819-970 | each floating-point instruction delivers the reference result of its operation |
| Execute.ExecuteLoad | src/execute.cpp:246-305 | loads extend as their type says; a misaligned one raises cause 4 with its address |
| Step.DropZeroWrites | src/execute.cpp:28-31 | the rewriting drops the writes of x0 and keeps the others in order |
| Step.ExpandFcsr | src/execute.cpp:33-57 | a write of fcsr becomes one of fflags and one of frm |
| Step.ApplyRegWrites | src/execute.cpp:92-104 | the loop applies the writes in order and logs the values kept, or fails where a setter throws |
| Step.ApplyMemWrites | src/execute.cpp:106-129 | the loop performs the stores in order |
| Step.Run | src/execute.cpp:8-142 | one step in place, on core and memory, is the specified step: commit, exception or error |
| CommitLog.CommitIsTheDiff | src/execute.cpp:8-142 | for every committed step: the logged register and memory writes replay on the state before to exactly the state after, every logged value is what a read then finds, registers and bytes that are not logged are unchanged, logged loads are bytes of the memory, and the logged pc, privilege and word are those before the step |
| CommitLog.AllTruthful | src/execute.cpp:92-104 | for any list of writes to registers that share no bits, every logged value is what a read finds after all of them |
| CommitLog.RewrittenIsDisjoint | src/execute.cpp:28-90 | after the rewriting, the writes of one instruction share no bits, name no x0, and hold words for F registers |
| CommitLog.EffectsShaped | src/execute.cpp:144-1018 | an instruction asks for at most two register writes, a CSR write only after an integer register or as fflags before the result |
| CommitLog.StateIsItsReadings | src/cpu.cpp:23-74 | cores on which every register reads alike are equal |
| CommitLog.TrapChangesLittle | src/cpu.cpp:224-252 | a step that takes an exception changes no register file and no memory, of the CSRs only mstatus, mepc, mcause and mtval, and jumps to mtvec in machine mode |
| Runs.RunFromReset | src/cpu.cpp:15-17 | after any run from reset x0 is zero, fcsr has 8 bits, mepc and mtvec are aligned, UXL is RV64 and SD tells whether FS is dirty |
| Runs.RunKeepsSound | src/execute.cpp:8-142 | the same is kept by any run from any state that has it, exceptions included |
| Runs.StepMarksDirty | src/execute.cpp:59-90 | a step that writes an F register, fflags or frm ends with FS dirty and SD set |
| Runs.RunReplays | src/execute.cpp:8-142 | the concatenated logs of any run of committed steps replay on its first state to its last, and log the same again |
| Runs.MretStep | src/execute.cpp:617-644 | a committed mret jumps to mepc with the stacked privilege, and changes nothing but mstatus |
| Runs.TrapAndReturn | src/execute.cpp:617-644 | an exception, any handler of committed steps that neither return nor write mstatus or mepc by a CSR instruction, and mret: privilege and interrupt enable are as before, and pc is restored if and only if it was aligned |
| Runs.MretCommits | src/execute.cpp:8-142 | an mret commits exactly when its own word can be fetched |
| Runs.TrapAndReturnHappens | src/execute.cpp:645-668 | such a trap and return occurs: an ecall from reset is taken, and an mret at the handler commits |
| Runs.MisalignedPcIsLost | src/cpu.cpp:246 | an ecall at pc 2 saves 0 in mepc |
| Accrual.FlagsAccrue | src/execute.cpp:799-817 | over any run without CSR-instruction writes to fflags or fcsr, exceptions included, fflags ends as its first value joined with the flags of every floating-point operation executed |
| Accrual.ModeStays | src/execute.cpp:43-50 | over any run without CSR-instruction writes to frm or fcsr, frm stays |
| Isa.GoesOn | src/execute.cpp:89-90 | every instruction that is no jump, branch or return goes on to pc + 4 with the same privilege |
| Isa.JalLands | src/execute.cpp:157-162 | jal: the target is pc + imm, rd receives pc + 4, nothing else changes |
| Isa.JalrLands | src/execute.cpp:164-169 | jalr: the target is the old register + imm, rd receives pc + 4, nothing else changes |
| Isa.BranchLands | src/execute.cpp:171-214 | each branch compares as its type says, goes to pc + imm or pc + 4, and changes nothing else |
| Isa.LuiLands | src/execute.cpp:144-148 | lui writes its immediate to rd and changes nothing else |
| Isa.AuipcLands | src/execute.cpp:150-155 | auipc writes pc + imm |
| Isa.FenceLands | src/execute.cpp:506-522 | the fences change nothing but pc |
| Isa.OpLands | src/execute.cpp:419-504 | register-register instructions write the result of their operation, stated for each one apart from its code |
| Isa.OpImmLands | src/execute.cpp:355-417 | so do register-immediate instructions, which have no subtraction and no multiplication |
| Isa.WordOpLands | src/execute.cpp:719-768 | the word instructions write the sign-extended word of their operation on the low words |
| Isa.WordOpImmLands | src/execute.cpp:681-717 | so do those with an immediate |
| Isa.LoadLands | src/execute.cpp:246-305 | an unsigned load leaves exactly the bytes at its address, a signed one the number they are in two's complement; it logs that one access |
| Isa.StoreLands | src/execute.cpp:307-353 | a store leaves the low bytes of its register at its address, logs that one access, and changes no register and no other byte |
| Isa.LoadFpLands | src/execute.cpp:770-777 | a floating-point load leaves the word at its address in the F register, marks mstatus, and changes nothing else |
| Isa.StoreFpLands | src/execute.cpp:779-783 | a floating-point store leaves the word of the F register at its address |
| IsaSystem.NumberedReads | src/cpu.cpp:43-56 | which numbers name a CSR, and what each reads |
| IsaSystem.NumberedWrites | src/cpu.cpp:58-121 | what a write of each number leaves in the CSRs, mask by mask |
| IsaSystem.StatusWrites | src/cpu.cpp:85-96 | a write of mstatus, by bits |
| IsaSystem.StatusMeans | include/cpu.h:9-27 | FS dirty, and what a run keeps of mstatus, by bits |
| IsaSystem.ResetReads | src/cpu.cpp:15-17 | what every register reads in the first state |
| IsaSystem.CsrLands | src/execute.cpp:538-615 | a CSR instruction that writes: its operand by bits for each of the six forms, rd receives the old value, nothing else in the register files changes |
| IsaSystem.CsrReads | src/execute.cpp:538-615 | the forms that do not write leave every CSR alone |
| IsaSystem.MretLands | src/execute.cpp:617-644 | mret, by bits of mstatus: MIE, MPIE, MPP, MPRV and all others; the privilege is the one that MPP held |
| IsaSystem.TrapLands | src/cpu.cpp:224-252 | a step takes an exception exactly for a misaligned load or store, an ecall from U or M, or an unsupported CSR, and mcause and mtval hold the cause and value of each |
| IsaSystem.TrapEnters | src/cpu.cpp:224-252 | the whole state after an exception: mepc, pc, privilege, mstatus by bits, and nothing else but mcause and mtval |
| IsaSystem.OpFpLands | src/execute.cpp:785-973 | each floating-point instruction: its mode by the number in frm, its operation on its operands, its destination, the flags joined, mstatus marked, and nothing else |
| IsaSystem.FmaLands | src/execute.cpp:975-1011 | the same for the fused instructions, with the order of their three operands |
| IsaSystem.CommitsWhen | src/execute.cpp:8-142 | a step commits exactly when its word can be fetched and a condition written out for each instruction holds |
| RoundTrips.StoreThenLoad | src/execute.cpp:246-353 | after a committed store, a committed load of the same width at the same address, from any later core and the same memory, leaves the low bytes of the stored register in its destination, extended as the load says |
| RoundTrips.StoreFpThenLoadFp | src/execute.cpp:770-783 | a floating-point store and load carry the word unchanged, NaNs included |
| RoundTrips.CsrReadsFirst | src/execute.cpp:538-615 | every committed CSR instruction leaves the old CSR value in its destination, even when it writes the CSR or reads the same register |
| RoundTrips.SetAndClear | src/execute.cpp:547-573 | csrrs sets the bits of its operand and no others, csrrc clears them and no others, and clearing after setting is clearing |
| RoundTrips.SetImmediate | src/execute.cpp:592-603 | csrrsi sets the bits of its immediate and no others |
| RoundTrips.CsrWriteLands | src/execute.cpp:538-615 | every committed CSR instruction that writes leaves in the CSR exactly what the setter keeps of the computed value, fcsr by its two halves included |
| RoundTrips.ClearImmediateValue | src/execute.cpp:604-612 | over every 64-bit pattern, the value csrrci hands to the setter is the old one without the bits of its immediate if and only if the old value is below 2^32 |
| RoundTrips.ClearImmediate | src/execute.cpp:604-615 | a committed csrrci with a nonzero immediate leaves in any CSR what the setter keeps of the old value without those bits, if and only if the CSR is mstatus or its old value is below 2^32 |
| RoundTrips.ClearImmediateStep | src/execute.cpp:604-615 | a csrrci of mscratch with a nonzero immediate commits where it can be fetched, and mscratch then holds the value handed to the setter |
| RoundTrips.ClearImmediateClearsHigh | src/execute.cpp:604-615 | such a step on 2^32 + 1 with immediate 1 leaves 0, where clearing bit 0 leaves 2^32 |
| RoundTrips.WordAdd | src/execute.cpp:719-768 | word addition and subtraction are the sign-extended low words of the doubleword ones, whatever the high halves |
| RoundTrips.WordShiftLeft | src/execute.cpp:719-768 | so is the word shift left, for the shift amounts below 32 that the source defines |
| RoundTrips.WordShiftRightSigned | src/execute.cpp:719-768 | the arithmetic word shift right is the doubleword one on the sign-extended operand |

## Left out

- Files, printing and decoding: the ELF loader, the main loop, `Commit::to_string` and the decoder. Instructions are
  already decoded, and a run is any sequence of them, which includes every sequence the main loop can fetch.
- Reserved rounding modes: the static encodings 5 and 6. The arithmetic and the conversions to binary32 throw on them
  when a nonzero result reaches the rounding, exact or not (src/fpu.cpp:52-75); the conversions to integer do not throw but
  truncate, with NX when inexact, as their switch has no default (src/fpu.cpp:734-756). Modes here are the five of the
  standard or dynamic, and dynamic with frm above 4 throws, as in the source.
- Thrown errors: they end a step as stuck, and properties are stated for steps that are not. The state a throwing step
  leaves half-written is not described.
- Undefined behaviour: accesses outside the memory, misaligned floating-point loads and stores, a misaligned pc at the
  fetch, and 32-bit shifts by 32 or more are stuck too.
- Host byte order: memory is little-endian, and its base is a multiple of 8 where typed accesses are made.
- CSR slots: the array of 4096 is a record of the slots that the core reads or writes; the ones the source leaves
  uninitialised start at zero.
- Pack.RoundAndPack: significands of 2^28 and more, for which the first loop of the source stops too early, are excluded;
  no caller passes one. Exponents are kept away from the ends of 32 bits.
- Div.DivideUnsigned: divisors of zero or above 2^63 are excluded; the one caller passes a 24-bit significand.
- Ram.Memory.Get: the four getters differ only in their width, which is a parameter; likewise `Ram.Memory.Set` and the
  setters.
- Methods split: `add_or_sub`, `compute_fma`, `float_to_integer` and other long functions are several methods, one for each
  stage, in the order of the source.
- What the simulator itself leaves out of the architecture: traps when FS is off, physical memory protection, MPRV,
  supervisor mode, and clearing bit 0 in jalr.
