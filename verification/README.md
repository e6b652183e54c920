# Verified model of the RISC-V emulator support code and the test bench log matcher

The repository builds a cache for RISC-V cores and checks it with an instruction-set emulator
(dromajo), a golden memory model and log checkers. This project models that checking code in
Dafny and proves that it computes what it is trusted to compute. `dafny verify dfyconfig.toml`
checks everything.

## What is modelled

**SoftFP** (`Powers`, `Sticky`, `Ieee754`, `RoundingKernel`, `Normalization`, `WideArithmetic`,
`SquareRoot`, `Operands`, `Addition`, `Multiplication`, `Division`, `RootRounding`, `FloatSqrt`,
`FusedMultiplyAdd`, `IntegerConversion`, `FormatConversion`, `RoundingTheorems`, `FloatLaws`). The template is
generic in its sizes, and so is every theorem: a `Format` has any mantissa and exponent size with
an even total size, at least two mantissa and five exponent bits. The reference is exact real
arithmetic followed by one rounding to the ladder of magnitudes (IEEE 754-2008, sections 4.3, 5.4,
6.3 and 7); it shares no definition with the code. Square root has a second reference that squares
the candidates instead of naming the root. `RoundingTheorems` then shows that this
reference means what the standard says: nearest, directed, monotone, unique, with tininess after
rounding. `FloatLaws` states formats, NaNs, signs, infinities and flags in plain numbers.

**Robin-hood table** (`HoodLayout`, `HoodSteps`, `HoodSizes`, `HoodFits`, `HoodCrowds`,
`HoodTable`, `HoodRuns`). Slots and info bytes are arrays that the scan and shift loops update in
place. The invariant says how info bytes of neighbouring slots relate, what each byte says about its key, and
that the slots hold exactly a map. Every step keeps it, every run refines a finite map, and
each operation throws exactly when a condition on memory, sizes and hashes says so.

**Address translation** (`PageWalk`, `SoftTlb`, `TlbFences`, `CodeFetch`): page walk, protection
check and range lookup without any TLB, compared with the walk of the privileged architecture, and
a hart with three TLBs whose replies are proved to be the same on every run in which the
translations an access finds in use are still right. `TlbFences` says exactly which changes leave
them right. `TranslationLaws` states the walk level by level, `MemoryLaws` loads and stores byte by
byte (`ByteOrder`). **Dirty pages** (`DirtyPages`): several
harts, their write TLBs and the two bitmaps of a RAM range. **Protection registers**
(`PmpRegisters`), with the priority of entries from the registers to the decision
(`ProtectionLaws`). **Checkpoint boot ROM** (`BootMachine`, `BootBlocks`, `BootProgram`, `BootRom`):
the generator that fills the image and the interpreter that runs it.

**Virtqueues** (`GuestMemory`, `DescriptorChains`, `VirtioCopy`, `VirtioRings`, `VirtioBlock`,
`VirtioController`; VIRTIO 1.0, section 2.4): guest memory behind page pointers, the copies between
a buffer and a descriptor chain, the ring protocol of the block device, one request from chain to
disk file, and ring and chain together. `VirtioLaws` states all of it from the driver's side, as
bytes in guest memory and on the disk.

**LiveCache** (`LruSpec`, `LiveCache`, `LiveTraversal`), **golden memory checker** (`GoldData`,
`GoldCheck`), **log matcher** (`EbiMatch`), **device tree builder** (`DeviceTree`, `FdtBuilder`,
`TreeLaws`; Devicetree Specification, sections 5.2 to 5.5, with a parser that shares nothing with
the builder and the bytes of the format beside it).

## How to read it

A method models a function of the source that changes state or loops; the functions and lemmas
beside it say what its result means. Ghost fields and parameters carry the abstract value: the
map of a table, the trace of a cache, the history of a memory, the chain of a request. A `false`
result named `ok` stands for a thrown error or a failed allocation, after which the state is not
described. Inputs from outside (a hash function, initial memory, the answer of a block backend,
the load factor and the memory a table may allocate) are parameters.

Conventions of the model: words of the source are natural numbers with their bounds written out;
ors of disjoint bit fields are sums; exception flags are a record that is returned instead of
written through a pointer; where the source has a wide-integer and a portable variant (product,
division, integer root), the portable one is modelled.

## Findings

- `insert_move` calls its overflow branch impossible to reach (gold/robin_hood.hpp:1337). A
  rehash can merge clusters and reach it: `HoodRuns.MergedClusters` does so with 204 keys. The
  condition is exact (`HoodTable.Table.InsertMove`, `HoodCrowds.FullIsCrowd`) and never met with at
  most 126 elements (`HoodRuns.ModestIsCalm`).
- `sqrtrem_u` can start below the root when both words are nonzero (`SquareRoot.StartTooLow`), and
  on one double word the sum of a Newton step wraps to zero, the next divisor
  (`SquareRoot.DoomedStep`); `SquareRoot.SqrtRemU` says exactly when it is right, and its only caller
  is safe.
- The conversion to a narrower float drops the normalized mantissa of a subnormal operand
  (include/softfp_template.h:994); `FormatConversion.TinyAlike` shows that no result changes.
- `fma_sf` drops the sticky bits of the low word for shifts beyond one word
  (include/softfp_template.h:513); the sum still rounds correctly (`FusedMultiplyAdd.AddAligned`).
- The superpage test looks at j bits instead of 9j (`PageWalk.SuperpageTest`,
  `PageWalk.MisalignedAccepted`), and SUM lets supervisor mode fetch code from user pages
  (`PageWalk.UserCodeAccepted`); in all other respects the walk is the architecture's
  (`PageWalk.WalkIsSpec`).
- No flush follows when a trap from M or an mret to M changes MPP while MPRV is set. A trap spoils
  exactly the data translations that do not map a page to itself (`TlbFences.MppRise`,
  `TlbFences.TrapKeeps`, `TlbFences.TrapStale`), a return exactly those that the lower mode does not
  get by walk and protection (`TlbFences.MppFall`, `TlbFences.MretKeeps`, `TlbFences.MprvStale`).
  All other changes of the status are flushed or spoil nothing (`TlbFences.ClearMprvKeeps`,
  `TlbFences.StatusKeeps`).
- A top-of-range protection entry with no address in it still decides accesses that straddle its
  bound (src/riscv_cpu.cpp:212), though by the architecture it matches nothing:
  `ProtectionLaws.EmptyEntryCatches` is such a case, `ProtectionLaws.CaughtExactly` says that there
  are no others.
- A compressed instruction in the last halfword of a page runs on a code-TLB hit but traps on a
  miss when the next page may not be executed, and a long one traps with a different address
  (`CodeFetch.HitIsMiss`, `CodeFetch.EndOfRam`).
- The boot ROM takes the high half of each floating-point register from the integer registers
  (src/riscv_cpu.cpp:2195) and the counter-enable and counter-inhibit registers from a sign-extended
  12-bit immediate; `BootProgram.FpBack` and `BootProgram.ShortCsrBack` say when they come back.
  mstatus.FS ends dirty whenever the FPU was on (`BootProgram.BootRestores`).
- `fdt_output` asserts only that as many nodes were closed as opened
  (`FdtBuilder.CountIsNotEnough`).

## Model

| member | source | states |
|---|---|---|
| Sticky.AgreeShift | utils/dromajo/include/softfp_template.h:104-115 | shifting a mantissa right with a sticky last bit keeps it in agreement with the exact real on every even grid, for every shift distance |
| Sticky.AgreeCoarsen | utils/dromajo/include/softfp_template.h:104-115 | agreement with the exact value survives any coarsening of the grid, so sticky bits may be folded twice |
| Sticky.AgreeAdd | utils/dromajo/include/softfp_template.h:270-276 | adding an exact multiple of the grid to a sticky mantissa keeps it in agreement with the exact sum |
| Sticky.AgreeSub | utils/dromajo/include/softfp_template.h:270-276 | so does subtracting the sticky mantissa from it, which turns the cell around |
| RoundingKernel.RShiftRnd | utils/dromajo/include/softfp_template.h:104-115 | for every distance, zero and past the word included, the shift with all lost bits ored into the last one |
| RoundingKernel.RoundAtExponent | utils/dromajo/include/softfp_template.h:137-161 | adding the mode's addend, cutting off and the tie-to-even correction choose the rung that section 4.3 of IEEE 754-2008 chooses for the exact real the mantissa stands for |
| RoundingKernel.NotTiny | utils/dromajo/include/softfp_template.h:138-148 | at a normal exponent no value is tiny after rounding, in any mode |
| RoundingKernel.TinyJustBelow | utils/dromajo/include/softfp_template.h:138-148 | just below the normal range the test decides tininess after rounding exactly, in all five modes |
| RoundingKernel.TinyFarBelow | utils/dromajo/include/softfp_template.h:138-148 | further below every value is tiny |
| RoundingKernel.PackRung | utils/dromajo/include/softfp_template.h:159-177 | letting a carry run from significand into exponent gives the next rung, and overflow is noticed exactly at the first rung that is not finite |
| RoundingKernel.RoundPack | utils/dromajo/include/softfp_template.h:118-178 | for every exponent and mantissa and every real it stands for: the correctly rounded float in the given mode, and overflow, underflow (tiny and inexact) and inexact raised exactly when the exact value requires them |
| RoundingKernel.RoundPackCorrect | utils/dromajo/include/softfp_template.h:118-178 | the assembled bits and flags meet the specification of rounding for every represented real |
| Normalization.Normalize | utils/dromajo/include/softfp_template.h:181-188 | any unnormalized mantissa, with sticky bit or exact, is rounded as the exact real it stands for; zero stays a signed zero without flags |
| Normalization.Normalize2 | utils/dromajo/include/softfp_template.h:192-212 | the same for mantissas on two words, whatever the position of the top bit |
| Normalization.ShiftWords | utils/dromajo/include/softfp_template.h:199-210 | the high word after a left shift across two words, with everything below it folded into the sticky bit |
| WideArithmetic.MulU | utils/dromajo/include/softfp_template.h:310-336 | the two result words are exactly the product: no carry of the half-word scheme is lost |
| WideArithmetic.DivRemU | utils/dromajo/include/softfp_template.h:571-588 | quotient and remainder of a double word, by restoring division, though the high word may wrap while it is doubled |
| SquareRoot.NewtonStep | utils/dromajo/include/softfp_template.h:704-710 | a Newton step never falls below the floor of the root, and the iteration stops only at it |
| SquareRoot.StartReaches | utils/dromajo/include/softfp_template.h:693-703 | when one word is zero, as in the only call, the power of two the iteration starts from is not below the root |
| SquareRoot.StartTooLow | utils/dromajo/include/softfp_template.h:693-703 | a double word with both words nonzero for which the start is below the root |
| SquareRoot.SqrtRemU | utils/dromajo/include/softfp_template.h:689-715 | the floor of the root if and only if the start was not below the root, otherwise the start itself; inexact if and only if the result squared is not the operand; the assertion of the division fails for exactly one double word |
| SquareRoot.DoomedStep | utils/dromajo/include/softfp_template.h:704-711 | on that one double word a step from 2^(Size-1) goes one down, and the sum of the step from there is 2^Size, which a word keeps as zero, the next divisor |
| SquareRoot.RootUnique | utils/dromajo/include/softfp_template.h:704-713 | there is one floor of the root |
| Operands.Decode | utils/dromajo/include/softfp_template.h:98-102 | sign, exponent and mantissa fields of a finite float determine its exact real value and its rung |
| Operands.ClassOfFields | utils/dromajo/include/softfp_template.h:214-228 | the field tests for NaN, infinity, finite and zero are the classes of the format |
| Addition.QuietBit | utils/dromajo/include/softfp_template.h:247-251 | testing the quiet bit in the mantissa shifted three places tells signalling from quiet NaNs |
| Operands.NormalizeSubnormal | utils/dromajo/include/softfp_template.h:290-295 | a subnormal mantissa and its exponent after normalization have the same exact value |
| Addition.AlignedSum | utils/dromajo/include/softfp_template.h:260-276 | aligning with three extra bits and a sticky shift keeps enough of the exact sum or difference for one correct rounding, subnormals and total cancellation included |
| Addition.AddFinite | utils/dromajo/include/softfp_template.h:260-283 | the exact real sum of two finite floats rounded once, flags included |
| Addition.Add | utils/dromajo/include/softfp_template.h:230-284 | every operand: NaNs, invalid infinities, signed zeros, the sign of a zero sum in each mode, else the exact sum rounded once |
| Addition.Sub | utils/dromajo/include/softfp_template.h:286-288 | subtraction is addition of the operand with flipped sign, and delivers the exact real difference rounded once |
| Multiplication.ProductFaithful | utils/dromajo/include/softfp_template.h:380-383 | the high word of the significands' product with a sticky low word stands for the exact real product |
| Multiplication.MulFinite | utils/dromajo/include/softfp_template.h:366-384 | the exact product of finite nonzero operands, subnormals included, rounded once |
| Multiplication.Mul | utils/dromajo/include/softfp_template.h:338-385 | every operand: NaNs, zero times infinity, infinities, signed zeros, else the exact product rounded once |
| Division.RatioAgrees | utils/dromajo/include/softfp_template.h:650-652 | an integer quotient with a sticky remainder agrees with the exact ratio |
| Division.DivFinite | utils/dromajo/include/softfp_template.h:627-653 | the exact ratio of finite nonzero operands rounded once |
| Division.Div | utils/dromajo/include/softfp_template.h:592-654 | every operand: NaNs, the two invalid cases, division by zero, infinities, zeros, else the exact ratio rounded once |
| FloatSqrt.RootAgrees | utils/dromajo/include/softfp_template.h:760-762 | the integer root with a sticky inexact bit agrees with whatever number lies where the root lies |
| FloatSqrt.SqrtFinite | utils/dromajo/include/softfp_template.h:746-763 | for a positive finite operand the rung whose square, and the squares of the points halfway, place it nearest to the root in the mode; every real root is rounded to it; flags included |
| FloatSqrt.Sqrt | utils/dromajo/include/softfp_template.h:719-764 | every operand: NaNs, signed zeros, invalid for negative operands, infinity, else the root rounded once, decided by squares alone |
| RootRounding.RealRootDelivered | utils/dromajo/include/softfp_template.h:746-763 | comparing squares of rungs and halfway points with the radicand says what rounding the real root says, in both directions |
| RootRounding.StandInDelivers | utils/dromajo/include/softfp_template.h:746-763 | what rounds every number lying where the root lies between two points rounds the root, though no number need be the root |
| RootRounding.StandIn | utils/dromajo/include/softfp_template.h:746-763 | for any points there is a number that lies among them as the root does |
| FusedMultiplyAdd.ShiftTerm | utils/dromajo/include/softfp_template.h:508-522 | the case split of the two-word right shift: the exact sticky shift, or past one word a nonzero part of the low word |
| FusedMultiplyAdd.AlignedRepresents | utils/dromajo/include/softfp_template.h:508-522 | what the alignment keeps agrees with the exact smaller term on the grid that the sum needs, even where the code drops the sticky bits of the low word |
| FusedMultiplyAdd.AddAligned | utils/dromajo/include/softfp_template.h:490-556 | sum or difference of the product and the addend on two words, with operand swap, alignment, carries and cancellation, rounds like the exact real sum |
| FusedMultiplyAdd.FmaFinite | utils/dromajo/include/softfp_template.h:438-556 | for finite operands the exact real a*b + c rounded once |
| FusedMultiplyAdd.Fma | utils/dromajo/include/softfp_template.h:388-558 | every operand: zero times infinity is invalid whatever c is, NaNs, opposed infinities, the sign of an exact zero, else a*b + c rounded once |
| RoundingTheorems.RoundsToExists | utils/dromajo/include/softfp_template.h:118-178 | the rounding specification names a rung for every nonnegative real |
| Ieee754.RoundsToUnique | utils/dromajo/include/softfp_template.h:118-178 | and only one |
| RoundingTheorems.NearestRung | utils/dromajo/include/softfp_template.h:122-158 | in the two nearest modes no rung is closer to the exact value than the chosen one; a tie goes to the even rung, or away from zero |
| RoundingTheorems.RoundingMonotone | utils/dromajo/include/softfp_template.h:118-178 | rounding is monotone in the exact value, in every mode |
| RoundingTheorems.DoubledRounding | utils/dromajo/include/softfp_template.h:118-178 | rounding commutes with scaling by two above the subnormals |
| RoundingTheorems.TinyAtAnyScale | utils/dromajo/include/softfp_template.h:138-148 | the tininess test of the specification, with one extra binade, is tininess with an exponent range unbounded below |
| RoundingTheorems.RoundedIsFloat | utils/dromajo/include/softfp_template.h:118-178 | every rounded result is a bit pattern of the format and no NaN; an infinity comes with overflow and inexact |
| RoundingTheorems.NearestFloat | utils/dromajo/include/softfp_template.h:118-178 | without overflow no finite float is nearer to the exact value than the result, in the two nearest modes |
| RoundingTheorems.DirectedFloat | utils/dromajo/include/softfp_template.h:118-178 | rounding down delivers the greatest finite float not above the exact value, rounding up the least not below |
| RoundingTheorems.TowardZeroFloat | utils/dromajo/include/softfp_template.h:118-178 | rounding toward zero delivers the float of greatest magnitude not beyond the exact value |
| IntegerConversion.IntToFloat | utils/dromajo/include/softfp_template_icvt.h:130-155 | every n-bit signed or unsigned integer becomes its correctly rounded float, with the shift of long integers and its sticky bit |
| IntegerConversion.FractionRounds | utils/dromajo/include/softfp_template_icvt.h:89-109 | rounding the sticky shift of a significand rounds the real value to an integer in every mode, and says whether it was inexact |
| IntegerConversion.RoundsToIntUnique | utils/dromajo/include/softfp_template_icvt.h:89-109 | a real rounds to one integer only in each mode |
| IntegerConversion.FloatToInt | utils/dromajo/include/softfp_template_icvt.h:54-119 | the real value rounded in the mode, then clamped to the target range; invalid if and only if clamped or NaN, inexact if and only if rounded and in range |
| IntegerConversion.RMaxIsBound | utils/dromajo/include/softfp_template_icvt.h:74-77 | the bound the code compares magnitudes with is exactly the range of the type on that side |
| FormatConversion.LibraryFormats | utils/dromajo/include/softfp_template.h:42-58 | each wider library format holds every value of the narrower one as a normal number |
| FormatConversion.Widen | utils/dromajo/include/softfp_template.h:941-971 | a wider format receives exactly the same value, sign and class, without flags except for signalling NaNs |
| FormatConversion.Narrow | utils/dromajo/include/softfp_template.h:973-1005 | the exact value rounded once into the narrower format |
| FormatConversion.TinyAlike | utils/dromajo/include/softfp_template.h:990-1004 | below half the smallest subnormal all magnitudes round alike, which is why the mantissa a subnormal operand loses (the code drops the normalized one) never shows |
| FormatConversion.RoundTrip | utils/dromajo/include/softfp_template.h:941-1005 | widening and narrowing back is the identity on every bit pattern but NaNs, in every mode, and raises nothing |
| FormatConversion.RoundedUnique | utils/dromajo/include/softfp_template.h:118-178 | operand, mode and incoming flags determine result and flags |
| FloatLaws.Fields | utils/dromajo/include/softfp_template.h:98-102 | sign, exponent and mantissa are digits of the pattern, by division and remainder |
| FloatLaws.ClassesInNumbers | utils/dromajo/include/softfp_template.h:214-228 | NaN, signalling NaN, infinity, finite and zero, told from those digits |
| FloatLaws.ValueInNumbers | utils/dromajo/include/softfp_template.h:98-102 | a finite pattern is worth (2^mantSize + t) * 2^(e - bias - mantSize), a subnormal one t * 2^(1 - bias - mantSize), with the bias 2^(expSize - 1) - 1 and the sign of the top bit |
| FloatLaws.SinglePatterns | utils/dromajo/include/softfp_template.h:41-92 | quiet NaN, infinity, largest finite number and one in 32 bits: 0x7fc00000, 0x7f800000, 0x7f7fffff, 0x3f800000 |
| FloatLaws.DoublePatterns | utils/dromajo/include/softfp_template.h:41-92 | the same four patterns in 64 bits |
| FloatLaws.QuadPatterns | utils/dromajo/include/softfp_template.h:41-92 | the same four patterns in 128 bits |
| FloatLaws.QuietNaN | utils/dromajo/include/softfp_template.h:92 | F_QNAN is a NaN of the format, quiet and positive, its exponent all ones and its mantissa 2^(mantSize - 1) |
| FloatLaws.RoundedSign | utils/dromajo/include/softfp_template.h:118-188 | a rounded result is no NaN and has the sign of the exact value, a zero the sign asked for; rounding raises neither invalid nor division by zero |
| FloatLaws.RoundedFlags | utils/dromajo/include/softfp_template.h:138-177 | overflow exactly when the rounded magnitude reaches 2^(emax + 1), and then infinity, or the largest finite number in the modes that point the other way; inexact exactly when the result differs from the exact value or overflow; underflow exactly when it differs and is tiny |
| FloatLaws.SumLaw | utils/dromajo/include/softfp_template.h:230-284 | a sum is a NaN exactly for a NaN operand or opposite infinities, and then F_QNAN; invalid exactly for a signalling operand or opposite infinities; infinities are kept; an exact zero is negative exactly if both operands are, or rounding down if one is |
| FloatLaws.ProductLaw | utils/dromajo/include/softfp_template.h:338-385 | a product is a NaN exactly for a NaN operand or zero times infinity, and then F_QNAN, invalid exactly for a signalling operand or that pair; otherwise its sign is that of the operands, infinite and zero operands included |
| FloatLaws.QuotientLaw | utils/dromajo/include/softfp_template.h:592-654 | the same for a quotient, with zero over zero and infinity over infinity; division by zero raised exactly for a finite nonzero dividend over zero; infinite and zero results in the other special cases |
| FloatLaws.RootLaw | utils/dromajo/include/softfp_template.h:719-764 | a root is a NaN exactly for a NaN or a negative nonzero operand, and then F_QNAN; signed zeros and plus infinity are kept |
| FloatLaws.MultiplyAddLaw | utils/dromajo/include/softfp_template.h:388-560 | a fused product and sum is a NaN exactly for a NaN operand, zero times infinity or opposite infinities, and then F_QNAN; invalid for zero times infinity even when c is a quiet NaN; the sign of infinities and of exact zeros |
| FloatLaws.WidenLaw | utils/dromajo/include/softfp_template.h:941-971 | widening delivers the wide F_QNAN exactly for a NaN, and otherwise keeps class, sign and value |
| FloatLaws.NarrowLaw | utils/dromajo/include/softfp_template.h:973-1005 | narrowing delivers the narrow F_QNAN exactly for a NaN, keeps infinities and zeros, and the sign always |
| FloatLaws.ToIntLaw | utils/dromajo/include/softfp_template_icvt.h:54-119 | the nearest integer of the mode if it is in range, else the bound on its side with invalid; NaN and plus infinity give the largest, minus infinity the smallest integer; inexact exactly when the integer is in range and not the value |
| HoodLayout.InfoHalves | utils/dromajo/gold/robin_hood.hpp:2157-2178 | halving an info byte is the info of the same key under the halved scale: floor((d*inc + h)/2) = d*(inc/2) + floor(h/2) |
| HoodLayout.InfoStep | utils/dromajo/gold/robin_hood.hpp:1252-1262 | one slot further is one step of info more, the hash bits unchanged |
| HoodLayout.InfoDecodes | utils/dromajo/gold/robin_hood.hpp:1237-1262 | an info byte divided by the step is the distance from the home slot hash / 32 % n plus one, its rest the upper of the five low hash bits |
| HoodSteps.PathTo | utils/dromajo/gold/robin_hood.hpp:1304-1326 | no slot between a key and its home stops a scan for it |
| HoodSteps.NotBeyondGap | utils/dromajo/gold/robin_hood.hpp:1304-1326 | a scan that meets a smaller info byte has proved the key absent |
| HoodSteps.RunStartIsHome | utils/dromajo/gold/robin_hood.hpp:1926-1930 | every occupied run begins at the home of its first element |
| HoodSteps.LastSlotFree | utils/dromajo/gold/robin_hood.hpp:1926-1930 | with at most the allowed number of elements, and byte-sized info, no element stands in the last slot: the overflow buffer suffices |
| HoodSteps.InsertionSound | utils/dromajo/gold/robin_hood.hpp:2106-2154 | opening the gap of an absent key and shifting the rest of the run up keeps the run order and is map insertion |
| HoodSteps.RemovalSound | utils/dromajo/gold/robin_hood.hpp:1283-1301 | the backward shift keeps the run order and is map removal of that key |
| HoodSteps.HalvingSound | utils/dromajo/gold/robin_hood.hpp:2157-2178 | halving all info bytes in place keeps run order, labels and contents |
| HoodSizes.AllowedGrows | utils/dromajo/gold/robin_hood.hpp:1908-1917 | doubling the slots never admits fewer elements, across the change of formula for large tables |
| HoodSizes.AllowedInNumbers | utils/dromajo/gold/robin_hood.hpp:1908-1930 | a table of n slots admits n * load / 100 elements rounded down, for large n less by under 99 hundredths of load; the buffer has that many spare slots, at most 255 |
| HoodCrowds.FullIsCrowd | utils/dromajo/gold/robin_hood.hpp:1333-1338 | a table in order at the finest scale has a full info byte if and only if some stretch of home slots is home to at least 126 keys more than it has slots: a condition on hashes and size alone |
| HoodCrowds.CrowdFills | utils/dromajo/gold/robin_hood.hpp:2157-2161 | such a crowd is only ever held at the finest scale with the capacity flag down |
| HoodCrowds.BeforeLastIsAllButOne | utils/dromajo/gold/robin_hood.hpp:1985-1994 | a rehash overflows before its last move if and only if all keys but the last in slot order crowd in the new size |
| HoodFits.GapInside | utils/dromajo/gold/robin_hood.hpp:2106-2154 | the gap of an absent key lies inside the buffer and its info fits a byte |
| HoodFits.EmptySpotAhead | utils/dromajo/gold/robin_hood.hpp:2137-2140 | a search for an empty slot from any slot ends inside the buffer |
| HoodFits.InsertionFits | utils/dromajo/gold/robin_hood.hpp:2106-2154 | after an insertion the table is in order, and its capacity flag is down whenever a byte could overflow at the next one |
| HoodFits.RemovalFits | utils/dromajo/gold/robin_hood.hpp:1836-1854 | after a removal the table is in order |
| HoodFits.HalvingFits | utils/dromajo/gold/robin_hood.hpp:2157-2182 | after halving every byte has room for another step |
| HoodFits.LeftShrinks | utils/dromajo/gold/robin_hood.hpp:2184-2204 | while the table is at least half full each doubling brings it closer to a size at which the retry loop must end |
| HoodTable.Table.KeyToIdx | utils/dromajo/gold/robin_hood.hpp:1237-1249 | home slot and initial info byte of a key, for any hash function |
| HoodTable.Table.NextWhileLess | utils/dromajo/gold/robin_hood.hpp:1257-1262 | stops inside the info array at the first slot not more displaced than the key; the key is in none of the slots passed |
| HoodTable.Table.FindIdx | utils/dromajo/gold/robin_hood.hpp:1304-1326 | the index of the key if and only if the map has it; no read leaves the arrays |
| HoodTable.Table.ShiftUp | utils/dromajo/gold/robin_hood.hpp:1265-1281 | the run moves one up, slots and info, and the capacity flag falls exactly when a moved byte is full |
| HoodTable.Table.ShiftDown | utils/dromajo/gold/robin_hood.hpp:1283-1301 | the displaced slots behind the removed one move one down, as far as they are displaced |
| HoodTable.Table.EmptySpotFrom | utils/dromajo/gold/robin_hood.hpp:2137-2140 | finds the first empty slot; there always is one |
| HoodTable.Table.CreateAt | utils/dromajo/gold/robin_hood.hpp:2127-2152 | the common tail of all insertions puts the key into its gap: the map gains exactly that entry |
| HoodTable.Table.InitData | utils/dromajo/gold/robin_hood.hpp:2030-2047 | a fresh table is empty, in order, with sentinel and padding in place |
| HoodTable.Table.TryIncreaseInfo | utils/dromajo/gold/robin_hood.hpp:2157-2182 | halves the info step in place if and only if it is above two; contents unchanged |
| HoodTable.Table.InsertMove | utils/dromajo/gold/robin_hood.hpp:1333-1376 | inserts a key known to be new; throws if and only if some byte is full at the finest scale, and leaves such a byte if and only if the keys are now a crowd |
| HoodTable.Table.RehashPowerOfTwo | utils/dromajo/gold/robin_hood.hpp:1970-1997 | every node moves to the new table: same map; fails if and only if the memory does not suffice or the keys crowd in the new size before the last one moves |
| HoodTable.Table.IncreaseSize | utils/dromajo/gold/robin_hood.hpp:2184-2204 | keeps the map; allocates first, halves the info step exactly when elements and step allow it, else doubles the slots; throws if and only if the table is less than half full, memory ends, or the doubled table overflows |
| HoodTable.Table.Probe | utils/dromajo/gold/robin_hood.hpp:2106-2127 | the search both insertions share: the key itself, or exactly the gap where it belongs |
| HoodTable.Table.Insert | utils/dromajo/gold/robin_hood.hpp:2106-2154 | insert and operator[] on the map: an absent key is added, a present one left alone; throws if and only if the key is absent, the table full, and neither refining nor one or two doublings make room; the retry loop around increase_size terminates by a lexicographic measure |
| HoodTable.Table.InsertOrAssign | utils/dromajo/gold/robin_hood.hpp:2019-2028 | the key has the new value, whether or not it was there |
| HoodTable.Table.Erase | utils/dromajo/gold/robin_hood.hpp:1836-1854 | removes exactly that key and says whether it was there |
| HoodTable.Table.Reserve | utils/dromajo/gold/robin_hood.hpp:1862-1874 | keeps the map and afterwards admits the requested number, in the least size that does; throws if and only if that size exceeds memory or crowds the keys |
| HoodTable.Table.Clear | utils/dromajo/gold/robin_hood.hpp:1548-1566 | the map is empty and the slots stay |
| HoodRuns.Perform | utils/dromajo/gold/robin_hood.hpp:1836-1874 | each operation refines its step on a finite map, reply included, and throws exactly when the table it meets is stuck |
| HoodRuns.Run | utils/dromajo/gold/robin_hood.hpp:1333-2204 | any sequence of operations, with any hash function, gives the replies of a finite map up to the first operation that throws in the table it meets; a run without crowds, given memory for its size, never throws |
| HoodRuns.ModestIsCalm | utils/dromajo/gold/robin_hood.hpp:1333-2204 | runs of at most 126 elements have no crowds |
| HoodRuns.MergedClusters | utils/dromajo/gold/robin_hood.hpp:1333-1338 | a table of 256 home slots filled with 204 keys, with memory to double, that is stuck: the keys crowd in 512 home slots before the last one moves, so the next insertion throws from the branch called impossible |
| HoodRuns.ClusteredTable | utils/dromajo/gold/robin_hood.hpp:2106-2154 | the 204 insertions before it, none of which throws, leave a table in order whose bytes all have room |
| HoodRuns.Full | utils/dromajo/gold/robin_hood.hpp:1985-1994 | any table of 256 home slots that holds those keys is stuck, for the crowd in the doubled table and no other reason |
| PageWalk.PmpScanUniform | utils/dromajo/src/riscv_cpu.cpp:195-221 | with page-granular entries the protection decision is the same for all accesses inside one page |
| PageWalk.LookupUniform | utils/dromajo/src/iomem.cpp:79-87 | the range found for an address is the range of its whole page |
| PageWalk.WalkUniform | utils/dromajo/src/riscv_cpu.cpp:366-481 | two addresses of one page translate to physical addresses equally far apart, or fault alike |
| PageWalk.WalkFromOffset | utils/dromajo/src/riscv_cpu.cpp:470-475 | a walk that ends keeps the offset within the page, superpages included |
| PageWalk.SuperpageTest | utils/dromajo/src/riscv_cpu.cpp:438-442 | the alignment test of j bits agrees with the 9j bits Sv39 asks for if and only if one of the j bits is set or the others are clear |
| PageWalk.MisalignedAccepted | utils/dromajo/src/riscv_cpu.cpp:438-442 | a misaligned superpage entry that the code accepts |
| PageWalk.UserCodeAccepted | utils/dromajo/src/riscv_cpu.cpp:417-424 | a user page from which, with SUM set, supervisor mode may fetch code |
| PageWalk.WalkIsSpec | utils/dromajo/src/riscv_cpu.cpp:366-481 | the walk is that of section 4.3.2 of the privileged architecture if and only if the leaf it accepts, if any, is an aligned one and no user page for supervisor code; else the architecture faults |
| PageWalk.ResolveUniform | utils/dromajo/src/riscv_cpu.cpp:366-481 | translation, protection and range lookup together are uniform over a page |
| PageWalk.ResolveInside | utils/dromajo/src/riscv_cpu.cpp:576-585 | the whole page around a translated RAM byte lies inside host memory |
| TranslationLaws.EntryInNumbers | utils/dromajo/src/riscv_cpu.cpp:412-456 | what the walk makes of a page-table entry, from V, R, W, X, U, A and D as bits 0 to 4, 6 and 7 of a number |
| TranslationLaws.CanonicalInNumbers | utils/dromajo/src/riscv_cpu.cpp:389-392 | the addresses Sv39 and Sv48 translate: below 2^38 or 2^47, or as close to 2^64 |
| TranslationLaws.WalkEnds | utils/dromajo/src/riscv_cpu.cpp:366-393 | M-mode and bare mode do not translate, and an address that is not canonical faults |
| TranslationLaws.Sv39Gigapage | utils/dromajo/src/riscv_cpu.cpp:366-481 | a leaf in the root table, picked by va / 2^30 % 512: its frame with va % 2^30, or a page fault |
| TranslationLaws.Sv39Megapage | utils/dromajo/src/riscv_cpu.cpp:366-481 | one table down, picked by va / 2^21 % 512: the frame with va % 2^21, or a page fault |
| TranslationLaws.Sv39Page | utils/dromajo/src/riscv_cpu.cpp:366-481 | two tables down, picked by va / 2^12 % 512: the frame with va % 2^12, or a page fault |
| TranslationLaws.Sv48Page | utils/dromajo/src/riscv_cpu.cpp:366-481 | Sv48 has one table more, picked from by va / 2^39 % 512 |
| ProtectionLaws.FirstDecides | utils/dromajo/src/riscv_cpu.cpp:210-216 | the first entry that meets the access decides it by bit 0, 1 or 2 of its configuration byte, or grants it to M-mode if bit 7 is clear |
| ProtectionLaws.NoneDecides | utils/dromajo/src/riscv_cpu.cpp:210-218 | without an entry that meets it an access is granted to M-mode only |
| ProtectionLaws.CheckDecides | utils/dromajo/src/riscv_cpu.cpp:193-219 | the whole check: an address below 2^pal, the privilege of MPP for data under MPRV, then the first entry |
| ProtectionLaws.LastServes | utils/dromajo/src/iomem.cpp:79-87 | of the memory ranges that hold an address the one registered last serves it |
| SoftTlb.NewEntry | utils/dromajo/src/riscv_cpu.cpp:576-585 | the entry a slow path installs is right for every access to its page |
| SoftTlb.Hart.TargetRead | utils/dromajo/src/riscv_cpu.cpp:302-322 | fast and slow load: the reply of a fresh walk, misalignment, page faults and access faults included, whenever the translations used for the page since the last flush are still right; always exactly what a hit answers, and what a miss leaves in the TLB and puts to use |
| SoftTlb.Hart.TargetWrite | utils/dromajo/src/riscv_cpu.cpp:325-347 | the same for stores: the memory and reply of a fresh walk, and the entry a miss leaves |
| SoftTlb.Hart.TargetReadInsn | utils/dromajo/src/riscv_cpu.cpp:800-820 | the same for halfword fetches; an entry is left only when the whole page may be executed |
| SoftTlb.Hart.TlbFlushAll | utils/dromajo/src/riscv_cpu.cpp:822-830 | no entry is valid any more |
| SoftTlb.Hart.SetMstatus | utils/dromajo/src/riscv_cpu.cpp:862-872 | flushes if and only if MPRV, SUM or MXR change, or MPP while MPRV is set; otherwise entries and translations in use stay |
| SoftTlb.Hart.WriteSatp | utils/dromajo/src/riscv_cpu.cpp:1256-1266 | flushes always, changes the root only for the modes the machine has |
| SoftTlb.Hart.SetPriv | utils/dromajo/src/riscv_cpu.cpp:1514-1519 | flushes if and only if the privilege changes |
| SoftTlb.Hart.WritePmp | utils/dromajo/src/riscv_cpu.cpp:1147-1200 | new protection entries come with a flush |
| SoftTlb.Hart.TrapToM | utils/dromajo/src/riscv_cpu.cpp:1599-1601 | a trap into M-mode flushes exactly when it comes from another mode; from M-mode itself entries and translations in use stay, though MPP changes |
| SoftTlb.Hart.Mret | utils/dromajo/src/riscv_cpu.cpp:1627-1638 | the return likewise: it flushes exactly when the mode changes |
| SoftTlb.Hart.OtherWrite | utils/dromajo/src/riscv_cpu.cpp:629-715 | a store by another hart changes memory and nothing in the TLBs |
| SoftTlb.Step | utils/dromajo/src/riscv_cpu.cpp:302-347 | one operation is the operation of a hart without TLBs, if the translations used for its page since the last flush are still right |
| SoftTlb.Run | utils/dromajo/src/riscv_cpu.cpp:302-347 | over any run in which each access finds the translations used for its page since the last flush still right, all replies and the memory are those of a hart without TLBs, whatever changed meanwhile |
| MemoryLaws.LoadedBytes | utils/dromajo/src/riscv_cpu.cpp:315-317 | a load makes the number whose byte k, v / 2^(8k) % 256, stands k places behind the address |
| MemoryLaws.StoredBytes | utils/dromajo/src/riscv_cpu.cpp:337-341 | a store leaves byte k of the value k places behind the address and every other byte as it was |
| MemoryLaws.ReadBack | utils/dromajo/src/riscv_cpu.cpp:302-347 | the bytes stored, loaded again, are the value modulo 2^(8 size) |
| MemoryLaws.ReadElsewhere | utils/dromajo/src/riscv_cpu.cpp:302-347 | a load of other bytes gives what it gave before the store |
| MemoryLaws.ReadAfterWrite | utils/dromajo/src/riscv_cpu.cpp:302-347 | a store and a load of the same address and size reply stored and the value modulo 2^(8 size), when the load reaches the byte the store reached |
| MemoryLaws.BareReadAfterWrite | utils/dromajo/src/riscv_cpu.cpp:302-347 | without translation that is so whenever the load is granted |
| MemoryLaws.LoadAnswers | utils/dromajo/src/riscv_cpu.cpp:484-626 | the order of the checks of a load: misalignment, walk, protection, range; which trap each failure raises, and where the bytes live |
| MemoryLaws.StoreAnswers | utils/dromajo/src/riscv_cpu.cpp:629-715 | the same for a store, which changes memory only when it replies stored |
| MemoryLaws.FetchAnswers | utils/dromajo/src/riscv_cpu.cpp:725-770 | the same for a fetch; code outside RAM is an access fault |
| TlbFences.SettledIsFenced | utils/dromajo/src/riscv_cpu.cpp:302-347 | a run in which every change that spoils some translation is followed by a flush before the next access is such a run |
| TlbFences.AgreesAt | utils/dromajo/src/riscv_cpu.cpp:302-322 | a hit on any address of a page goes where a walk goes if and only if its entry is right |
| TlbFences.KeepsExact | utils/dromajo/src/riscv_cpu.cpp:302-347 | a change that does not keep every access to RAM where it was spoils some translation a hart may hold: no weaker condition will do |
| TlbFences.SameWalksKeep | utils/dromajo/src/riscv_cpu.cpp:629-715 | a store that changes no walk spoils nothing |
| TlbFences.ClearMprvKeeps | utils/dromajo/src/riscv_cpu.cpp:862-872 | with MPRV clear no change of MPP spoils anything |
| TlbFences.StatusKeeps | utils/dromajo/src/riscv_cpu.cpp:862-872 | a write of mstatus that does not flush spoils nothing |
| TlbFences.MppRise | utils/dromajo/src/riscv_cpu.cpp:1599-1601 | when MPP rises to M under MPRV, a data translation stays right if and only if it maps its page to itself; without a page table it always does |
| TlbFences.MppFall | utils/dromajo/src/riscv_cpu.cpp:1627-1638 | when MPP falls from M under MPRV, a data translation stays right if and only if the page table maps its page to itself and the protection grants it to the lower mode; without a page table, if and only if it is granted |
| TlbFences.MppBelow | utils/dromajo/src/riscv_cpu.cpp:1627-1638 | between the lower modes a data translation stays right if and only if the walk has the same outcome |
| TlbFences.TrapKeeps | utils/dromajo/src/riscv_cpu.cpp:1599-1601 | a trap from M under MPRV spoils nothing if and only if all data translations were identities, as without a page table they are |
| TlbFences.MretKeeps | utils/dromajo/src/riscv_cpu.cpp:1627-1638 | a return from M to M under MPRV spoils nothing if and only if the lower mode reaches all data M reaches, at the same addresses |
| TlbFences.MprvStale | utils/dromajo/src/riscv_cpu.cpp:1627-1638 | a hart with MPRV set whose load, mret and load again answers where a walk faults |
| TlbFences.TrapStale | utils/dromajo/src/riscv_cpu.cpp:1599-1601 | a hart with MPRV set, MPP at S and a page table whose load, trap from M and load again answers from the translated page where M reads untranslated |
| CodeFetch.ReadInsnSlow | utils/dromajo/src/riscv_cpu.cpp:725-797 | the miss of a 32-bit fetch: both halves of an instruction across two pages, which trap it raises, and what it leaves in the TLB |
| CodeFetch.FetchInsn | utils/dromajo/include/dromajo_template.h:297-332 | the fetch at a new pc: exactly what a hit answers and what a miss answers, and what either leaves in the TLB |
| CodeFetch.HitIsMiss | utils/dromajo/include/dromajo_template.h:308-332 | hit and miss give the same instruction or trap if and only if it does not start in the last halfword of a page, or four bytes there and the next page are executable RAM |
| CodeFetch.AlignedInsn | utils/dromajo/include/dromajo_template.h:308-332 | instructions aligned to four bytes never show the difference |
| CodeFetch.EndOfRam | utils/dromajo/include/dromajo_template.h:308-332 | a compressed instruction in the last halfword of RAM, which a hit runs and a miss traps |
| CodeFetch.InsnBytes | utils/dromajo/src/riscv_cpu.cpp:725-797 | the instruction a miss delivers has the four bytes at its address, lowest first, two of them from the page at the next address modulo 2^64 if only two are left of the page |
| DirtyPages.SetBits | utils/dromajo/include/iomem.h:112-121 | setting a bit sets that bit and no other |
| DirtyPages.Machine.SetDirtyBit | utils/dromajo/include/iomem.h:112-121 | marks the page of the offset and no other |
| DirtyPages.Machine.Store | utils/dromajo/src/riscv_cpu.cpp:325-347 | a store by any hart: a hit goes where its entry says, a miss installs an entry; either way the page it lands in is marked afterwards |
| DirtyPages.Machine.SlowStore | utils/dromajo/src/riscv_cpu.cpp:665-676 | marks before it installs, so every valid write entry into the RAM has its current dirty bit set |
| DirtyPages.Machine.HitMarked | utils/dromajo/src/riscv_cpu.cpp:337-341 | what the fast path relies on: its entry lies in one page of memory, which is marked already |
| DirtyPages.Machine.FlushTlbWriteRangeRam | utils/dromajo/src/riscv_cpu.cpp:834-842 | no write entry into the range survives, every other entry does |
| DirtyPages.SweptInNumbers | utils/dromajo/src/riscv_cpu.cpp:834-842 | dropped are exactly the valid entries whose host page begins in the range |
| DirtyPages.Machine.FlushTlbWriteRange | utils/dromajo/src/riscv_machine.cpp:1043-1046 | on any hart |
| DirtyPages.Machine.Harvest | utils/dromajo/src/iomem.cpp:135-159 | the bitmap handed out marks exactly the pages stored to since the last harvest, though the flush is skipped when there is no mark |
| DirtyPages.Machine.MarkedPages | utils/dromajo/include/iomem.h:123-131 | reading a bitmap page by page gives the pages it marks |
| DirtyPages.Run | utils/dromajo/src/iomem.cpp:135-159 | over any interleaving of stores by several harts, TLB flushes and harvests, memory and log are those of replaying the stores on values, and each harvest reports exactly the pages written since the one before |
| DirtyPages.HarvestInNumbers | utils/dromajo/src/iomem.cpp:135-159 | a harvest reports page p exactly when a store reached base + 4096 p or one of the 4095 bytes behind it and no harvest lies between |
| DirtyPages.MarkInNumbers | utils/dromajo/include/iomem.h:112-131 | page p is bit p % 32 of word p / 32 of the bitmap |
| PmpRegisters.Pmp.WriteCfg | utils/dromajo/src/riscv_cpu.cpp:1385-1408 | locked bytes keep their value, the others take the written one without the reserved bits; intervals are recomputed |
| PmpRegisters.Pmp.WriteAddr | utils/dromajo/src/riscv_cpu.cpp:1410-1444 | ignored for entries that do not exist, are locked, or bound a locked top-of-range entry |
| PmpRegisters.Pmp.UnpackPmpaddrs | utils/dromajo/src/riscv_cpu.cpp:1147-1200 | the active intervals in order of priority are exactly those of the registers |
| PmpRegisters.Pmp.UnpackEntry | utils/dromajo/src/riscv_cpu.cpp:1157-1196 | the interval of one entry, which holds exactly the addresses the entry is about in its mode |
| PmpRegisters.Pmp.TrailingOnes | utils/dromajo/src/riscv_cpu.cpp:1176-1180 | counts the ones that end a register |
| PmpRegisters.WrittenProper | utils/dromajo/src/riscv_cpu.cpp:1385-1444 | no write sets a bit the registers do not implement |
| PmpRegisters.LockedKept | utils/dromajo/src/riscv_cpu.cpp:1385-1444 | one write leaves the byte and the interval of every locked entry as they were, its lower bound in the neighbour's register included |
| PmpRegisters.LockedForever | utils/dromajo/src/riscv_cpu.cpp:1385-1444 | so does any sequence of writes |
| PmpRegisters.UnlockedWritten | utils/dromajo/src/riscv_cpu.cpp:1385-1444 | a write that no lock forbids takes effect |
| PmpRegisters.NapotExact | utils/dromajo/src/riscv_cpu.cpp:1174-1192 | a NAPOT entry covers exactly the addresses that agree with its register above the trailing ones and the zero that ends them |
| PmpRegisters.EntryCovers | utils/dromajo/src/riscv_cpu.cpp:1157-1196 | off, top of range, word and NAPOT entries cover exactly the addresses the architecture gives them, and no register makes an interval wrap |
| ProtectionLaws.LowestDecides | utils/dromajo/src/riscv_cpu.cpp:1147-1200 | the lowest register that catches an access decides it, by its own configuration byte |
| ProtectionLaws.CaughtExactly | utils/dromajo/src/riscv_cpu.cpp:210-212 | an entry catches exactly the accesses with a byte it is about, and those that straddle a top-of-range entry with nothing in it |
| ProtectionLaws.EmptyEntryCatches | utils/dromajo/src/riscv_cpu.cpp:210-218 | registers for which an empty top-of-range entry denies a load that the entry about all its bytes grants |
| ProtectionLaws.AboutInNumbers | utils/dromajo/src/riscv_cpu.cpp:1157-1172 | what an entry is about, from bits 3 and 4 of its byte: nothing, from the register below to its own, one word |
| ProtectionLaws.NapotInNumbers | utils/dromajo/src/riscv_cpu.cpp:1174-1192 | or, with t ones at the end of the register, the naturally aligned 2^(t + 3) bytes |
| ProtectionLaws.CfgWriteInNumbers | utils/dromajo/src/riscv_cpu.cpp:1395-1404 | byte i of pmpcfg0 after a write: unchanged if its bit 7 was set, else the given byte with bits 5 and 6 cleared |
| ProtectionLaws.AddrWriteInNumbers | utils/dromajo/src/riscv_cpu.cpp:1426-1442 | address register n after a write: unchanged if entry n is locked or the entry above is locked and top of range, else the low 38 bits |
| BootMachine.StepsAddress | utils/dromajo/src/riscv_cpu.cpp:1968-1986 | an encoded auipc and addi compute the address the generator meant, with the carry for a negative immediate |
| BootMachine.Encodings | utils/dromajo/src/riscv_cpu.cpp:1964-1994 | the encoders give the words of the instruction set, one example each |
| BootMachine.RomBytes | utils/dromajo/src/riscv_cpu.cpp:2079-2080 | a double word loaded from the ROM has the bytes of its two words, the lower one first |
| BootMachine.CsrTraps | utils/dromajo/src/riscv_cpu.cpp:889-978 | a CSR write traps for a floating-point CSR with the FPU off, a debug CSR outside debug mode, and a read-only CSR |
| BootBlocks.StepsLoad | utils/dromajo/src/riscv_cpu.cpp:2083-2092 | auipc, addi, ld bring the double word of the data area into the register |
| BootBlocks.RunBlock | utils/dromajo/src/riscv_cpu.cpp:2071-2123 | running the code of each building block has the effect that block is for |
| BootBlocks.ExecBranch | utils/dromajo/include/dromajo_template.h:782-796 | the branch around the parking loop is taken by hart 0 |
| BootBlocks.HangParks | utils/dromajo/src/riscv_cpu.cpp:2115-2123 | a hart other than 0 stays in the parking loop for any number of steps and changes nothing but x10 |
| BootProgram.Stretch | utils/dromajo/src/riscv_cpu.cpp:2177-2260 | any stretch of recovery code that never traps keeps dpc, privilege and FPU state, keeps registers and CSRs already recovered, and recovers its own |
| BootProgram.ProgramEffect | utils/dromajo/src/riscv_cpu.cpp:2125-2268 | the blocks in the order emitted leave every register, CSR, FP register and the privilege as their recovery means them, although each needs a scratch register |
| BootProgram.BootRestores | utils/dromajo/src/riscv_cpu.cpp:2125-2268 | run by the interpreter from arbitrary registers in debug mode, the ROM traps nowhere and ends with x1 to x31, pc and privilege equal to the saved ones; 67 CSRs, listed by number, were last written their saved values, the counters 0, the 12-bit ones their sign-extended low bits; the devices were sent timecmp at CLINT + 0x4000, then the time at CLINT + 0xbff8, and nothing else; the FPU off, or dirty with every register loaded |
| BootProgram.OthersPark | utils/dromajo/src/riscv_cpu.cpp:2138-2139 | from the ROM of a checkpoint with one hart every other hart ends up in the loop at 0x10008 for good |
| BootProgram.FirstBlock | utils/dromajo/src/riscv_cpu.cpp:2138-2141 | the ROM begins with the parking loop for one hart, else with the recovery of dpc |
| BootProgram.ShortCsrBack | utils/dromajo/src/riscv_cpu.cpp:2218-2220 | a counter-enable or counter-inhibit register comes back if and only if its upper bits repeat bit 11 |
| BootProgram.FpCsrsBack | utils/dromajo/src/riscv_cpu.cpp:2182-2185 | flags and rounding mode always come back |
| BootProgram.FpBack | utils/dromajo/src/riscv_cpu.cpp:2188-2196 | a floating-point register comes back if and only if its high half equals that of the integer register of its number |
| BootRom.Image.CreateCsr12Recovery | utils/dromajo/src/riscv_cpu.cpp:1996-1999 | appends the two words of a 12-bit CSR recovery |
| BootRom.Image.CreateCsr64Recovery | utils/dromajo/src/riscv_cpu.cpp:2071-2081 | appends code and data of a 64-bit CSR recovery, leaving all earlier blocks in place |
| BootRom.Image.CreateRegRecovery | utils/dromajo/src/riscv_cpu.cpp:2083-2092 | the same for a register |
| BootRom.Image.CreateIo64Recovery | utils/dromajo/src/riscv_cpu.cpp:2094-2113 | the same for a device register |
| BootRom.Image.CreateHangNonzeroHart | utils/dromajo/src/riscv_cpu.cpp:2115-2123 | the same for the parking loop |
| BootRom.Image.EmitFloat | utils/dromajo/src/riscv_cpu.cpp:2181-2197 | FP flags and registers, when the FPU is on |
| BootRom.Image.EmitCounters | utils/dromajo/src/riscv_cpu.cpp:2205-2208 | the performance counters and events |
| BootRom.Image.EmitPmp | utils/dromajo/src/riscv_cpu.cpp:2222-2224 | protection addresses before configurations |
| BootRom.Image.EmitRegs | utils/dromajo/src/riscv_cpu.cpp:2238-2240 | a range of registers |
| BootRom.Image.EmitLast | utils/dromajo/src/riscv_cpu.cpp:2262-2265 | satp last, x1 waiting in dscratch |
| BootRom.CreateBootRom | utils/dromajo/src/riscv_cpu.cpp:2125-2280 | the image holds exactly the program of the checkpoint, and its size check never fails |
| GuestMemory.FrameWrite | utils/dromajo/src/virtio.cpp:353-368 | a write through a page pointer is a write to flat guest memory |
| VirtioLaws.FlatInNumbers | utils/dromajo/src/virtio.cpp:336-351 | byte a of guest memory stands at a % 4096 behind the host pointer of page a / 4096 |
| GuestMemory.Guest.MemcpyToRam | utils/dromajo/src/virtio.cpp:353-368 | across page splits the buffer is laid over flat memory; succeeds if and only if all of it is RAM, else exactly the bytes before the first hole are stored |
| GuestMemory.OnePart | utils/dromajo/src/virtio.cpp:353-368 | what a failed copy leaves is determined by the memory before it |
| GuestMemory.Guest.MemcpyFromRam | utils/dromajo/src/virtio.cpp:336-351 | across page splits the buffer receives the bytes of flat memory; succeeds if and only if all of it is RAM, else exactly the bytes before the first hole arrive |
| DescriptorChains.PartOf | utils/dromajo/src/virtio.cpp:412-432 | a part of one descriptor is a slice of the concatenated buffers |
| DescriptorChains.ChainStands | utils/dromajo/src/virtio.cpp:412-432 | storing into a writable buffer outside the table changes no descriptor of the chain |
| VirtioCopy.Copier.GetDesc | utils/dromajo/src/virtio.cpp:370-373 | reads the descriptor at an index of the table |
| VirtioLaws.LeBytes | utils/dromajo/src/virtio.cpp:370-373 | a number read from device structures has the bytes that stand there, lowest first |
| VirtioLaws.DescriptorReads | utils/dromajo/src/virtio.cpp:129-134 | address, length, flags and next, laid out by the driver in 8, 4, 2 and 2 bytes, are the descriptor read |
| VirtioLaws.FlagsRead | utils/dromajo/src/virtio.cpp:125-126 | flag 1 says that a descriptor follows, flag 2 that the device writes |
| VirtioLaws.RunsSplit | utils/dromajo/src/virtio.cpp:462-494 | if the first n descriptors have flag 2 clear and the others have it set, the chain is well formed, and these are its readable and its writable part |
| VirtioLaws.WellFormedSplits | utils/dromajo/src/virtio.cpp:462-494 | only such chains are well formed |
| VirtioLaws.RowInNumbers | utils/dromajo/src/virtio.cpp:412-432 | byte j of buffer k is the byte of the row behind all bytes of the buffers before |
| VirtioLaws.StoredAt | utils/dromajo/src/virtio.cpp:412-432 | a byte stored into a row is found at its address, unless a later byte goes there too |
| VirtioCopy.Copier.FirstWrite | utils/dromajo/src/virtio.cpp:387-394 | the first writable descriptor of the chain, if there is one |
| VirtioCopy.Copier.FindOffset | utils/dromajo/src/virtio.cpp:399-410 | the descriptor and offset of a byte of the run, if and only if the run is long enough; empty descriptors are passed over |
| VirtioCopy.Copier.CopyTo | utils/dromajo/src/virtio.cpp:412-433 | stores the next bytes of the run until the count or the end of the run |
| VirtioCopy.Copier.CopyFrom | utils/dromajo/src/virtio.cpp:412-433 | fetches the next bytes of the run until the count or the end of the run |
| VirtioCopy.Copier.MemcpyToFromQueue | utils/dromajo/src/virtio.cpp:375-434 | returns 0 if and only if the readable prefix (or first writable run) has offset + count bytes, or count is 0; copies exactly that slice of the concatenated buffers, and the available part when it fails |
| VirtioLaws.GatheredAt | utils/dromajo/src/virtio.cpp:376-443 | a fetching copy makes byte i of the buffer byte offset + i of the readable row as far as that goes, and leaves the rest alone |
| VirtioLaws.ScatteredAt | utils/dromajo/src/virtio.cpp:376-443 | a storing copy makes byte offset + i of the writable row byte i of the buffer, and changes no other byte of memory |
| VirtioCopy.Copier.GetDescRwSize | utils/dromajo/src/virtio.cpp:462-494 | the sizes of readable and writable part; fails if and only if a readable descriptor follows a writable one |
| VirtioRings.WrappedSlot | utils/dromajo/src/virtio.cpp:451-454 | masking the 16-bit index gives the slot of the unbounded count, through wrap-around |
| VirtioRings.BlockQueue.ConsumeDesc | utils/dromajo/src/virtio.cpp:445-460 | the element goes into the next slot of the used ring, overwriting none the driver has yet to read |
| VirtioRings.BlockQueue.BlockReqEnd | utils/dromajo/src/virtio.cpp:845-872 | a completed request is answered in the used ring with its own head and length |
| VirtioRings.BlockQueue.BlockRecvRequest | utils/dromajo/src/virtio.cpp:888-934 | the ring side of a request: refused while one is in flight; otherwise accepted and answered now, or kept in flight, as the backend says |
| VirtioRings.BlockQueue.QueueNotify | utils/dromajo/src/virtio.cpp:497-519 | takes requests in order and answers them until the backend keeps one in flight or none is left: exactly the step of the protocol on values |
| VirtioRings.BlockQueue.BlockReqCb | utils/dromajo/src/virtio.cpp:874-885 | answers the request in flight and goes on with the rest: exactly the step of the protocol on values |
| VirtioRings.Run | utils/dromajo/src/virtio.cpp:845-934 | over any run of submissions, notifications and completions the rings hold what the protocol on values holds, through every wrap of the 16-bit indices |
| VirtioRings.FoldConserves | utils/dromajo/src/virtio.cpp:845-934 | in every reachable state of that protocol used elements are the answers in order of submission, each once, at most one request is in flight, and the ring never overfills |
| VirtioRings.RingsInNumbers | utils/dromajo/src/virtio.cpp:445-460 | indices are counts modulo 65536; each outstanding head and each of the last answers stands in the slot of its count modulo the ring size; an answer is the head with 1 or the size of the writable part |
| VirtioBlock.BlockFile.ReadAsync | utils/dromajo/src/dromajo_main.cpp:219-255 | the sectors of the disk as the guest sees it, snapshot copies before file contents |
| VirtioBlock.BlockFile.WriteAsync | utils/dromajo/src/dromajo_main.cpp:257-288 | accepted exactly when the mode and the size allow; then those sectors and no others change, and a snapshot never touches the file |
| VirtioBlock.BlockDevice.RecvRequest | utils/dromajo/src/virtio.cpp:888-934 | one request end to end: a read delivers the disk's sectors and a status byte into the writable descriptors, a write brings the payload's whole sectors to the disk unless it refuses, and the status byte says which; a request without header or of another type is left alone |
| VirtioBlock.BlockDevice.Notify | utils/dromajo/src/virtio.cpp:497-519 | a chain is served if and only if no readable descriptor follows a writable one |
| VirtioBlock.WriteThenRead | utils/dromajo/src/virtio.cpp:845-934 | a write request followed by a read request of the same sectors puts the written payload into the second request's buffers |
| VirtioLaws.HeaderReads | utils/dromajo/src/virtio.cpp:828-832 | type, priority and sector, laid out by the driver in 4, 4 and 8 bytes, are the header read, and the payload stands behind its 16 bytes |
| VirtioLaws.ReadInNumbers | utils/dromajo/src/virtio.cpp:845-864 | after a request of type 0 byte 512 i + j of the writable row is byte j of sector i from the one named on, its last byte 0, or 1 without a file, and no other byte of memory and no sector has changed |
| VirtioLaws.WriteInNumbers | utils/dromajo/src/virtio.cpp:865-872 | after a request of type 1 byte j of sector i from the one named on is byte 16 + 512 i + j of the readable row, unless the disk refuses; the first writable byte is 0, or 1 if refused, and nothing else has changed |
| VirtioLaws.OthersInNumbers | utils/dromajo/src/virtio.cpp:905-934 | a request without a whole header or of another type changes nothing |
| VirtioController.Controller.Recv | utils/dromajo/src/virtio.cpp:888-934 | a request is taken from the ring as its chain has it: refused while one is in flight, served at once, or left to the backend with the sector and payload its chain names |
| VirtioController.Controller.Completed | utils/dromajo/src/virtio.cpp:845-885 | the callback puts data and status byte into the chain, or the payload to the disk, and the head with its length into the used ring |
| VirtioController.ReadLater | utils/dromajo/src/virtio.cpp:845-934 | a read completed by a callback: when its head is in the used ring, its chain holds the sectors its header named and the status byte |
| LruSpec.AccessResident | utils/dromajo/include/LiveCacheCore.h:447-572 | moving a resident tag to the front, or dropping the last for a new one, is the step of the last-n-distinct-tags specification |
| LruSpec.LargerHoldsMore | utils/dromajo/include/LiveCacheCore.h:447-572 | with equal set count a larger associativity holds a superset after every trace |
| LruSpec.MruByLast | utils/dromajo/include/LiveCacheCore.h:447-572 | recency order is the order of last accesses |
| LruSpec.MruMembers | utils/dromajo/include/LiveCacheCore.h:447-572 | a set's specification lists exactly the tags accessed in it |
| LruSpec.StackDistance | utils/dromajo/include/LiveCacheCore.h:447-572 | a tag is in an n-way cache exactly when it was accessed and fewer than n others of its set, tag modulo the number of sets, were accessed since |
| LruSpec.WrittenMeans | utils/dromajo/src/LiveCache.cpp:96-130 | a line is marked exactly when some access wrote it and every access to it since found it in the cache |
| LiveCache.HitHolds | utils/dromajo/include/LiveCacheCore.h:475-485 | a hit keeps the set in exact recency order with the right write marks |
| LiveCache.MissHolds | utils/dromajo/include/LiveCacheCore.h:532-568 | a miss too: the least recently used line is the one replaced |
| LiveCache.LiveCache.FindLine | utils/dromajo/include/LiveCacheCore.h:447-488 | the resident line of the tag, brought to the front of its set in place; no other set moves |
| LiveCache.LiveCache.FillLine | utils/dromajo/include/LiveCacheCore.h:227-233 | the last line of the set comes to the front with the new tag |
| LiveCache.LiveCache.Read | utils/dromajo/src/LiveCache.cpp:96-111 | after any trace every set holds, in recency order, exactly its last up-to-assoc distinct tags, with order and write mark |
| LiveCache.LiveCache.Write | utils/dromajo/src/LiveCache.cpp:113-130 | the same for writes, which set the mark |
| LiveTraversal.Merge | utils/dromajo/src/LiveCache.cpp:190-201 | merging two sorted halves: sorted and a permutation |
| LiveTraversal.MergeSort | utils/dromajo/src/LiveCache.cpp:165-202 | sorted by order, and a permutation of the input |
| LiveTraversal.Traverse | utils/dromajo/src/LiveCache.cpp:132-163 | every listed address is a resident line of nonzero order, each such line is listed, exactly once, by strictly increasing last access, its low bit set if and only if it was written since it was filled |
| LiveTraversal.ListedInNumbers | utils/dromajo/include/LiveCacheCore.h:261-283 | the tag of a listed address is the address divided by the line size, its set the tag modulo the number of sets |
| GoldData.AddRange | utils/dromajo/gold/Gold_data.hpp:58-62 | a range added byte by byte becomes one chunk |
| GoldData.SetData | utils/dromajo/gold/Gold_data.hpp:64-70 | the chunk holds the bytes of the number, lowest first |
| GoldData.GetData | utils/dromajo/gold/Gold_data.hpp:72-81 | the number the bytes stand for |
| GoldData.BytesRoundTrip | utils/dromajo/gold/Gold_data.hpp:64-81 | writing the bytes of a number and reading them gives the number back |
| GoldData.BytesInNumbers | utils/dromajo/gold/Gold_data.hpp:64-70 | byte k written is v / 2^(8k) % 256 |
| GoldData.ValueInNumbers | utils/dromajo/gold/Gold_data.hpp:72-81 | the number read has the bytes of the chunk, lowest first, and no more |
| GoldCheck.Checker.InOrder | utils/dromajo/gold/Gold_core.cpp:10-20 | the next id, strictly above all earlier ones |
| GoldCheck.LastWriteWins | utils/dromajo/gold/Gold_mem.hpp:14-39 | a byte of flat memory is that of the last write over it, or the initial one |
| GoldCheck.Checker.MemLdPerform | utils/dromajo/gold/Gold_mem.hpp:22-37 | lazily fetched or not, the bytes of flat memory |
| GoldCheck.Checker.MemStPerform | utils/dromajo/gold/Gold_mem.hpp:14-20 | the byte map stays the flat memory after the store |
| GoldCheck.Checker.LdPerform | utils/dromajo/gold/Gold_core.cpp:76-108 | a load among older entries of its core gets the bytes of flat memory |
| GoldCheck.Checker.StGloballyPerform | utils/dromajo/gold/Gold_core.cpp:192-252 | the store reaches memory and the core's buffer is empty afterwards |
| GoldCheck.Checker.CheckLoad | utils/dromajo/gold/bridge_inorder.cpp:21-43 | the value of the last earlier overlapping stores of any core, else the initial memory; fails if and only if the device read something else outside its own address space |
| GoldCheck.Checker.CheckStore | utils/dromajo/gold/bridge_inorder.cpp:45-56 | appends the store to the history and empties the buffer |
| GoldCheck.Checker.CheckAmo | utils/dromajo/gold/bridge_inorder.cpp:58-91 | loads the old bytes, then stores; a mismatch ends the run before the store |
| GoldCheck.Run | utils/dromajo/gold/bridge_inorder.cpp:21-91 | any run on any number of cores passes if and only if every load agrees with a flat sequential memory, and stops at the first that does not |
| EbiMatch.MatchIsKey | tb/ruby_testbench/ebi_match.py:66-78 | matching is equality of keys, the last nine flit characters on channel 3, though it looks at the sender's channel only |
| EbiMatch.MatchInNumbers | tb/ruby_testbench/ebi_match.py:66-78 | flits match when all fields agree, on channel 3 when the last nine characters of the flit do, one by one |
| EbiMatch.Matcher.Receive | tb/ruby_testbench/ebi_match.py:194-203 | removes the first pending match and only it, or leaves the receive over |
| EbiMatch.PeakIsMax | tb/ruby_testbench/ebi_match.py:178-226 | the peak is the largest excess of receives over sends over all prefixes |
| EbiMatch.RecordsCount | tb/ruby_testbench/ebi_match.py:178-226 | the receives that set a new peak number the peak |
| EbiMatch.ClosedFormNext | tb/ruby_testbench/ebi_match.py:178-226 | one more log entry keeps the closed form for every key |
| EbiMatch.Run | tb/ruby_testbench/ebi_match.py:178-226 | per key, unmatched receives are those that set a new peak, unmatched sends the last of their key, sends - receives + unmatched receives in number; both keep log order |
| DeviceTree.RebuildFlatten | utils/dromajo/src/riscv_machine.cpp:489-504 | the calls that build a tree give the tree back |
| DeviceTree.NameAt | utils/dromajo/src/riscv_machine.cpp:506-527 | the string at the offset handed out for a name is that name |
| DeviceTree.OffsetStays | utils/dromajo/src/riscv_machine.cpp:506-527 | offsets handed out earlier stay valid as the table grows |
| DeviceTree.EncodeStays | utils/dromajo/src/riscv_machine.cpp:529-534 | so do all tokens encoded earlier |
| DeviceTree.TokenBack | utils/dromajo/src/riscv_machine.cpp:475-534 | the parser reads each encoded token back and goes on behind its padding |
| TreeLaws.BigEndian | utils/dromajo/src/riscv_machine.cpp:475-479 | a word is written highest byte first |
| TreeLaws.TokenBytes | utils/dromajo/src/riscv_machine.cpp:445-534 | the bytes of each token: the word 1, the name and one to four zeros; the word 2; the word 3, the length, the place of the name, the data and its padding |
| TreeLaws.TableInNumbers | utils/dromajo/src/riscv_machine.cpp:506-527 | names stand one after the other, each with one NUL |
| TreeLaws.SmallestTree | utils/dromajo/src/riscv_machine.cpp:475-534 | a node with one property of one byte, word by word |
| DeviceTree.EncodeBack | utils/dromajo/src/riscv_machine.cpp:475-534 | the parser reads a whole structure block back to the tokens |
| FdtBuilder.BalancedIsTree | utils/dromajo/src/riscv_machine.cpp:489-504 | the calls are those of a tree if and only if they are balanced, and then the tree is found |
| FdtBuilder.CountIsNotEnough | utils/dromajo/src/riscv_machine.cpp:604 | the asserted open count of zero alone does not make the calls a tree's |
| FdtBuilder.Builder.PutData | utils/dromajo/src/riscv_machine.cpp:481-487 | data zero padded to whole words |
| FdtBuilder.Builder.BeginNode | utils/dromajo/src/riscv_machine.cpp:489-493 | the word table encodes one more call |
| FdtBuilder.Builder.EndNode | utils/dromajo/src/riscv_machine.cpp:501-504 | the word table encodes one more call |
| FdtBuilder.Builder.GetStringOffset | utils/dromajo/src/riscv_machine.cpp:506-527 | the offset of a name, which is added only when no earlier name equals it: names stay distinct and the table only grows |
| FdtBuilder.Builder.Prop | utils/dromajo/src/riscv_machine.cpp:529-534 | the word table encodes one more property, though interning may grow the names between its words |
| FdtBuilder.Builder.PropTabU32 | utils/dromajo/src/riscv_machine.cpp:536-542 | the same for a table of words, put one by one |
| FdtBuilder.WordsAt | utils/dromajo/src/riscv_machine.cpp:536-542 | word i of such a property reads back |
| FdtBuilder.Builder.PropU64 | utils/dromajo/src/riscv_machine.cpp:546-551 | a double word is its high and low words |
| FdtBuilder.Builder.PropStr | utils/dromajo/src/riscv_machine.cpp:562 | a string property keeps its terminator |
| FdtBuilder.Builder.Output | utils/dromajo/src/riscv_machine.cpp:597-646 | fails if and only if a node is open; else header, structure, empty reservation block and strings are laid out with zero padding, and nothing behind the blob is touched |
| TreeLaws.BlobInNumbers | utils/dromajo/src/riscv_machine.cpp:597-646 | magic, sizes, offsets and versions at their places in the header, the structure at byte 40, the empty reservation at the next multiple of eight, the strings behind it, zeros elsewhere |
| FdtBuilder.ReadLaid | utils/dromajo/src/riscv_machine.cpp:597-646 | reading header, then blocks, of a laid-out blob gives the tokens back |
| FdtBuilder.OutputReads | utils/dromajo/src/riscv_machine.cpp:597-646 | what a builder puts out reads back to its calls, and to their tree when they are balanced |

## Left out

- IntegerConversion.FloatToInt: assumes a target width of at most Bias + 1 and a mantissa size of at most Bias, which holds for every pair the library instantiates.
- FormatConversion.Widen: assumes the wide format holds every narrow value as a normal number, as the library's formats do (`LibraryFormats`).
- FormatConversion.Narrow: the same assumption about the two formats.
- HoodTable.Table.Insert: the state after a thrown overflow or failed allocation is not described.
- HoodTable.Table.TryIncreaseInfo: halves bytes one at a time instead of eight at once; padding bytes may be halved or not.
- SoftTlb.Run: assumes page-granular memory ranges and protection entries, and at least 12 physical address bits.
- SoftTlb.Hart.TargetRead: device reads, triggers and access tracking are replies the model does not compute further; page-table entries are read from RAM only; misaligned accesses trap, as configured.
- CodeFetch.FetchInsn: the pointer the interpreter keeps into the current page between jumps is not modelled.
- DirtyPages.Run: the RAM stays enabled and page aligned; translation is a parameter of each store.
- BootProgram.BootRestores: assumes a saved state with MPRV clear, no locked protection entry, an aligned pc and a CLINT outside the ROM; what a CSR keeps of the value written is modelled only where later instructions depend on it.
- BootRom.CreateBootRom: the variant with a cache warm-up loop (LIVECACHE) is not modelled, and the privilege check that exits for mode 2 is an assumption.
- VirtioCopy.Copier.MemcpyToFromQueue: assumes an acyclic chain in RAM with writable buffers outside the table; descriptor lengths and sums from 2^31 up, which the source casts to negative numbers, are not modelled.
- VirtioCopy.Copier.GetDescRwSize: the same bound on lengths.
- VirtioRings.Run: requests are well formed and stand for their chains, which `VirtioController` joins request by request; the rings are arrays of their own.
- VirtioBlock.BlockDevice.RecvRequest: the file completes at once; a read behind the end of the disk, which stops the program, a request without room for the status byte, a write behind the end of a read-write file, which would grow it, and sector numbers past 32 bits in a snapshot are assumed away.
- PageWalk.WalkIsSpec: reserved bits of page-table entries are part of the page number on both sides.
- LiveTraversal.Traverse: the line of the very first access has order 0 and is not listed until accessed again, as in the source.
- LiveCache.LiveCache.FindLine: line states and the validity test are left out, since a line never leaves its initial state here; RANDOM and LRUp policies and the direct-mapped cache are left out.
- GoldCheck.Run: in-order use only; the out-of-order interface, nuke and store forwarding between overlapping entries are left out.
- GoldData.AddRange: data start empty; the merge test for several adjacent chunks, which never fires, is not used by in-order runs.
- EbiMatch.Run: parsing log lines with regular expressions is left out; events are given.
- FdtBuilder.OutputReads: sizes below 2^32 and names without NUL.
- FdtBuilder.Builder.GetStringOffset: growth of the buffers by reallocation is left out; they are sequences.
- FdtBuilder.Builder.BeginNode: numbered node names are given as strings; hexadecimal formatting is left out.
- SoftFP minimum, maximum, comparisons and classification, which add only easy members.
- Iterators, copying and moving of the hash table, and its allocator pool.
- The rest of the interpreter and the co-simulation interface, interrupts, PLIC and CLINT.
- File systems, consoles, networks, PCI, ELF loading, JSON and option parsing.
- The cache itself, which is SystemVerilog, is not part of this model.
